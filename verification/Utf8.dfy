/** The two UTF-8 encoders of the repository, json_tool.h's codePointToUTF8 and
    TinyXML's ConvertUTF32ToUTF8, against section 3 of RFC 3629.  Bytes are
    characters below 256; masks and shifts are written as div and mod. */
module Utf8 {

  predicate IsScalar(cp: nat) { cp < 0xD800 || 0xE000 <= cp <= 0x10FFFF }

  function Byte(n: nat): (c: char)
    requires n < 256
    ensures c as int == n
  {
    n as char
  }

  /** codePointToUTF8; above 0x10FFFF the result is empty. */
  function CodePointToUTF8(cp: nat): string {
    var by6 := cp / 64;
    var by12 := by6 / 64;
    var by18 := by12 / 64;
    if cp <= 0x7F then [Byte(cp)]
    else if cp <= 0x7FF then [Byte(0xC0 + by6 % 32), Byte(0x80 + cp % 64)]
    else if cp <= 0xFFFF then [Byte(0xE0 + by12 % 16), Byte(0x80 + by6 % 64), Byte(0x80 + cp % 64)]
    else if cp <= 0x10FFFF then
      [Byte(0xF0 + by18 % 8), Byte(0x80 + by12 % 64), Byte(0x80 + by6 % 64), Byte(0x80 + cp % 64)]
    else ""
  }

  /** ConvertUTF32ToUTF8: the switch falls through from the last byte to the
      first, shifting six bits out each time. */
  method ConvertUTF32ToUTF8(input: nat, output: array<char>) returns (length: nat)
    requires output.Length >= 4
    modifies output
    ensures length <= 4 && output[length..] == old(output[length..])
    ensures input <= 0x10FFFF || input >= 0x200000 ==> output[..length] == CodePointToUTF8(input)
    ensures 0x10FFFF < input < 0x200000 ==> length == 4
  {
    if input < 0x80 { length := 1; }
    else if input < 0x800 { length := 2; }
    else if input < 0x10000 { length := 3; }
    else if input < 0x200000 { length := 4; }
    else { return 0; }
    Forms(input);
    hide CodePointToUTF8;
    var rest := input;
    var at := length;
    if length == 4 { at, rest := TailByte(output, at, rest); }
    if length >= 3 { at, rest := TailByte(output, at, rest); }
    if length >= 2 { at, rest := TailByte(output, at, rest); }
    at := at - 1;
    output[at] := Byte([0x00, 0x00, 0xC0, 0xE0, 0xF0][length] + rest);
    assert at == 0;
    if input <= 0x10FFFF {
      assert forall i :: 0 <= i < length ==> output[..length][i] == output[i];
    }
  }

  /** The bytes, with the masks that the ranges make superfluous left out. */
  lemma Forms(cp: nat)
    ensures cp < 0x80 ==> CodePointToUTF8(cp) == [Byte(cp)]
    ensures 0x80 <= cp < 0x800 ==> CodePointToUTF8(cp) == [Byte(0xC0 + cp / 64), Byte(0x80 + cp % 64)]
    ensures 0x800 <= cp < 0x10000 ==>
              CodePointToUTF8(cp) == [Byte(0xE0 + cp / 64 / 64), Byte(0x80 + cp / 64 % 64), Byte(0x80 + cp % 64)]
    ensures 0x10000 <= cp <= 0x10FFFF ==>
              CodePointToUTF8(cp) == [Byte(0xF0 + cp / 64 / 64 / 64), Byte(0x80 + cp / 64 / 64 % 64), Byte(0x80 + cp / 64 % 64), Byte(0x80 + cp % 64)]
    ensures cp > 0x10FFFF ==> CodePointToUTF8(cp) == ""
  {
  }

  /** One fall-through case: `--output`, store six bits, shift. */
  method TailByte(output: array<char>, at: nat, input: nat) returns (at': nat, rest: nat)
    requires 1 <= at <= output.Length
    modifies output
    ensures at' == at - 1 && rest == input / 64
    ensures output[at'] == Byte(0x80 + input % 64)
    ensures forall i :: 0 <= i < output.Length && i != at' ==> output[i] == old(output[i])
  {
    at' := at - 1;
    output[at'] := Byte(0x80 + input % 64);
    rest := input / 64;
  }

  // ------------------------------------------------- section 3 of RFC 3629

  predicate Tail(c: char) { 0x80 <= c as int <= 0xBF }

  /** The UTF8-1 to UTF8-4 productions, with the character number they carry. */
  predicate Encodes(b: string, cp: nat) {
    match |b|
    case 1 => b[0] as int <= 0x7F && cp == b[0] as int
    case 2 =>
      && 0xC2 <= b[0] as int <= 0xDF && Tail(b[1])
      && cp == (b[0] as int - 0xC0) * 64 + (b[1] as int - 0x80)
    case 3 =>
      && 0xE0 <= b[0] as int <= 0xEF && Tail(b[1]) && Tail(b[2])
      && (b[0] as int == 0xE0 ==> 0xA0 <= b[1] as int)
      && (b[0] as int == 0xED ==> b[1] as int <= 0x9F)
      && cp == (b[0] as int - 0xE0) * 4096 + (b[1] as int - 0x80) * 64 + (b[2] as int - 0x80)
    case 4 =>
      && 0xF0 <= b[0] as int <= 0xF4 && Tail(b[1]) && Tail(b[2]) && Tail(b[3])
      && (b[0] as int == 0xF0 ==> 0x90 <= b[1] as int)
      && (b[0] as int == 0xF4 ==> b[1] as int <= 0x8F)
      && cp == (b[0] as int - 0xF0) * 262144 + (b[1] as int - 0x80) * 4096
              + (b[2] as int - 0x80) * 64 + (b[3] as int - 0x80)
    case _ => false
  }

  /** The encoder produces the RFC 3629 form of every scalar value, and nothing
      else is a valid encoding of it. */
  lemma EncoderIsRfc3629(cp: nat, b: string)
    requires IsScalar(cp)
    ensures Encodes(b, cp) <==> b == CodePointToUTF8(cp)
  {
    EncoderValid(cp);
    if Encodes(b, cp) { EncodingForced(b, cp); }
  }

  lemma EncoderValid(cp: nat)
    requires IsScalar(cp)
    ensures Encodes(CodePointToUTF8(cp), cp)
  {
    if cp <= 0x7F {
    } else if cp <= 0x7FF {
      TwoValid(cp);
    } else if cp <= 0xFFFF {
      ThreeValid(cp);
    } else {
      FourValid(cp);
    }
  }

  lemma TwoValid(cp: nat)
    requires 0x80 <= cp <= 0x7FF
    ensures CodePointToUTF8(cp) == [Byte(0xC0 + cp / 64), Byte(0x80 + cp % 64)] && Encodes(CodePointToUTF8(cp), cp)
  {
  }

  lemma ThreeValid(cp: nat)
    requires 0x800 <= cp <= 0xFFFF && IsScalar(cp)
    ensures CodePointToUTF8(cp) == [Byte(0xE0 + cp / 64 / 64), Byte(0x80 + cp / 64 % 64), Byte(0x80 + cp % 64)]
    ensures Encodes(CodePointToUTF8(cp), cp)
  {
  }

  lemma FourValid(cp: nat)
    requires 0x10000 <= cp <= 0x10FFFF
    ensures CodePointToUTF8(cp) == [Byte(0xF0 + cp / 64 / 64 / 64), Byte(0x80 + cp / 64 / 64 % 64), Byte(0x80 + cp / 64 % 64), Byte(0x80 + cp % 64)]
    ensures Encodes(CodePointToUTF8(cp), cp)
  {
  }

  /** The character number determines the bytes. */
  lemma EncodingForced(b: string, cp: nat)
    requires Encodes(b, cp)
    ensures b == CodePointToUTF8(cp)
  {
    if |b| == 2 {
      ForcedTwo(b, cp);
    } else if |b| == 3 {
      ForcedThree(b, cp);
    } else if |b| == 4 {
      ForcedFour(b, cp);
    }
  }

  lemma ForcedTwo(b: string, cp: nat)
    requires Encodes(b, cp) && |b| == 2
    ensures b == CodePointToUTF8(cp)
  {
    var x, y := b[0] as int - 0xC0, b[1] as int - 0x80;
    Digits(x, y);
    TwoValid(cp);
    hide Encodes, CodePointToUTF8;
    assert b == [Byte(0xC0 + x), Byte(0x80 + y)];
  }

  lemma ForcedThree(b: string, cp: nat)
    requires Encodes(b, cp) && |b| == 3
    ensures b == CodePointToUTF8(cp)
  {
    var x, y, z := b[0] as int - 0xE0, b[1] as int - 0x80, b[2] as int - 0x80;
    Digits(x * 64 + y, z);
    Digits(x, y);
    ThreeValid(cp);
    hide Encodes, CodePointToUTF8;
    assert b == [Byte(0xE0 + x), Byte(0x80 + y), Byte(0x80 + z)];
  }

  lemma ForcedFour(b: string, cp: nat)
    requires Encodes(b, cp) && |b| == 4
    ensures b == CodePointToUTF8(cp)
  {
    var w, x, y, z := b[0] as int - 0xF0, b[1] as int - 0x80, b[2] as int - 0x80, b[3] as int - 0x80;
    Digits(w * 4096 + x * 64 + y, z);
    Digits(w * 64 + x, y);
    Digits(w, x);
    FourValid(cp);
    hide Encodes, CodePointToUTF8;
    assert b == [Byte(0xF0 + w), Byte(0x80 + x), Byte(0x80 + y), Byte(0x80 + z)];
  }

  lemma Digits(h: nat, l: nat)
    requires l < 64
    ensures (h * 64 + l) / 64 == h && (h * 64 + l) % 64 == l
  {
  }

  // --------------------------------------------------------- utf8ByteTable

  /** utf8ByteTable: the length announced by a lead byte. */
  function LeadLength(c: char): (n: nat)
    ensures 1 <= n <= 4
  {
    var b := c as int;
    if b < 0xC2 then 1 else if b < 0xE0 then 2 else if b < 0xF0 then 3 else if b < 0xF5 then 4 else 1
  }

  /** Cut a byte string into characters by lead byte. */
  function Split(s: string): seq<string> {
    if s == "" then []
    else
      var n := LeadLength(s[0]);
      if n >= |s| then [s] else [s[..n]] + Split(s[n..])
  }

  function Encode(cps: seq<nat>): string {
    if cps == [] then "" else CodePointToUTF8(cps[0]) + Encode(cps[1..])
  }

  predicate AllScalar(cps: seq<nat>) { forall i :: 0 <= i < |cps| ==> IsScalar(cps[i]) }

  /** Splitting by lead byte gives back exactly the encoded characters. */
  lemma {:induction false} SplitInvertsEncode(cps: seq<nat>)
    requires AllScalar(cps)
    ensures |Split(Encode(cps))| == |cps|
    ensures forall i :: 0 <= i < |cps| ==> Split(Encode(cps))[i] == CodePointToUTF8(cps[i])
  {
    if cps != [] {
      var e, r := CodePointToUTF8(cps[0]), Encode(cps[1..]);
      LeadAnnounces(cps[0]);
      SplitInvertsEncode(cps[1..]);
      if |cps| > 1 { LeadAnnounces(cps[1]); }
      hide CodePointToUTF8, LeadLength, Encodes;
      assert (e + r)[0] == e[0];
      assert (e + r)[..|e|] == e && (e + r)[|e|..] == r;
      if r == "" { assert e + r == e; }
    }
  }

  /** The lead byte announces the length of the encoding. */
  lemma LeadAnnounces(cp: nat)
    requires IsScalar(cp)
    ensures CodePointToUTF8(cp) != "" && LeadLength(CodePointToUTF8(cp)[0]) == |CodePointToUTF8(cp)|
  {
    EncoderValid(cp);
    hide CodePointToUTF8;
  }

  /** Hence different scalar sequences have different encodings. */
  lemma EncodeInjective(xs: seq<nat>, ys: seq<nat>)
    requires AllScalar(xs) && AllScalar(ys) && Encode(xs) == Encode(ys)
    ensures xs == ys
  {
    SplitInvertsEncode(xs);
    SplitInvertsEncode(ys);
    forall i | 0 <= i < |xs| ensures xs[i] == ys[i] {
      assert Split(Encode(xs))[i] == CodePointToUTF8(xs[i]) == CodePointToUTF8(ys[i]);
      EncoderValid(xs[i]);
      EncoderValid(ys[i]);
    }
  }
}
