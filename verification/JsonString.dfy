/** Quoted strings: valueToQuotedString(N) on the writer's side, readString and
    decodeString on the reader's side (section 7 of RFC 8259). */
module JsonString {
  import opened JsonScanner
  import opened Slices
  import opened Utf8

  // -------------------------------------------------------------- writing

  predicate IsControl(c: char) { 0 < c as int <= 0x1F }

  function HexDigit(d: nat): (c: char)
    requires d < 16
  {
    "0123456789ABCDEF"[d]
  }

  /** The text the escaping loop appends for one character. */
  function Escape(c: char): (e: string)
    ensures e != ""
  {
    match c
    case '"' => "\\\""
    case '\\' => "\\\\"
    case '\n' => "\\n"
    case '\r' => "\\r"
    case '\t' => "\\t"
    case _ =>
      if c as int == 8 then "\\b"
      else if c as int == 12 then "\\f"
      else if IsControl(c) || c == NUL then
        "\\u00" + [HexDigit(c as int / 16), HexDigit(c as int % 16)]
      else [c]
  }

  function EscapeAll(s: string): string {
    if s == "" then "" else Escape(s[0]) + EscapeAll(s[1..])
  }

  function Quoted(s: string): string { "\"" + EscapeAll(s) + "\"" }

  /** Characters that the search before the escaping loop looks for. */
  predicate NeedsEscape(c: char) {
    c == '"' || c == '\\' || c as int == 8 || c as int == 12 || c == '\n' || c == '\r' || c == '\t'
    || IsControl(c) || c == NUL
  }

  lemma {:induction false} EscapeAllAppends(s: string, t: string)
    ensures EscapeAll(s + t) == EscapeAll(s) + EscapeAll(t)
  {
    if s == "" {
      assert s + t == t;
    } else {
      assert (s + t)[1..] == s[1..] + t;
      EscapeAllAppends(s[1..], t);
    }
  }

  lemma {:induction false} PlainTextUnchanged(s: string)
    requires forall i :: 0 <= i < |s| ==> !NeedsEscape(s[i])
    ensures EscapeAll(s) == s
  {
    if s != "" {
      assert forall i :: 0 <= i < |s[1..]| ==> s[1..][i] == s[i + 1];
      PlainTextUnchanged(s[1..]);
      assert Escape(s[0]) == [s[0]];
      assert s == [s[0]] + s[1..];
    }
  }

  /** strnpbrk and containsControlCharacter0 together. */
  method FindSpecial(memory: string, length: nat) returns (found: bool)
    requires length <= |memory|
    ensures found <==> exists i :: 0 <= i < length && NeedsEscape(memory[i])
  {
    for i := 0 to length
      invariant forall j :: 0 <= j < i ==> !NeedsEscape(memory[j])
    {
      if NeedsEscape(memory[i]) { return true; }
    }
    return false;
  }

  /** The text a `const char*` denotes: up to the first NUL. */
  function CText(memory: string): (s: string)
    ensures |s| <= |memory|
    ensures NUL in memory ==> |s| < |memory| && memory[|s|] == NUL
    ensures s == memory[..|s|] && forall i :: 0 <= i < |s| ==> s[i] != NUL
  {
    if memory == "" || memory[0] == NUL then "" else [memory[0]] + CText(memory[1..])
  }

  lemma {:induction false} CTextStops(s: string, memory: string)
    requires |s| < |memory| && memory[..|s|] == s && memory[|s|] == NUL
    requires forall i :: 0 <= i < |s| ==> s[i] != NUL
    ensures CText(memory) == s
  {
    if s != "" {
      assert memory[0] == s[0];
      assert memory[1..][..|s| - 1] == s[1..];
      CTextStops(s[1..], memory[1..]);
    }
  }

  /** valueToQuotedStringN.  The shortcut for plain text reads a C string, so it
      relies on the terminator that follows the `length` characters. */
  method ValueToQuotedStringN(memory: string, length: nat) returns (result: string)
    requires length < |memory| && memory[length] == NUL
    ensures result == Quoted(memory[..length])
  {
    hide Escape;
    var special := FindSpecial(memory, length);
    ghost var s := memory[..length];
    if !special {
      CTextStops(s, memory);
      PlainTextUnchanged(s);
      return "\"" + CText(memory) + "\"";
    }
    result := "\"";
    for c := 0 to length
      invariant result == "\"" + EscapeAll(memory[..c])
    {
      assert memory[..c + 1] == memory[..c] + [memory[c]];
      EscapeAllAppends(memory[..c], [memory[c]]);
      assert EscapeAll([memory[c]]) == Escape(memory[c]) + EscapeAll("");
      result := result + Escape(memory[c]);
    }
    result := result + "\"";
  }

  /** valueToQuotedString: the C-string variant StyledWriter uses for names. */
  method ValueToQuotedString(memory: string) returns (result: string)
    requires NUL in memory
    ensures result == Quoted(CText(memory))
  {
    var length := |CText(memory)|;
    assert memory[..length] == CText(memory);
    result := ValueToQuotedStringN(memory, length);
  }

  // -------------------------------------------------------------- reading

  datatype Problem =
    | EmptyEscape | UnknownEscape | FourDigitsExpected | HexDigitExpected
    | SixCharactersExpected | SecondHalfExpected

  /** The result of decodeString: the text, or a problem and how far into the
      string the cursor had moved. */
  datatype Unescaped = Text(text: string) | Bad(problem: Problem, at: nat)

  datatype Code = Code(unicode: nat, length: nat) | NoCode(problem: Problem, at: nat)

  predicate IsHex(c: char) { '0' <= c <= '9' || 'a' <= c <= 'f' || 'A' <= c <= 'F' }

  function HexValue(c: char): (n: nat)
    requires IsHex(c)
    ensures n < 16
  {
    if '0' <= c <= '9' then c as int - '0' as int
    else if 'a' <= c <= 'f' then c as int - 'a' as int + 10
    else c as int - 'A' as int + 10
  }

  /** Value of the first k hexadecimal digits. */
  function HexPrefix(s: string, k: nat): (n: nat)
    requires k <= |s| && forall i :: 0 <= i < k ==> IsHex(s[i])
  {
    if k == 0 then 0 else 16 * HexPrefix(s, k - 1) + HexValue(s[k - 1])
  }

  /** decodeUnicodeEscapeSequence, after `\u`. */
  function Hex4(s: string): (c: Code)
    ensures c.Code? ==> c.length == 4 <= |s|
    ensures c.NoCode? ==> c.at <= |s|
  {
    if |s| < 4 then NoCode(FourDigitsExpected, 0)
    else if !IsHex(s[0]) then NoCode(HexDigitExpected, 1)
    else if !IsHex(s[1]) then NoCode(HexDigitExpected, 2)
    else if !IsHex(s[2]) then NoCode(HexDigitExpected, 3)
    else if !IsHex(s[3]) then NoCode(HexDigitExpected, 4)
    else Code(HexPrefix(s, 4), 4)
  }

  /** decodeUnicodeCodePoint: a lead surrogate must be followed by a second
      escape, whose low ten bits are taken whatever it is. */
  function CodePoint(s: string): (c: Code)
    ensures c.Code? ==> 4 <= c.length <= |s|
    ensures c.NoCode? ==> c.at <= |s|
  {
    match Hex4(s)
    case NoCode(p, at) => NoCode(p, at)
    case Code(unicode, _) =>
      if 0xD800 <= unicode <= 0xDBFF then
        if |s| - 4 < 6 then NoCode(SixCharactersExpected, 4)
        else if s[4] != '\\' then NoCode(SecondHalfExpected, 5)
        else if s[5] != 'u' then NoCode(SecondHalfExpected, 6)
        else
          match Hex4(s[6..])
          case NoCode(p, at) => NoCode(p, 6 + at)
          case Code(low, _) => Code(0x10000 + unicode % 0x400 * 0x400 + low % 0x400, 10)
      else Code(unicode, 4)
  }

  function Then(front: string, length: nat, rest: Unescaped): Unescaped {
    match rest
    case Text(t) => Text(front + t)
    case Bad(p, at) => Bad(p, length + at)
  }

  /** The single-character escapes; the result is empty for any other letter. */
  function SimpleEscape(c: char): string {
    match c
    case '"' => "\""
    case '/' => "/"
    case '\\' => "\\"
    case 'b' => [8 as char]
    case 'f' => [12 as char]
    case 'n' => "\n"
    case 'r' => "\r"
    case 't' => "\t"
    case _ => ""
  }

  /** decodeString on the text between the quotes. */
  function Unescape(s: string): Unescaped {
    if s == "" || s[0] == '"' then Text("")
    else if s[0] != '\\' then Then([s[0]], 1, Unescape(s[1..]))
    else if |s| == 1 then Bad(EmptyEscape, 1)
    else if s[1] == 'u' then
      match CodePoint(s[2..])
      case NoCode(p, at) => Bad(p, 2 + at)
      case Code(unicode, n) => Then(CodePointToUTF8(unicode), 2 + n, Unescape(s[2 + n..]))
    else if SimpleEscape(s[1]) == "" then Bad(UnknownEscape, 2)
    else Then(SimpleEscape(s[1]), 2, Unescape(s[2..]))
  }

  /** The four-digit loop. */
  method DecodeHex4(s: string, start: nat) returns (code: Code)
    requires start <= |s|
    ensures code == Hex4(s[start..])
  {
    if |s| - start < 4 { return NoCode(FourDigitsExpected, 0); }
    var unicode := 0;
    ghost var h := s[start..];
    for index := 0 to 4
      invariant forall i :: 0 <= i < index ==> IsHex(h[i])
      invariant unicode == HexPrefix(h, index)
    {
      var c := s[start + index];
      assert h[index] == c;
      unicode := unicode * 16;
      if '0' <= c <= '9' { unicode := unicode + (c as int - '0' as int); }
      else if 'a' <= c <= 'f' { unicode := unicode + (c as int - 'a' as int + 10); }
      else if 'A' <= c <= 'F' { unicode := unicode + (c as int - 'A' as int + 10); }
      else { return NoCode(HexDigitExpected, index + 1); }
    }
    code := Code(unicode, 4);
  }

  method DecodeCodePoint(s: string, start: nat) returns (code: Code)
    requires start <= |s|
    ensures code == CodePoint(s[start..])
  {
    code := DecodeHex4(s, start);
    if code.Code? && 0xD800 <= code.unicode <= 0xDBFF {
      var current := start + 4;
      if |s| - current < 6 { return NoCode(SixCharactersExpected, 4); }
      if s[current] != '\\' { return NoCode(SecondHalfExpected, 5); }
      if s[current + 1] != 'u' { return NoCode(SecondHalfExpected, 6); }
      DropDrop(s, start, 6);
      var low := DecodeHex4(s, current + 2);
      match low
      case NoCode(p, at) => code := NoCode(p, 6 + at);
      case Code(u, _) => code := Code(0x10000 + code.unicode % 0x400 * 0x400 + u % 0x400, 10);
    }
  }

  /** The loop of decodeString, which appends to `decoded` and stops at the
      first problem. */
  method DecodeString(s: string) returns (result: Unescaped)
    ensures result == Unescape(s)
  {
    var decoded, current := "", 0;
    assert s[0..] == s;
    while current < |s|
      invariant current <= |s|
      invariant Unescape(s) == Then(decoded, current, Unescape(s[current..]))
      decreases |s| - current
    {
      ghost var rest := s[current..];
      var c := s[current];
      DropDrop(s, current, 1);
      current := current + 1;
      if c == '"' {
        return Text(decoded);
      } else if c == '\\' {
        if current == |s| { return Bad(EmptyEscape, current); }
        var escape := s[current];
        assert rest[1] == escape;
        DropDrop(s, current - 1, 2);
        current := current + 1;
        if escape == 'u' {
          var code := DecodeCodePoint(s, current);
          if code.NoCode? { return Bad(code.problem, current + code.at); }
          DropDrop(s, current - 2, 2 + code.length);
          ThenThen(decoded, current - 2, CodePointToUTF8(code.unicode), 2 + code.length, Unescape(s[current + code.length..]));
          current := current + code.length;
          decoded := decoded + CodePointToUTF8(code.unicode);
        } else if SimpleEscape(escape) == "" {
          return Bad(UnknownEscape, current);
        } else {
          ThenThen(decoded, current - 2, SimpleEscape(escape), 2, Unescape(s[current..]));
          decoded := decoded + SimpleEscape(escape);
        }
      } else {
        ThenThen(decoded, current - 1, [c], 1, Unescape(s[current..]));
        decoded := decoded + [c];
      }
    }
    result := Text(decoded);
  }

  lemma ThenThen(a: string, i: nat, b: string, j: nat, rest: Unescaped)
    ensures Then(a, i, Then(b, j, rest)) == Then(a + b, i + j, rest)
  {
    if rest.Text? { assert a + (b + rest.text) == a + b + rest.text; }
  }

  // ----------------------------------------------------------- round trip

  lemma HexPrefix4(s: string)
    requires |s| >= 4 && forall i :: 0 <= i < 4 ==> IsHex(s[i])
    ensures HexPrefix(s, 4) == HexValue(s[0]) * 4096 + HexValue(s[1]) * 256 + HexValue(s[2]) * 16 + HexValue(s[3])
  {
    assert HexPrefix(s, 2) == 16 * HexPrefix(s, 1) + HexValue(s[1]);
  }

  lemma HexDigitValue(d: nat)
    requires d < 16
    ensures IsHex(HexDigit(d)) && HexValue(HexDigit(d)) == d
  {
  }

  /** Decoding an escaped character gives it back and leaves the rest. */
  lemma UnescapeOne(c: char, r: string)
    ensures Unescape(Escape(c) + r) == Then([c], |Escape(c)|, Unescape(r))
  {
    var e := Escape(c);
    var s := e + r;
    assert s[|e|..] == r;
    if |e| == 6 {
      var hi, lo := c as int / 16, c as int % 16;
      HexDigitValue(hi); HexDigitValue(lo);
      var h := s[2..];
      assert h[0] == '0' && h[1] == '0' && h[2] == HexDigit(hi) && h[3] == HexDigit(lo);
      HexPrefix4(h);
      assert HexPrefix(h, 4) == c as int;
      assert CodePoint(h) == Code(c as int, 4);
      assert CodePointToUTF8(c as int) == [c];
      DropDrop(s, 2, 4);
    } else if |e| == 2 {
      assert s[0] == '\\' && s[1] == e[1];
    } else {
      assert s[0] == c;
    }
  }

  /** decodeString inverts the escaping loop on every byte string. */
  lemma {:induction false} UnescapeInvertsEscape(s: string)
    ensures Unescape(EscapeAll(s)) == Text(s)
  {
    if s != "" {
      UnescapeOne(s[0], EscapeAll(s[1..]));
      UnescapeInvertsEscape(s[1..]);
      assert [s[0]] + s[1..] == s;
    }
  }

  /** readString runs through the escaped text and stops at the final quote. */
  lemma {:induction false} ScanStopsAtFinalQuote(s: string, rest: string)
    ensures StringRun(EscapeAll(s) + "\"" + rest) == Run(|EscapeAll(s)| + 1, true)
  {
    if s == "" {
      assert EscapeAll(s) + "\"" + rest == "\"" + rest;
    } else {
      var tail := EscapeAll(s[1..]) + "\"" + rest;
      ScanStopsAtFinalQuote(s[1..], rest);
      ScanOne(s[0], tail);
      assert EscapeAll(s) + "\"" + rest == Escape(s[0]) + tail;
    }
  }

  lemma ScanOne(c: char, r: string)
    ensures StringRun(Escape(c) + r) == Run(|Escape(c)| + StringRun(r).length, StringRun(r).ok)
  {
    var e := Escape(c);
    var s := e + r;
    if |e| == 6 {
      assert s[0] == '\\' && s[2..] == e[2..] + r;
      var t := s[2..];
      ScanPlain(t, 4);
      assert t[4..] == r;
    } else if |e| == 2 {
      assert s[0] == '\\' && s[2..] == r;
    } else {
      assert s[0] == c && s[1..] == r;
    }
  }

  lemma {:induction false} ScanPlain(t: string, k: nat)
    requires k <= |t| && forall i :: 0 <= i < k ==> t[i] != '\\' && t[i] != '"'
    ensures StringRun(t) == Run(k + StringRun(t[k..]).length, StringRun(t[k..]).ok)
  {
    if k == 0 {
      assert t[0..] == t;
    } else {
      ScanPlain(t[1..], k - 1);
      assert t[1..][k - 1..] == t[k..];
    }
  }

  /** A quoted string is one token, and decoding that token gives the text. */
  lemma QuotedIsToken(s: string, rest: string)
    ensures IsToken(StringText, Quoted(s), rest)
    ensures Quoted(s)[1..|Quoted(s)| - 1] == EscapeAll(s)
  {
    hide StringRun, EscapeAll, CommentRun, NumberRun, WordRun;
    ScanStopsAtFinalQuote(s, rest);
    var e := EscapeAll(s);
    var t := Quoted(s) + rest;
    assert t[0] == '"' && t[1..] == e + "\"" + rest;
  }

  lemma QuotedInjective(s: string, t: string)
    requires Quoted(s) == Quoted(t)
    ensures s == t
  {
    QuotedIsToken(s, ""); QuotedIsToken(t, "");
    UnescapeInvertsEscape(s); UnescapeInvertsEscape(t);
  }

  // ------------------------------------------------------ unicode escapes

  /** The \u spellings of a scalar value (section 7 of RFC 8259): four hex
      digits of either case, or a surrogate pair above U+FFFF. */
  predicate Spells(e: string, cp: nat) {
    if |e| == 6 then
      && e[..2] == "\\u" && (forall i :: 2 <= i < 6 ==> IsHex(e[i]))
      && HexPrefix(e[2..], 4) == cp && IsScalar(cp)
    else
      && |e| == 12 && e[..2] == "\\u" && e[6..8] == "\\u"
      && (forall i :: 2 <= i < 6 ==> IsHex(e[i])) && (forall i :: 8 <= i < 12 ==> IsHex(e[i]))
      && 0xD800 <= HexPrefix(e[2..], 4) <= 0xDBFF && 0xDC00 <= HexPrefix(e[8..], 4) <= 0xDFFF
      && cp == 0x10000 + (HexPrefix(e[2..], 4) - 0xD800) * 0x400 + (HexPrefix(e[8..], 4) - 0xDC00)
  }

  /** Four hex digits mean the same wherever they stand. */
  lemma Hex4Local(h: string, d: string)
    requires |d| >= 4 && |h| >= 4 && (forall i :: 0 <= i < 4 ==> IsHex(d[i]) && h[i] == d[i])
    ensures Hex4(h) == Code(HexPrefix(d, 4), 4)
  {
    HexPrefix4(h); HexPrefix4(d);
  }

  lemma SurrogatePair(h: string, hi: nat, lo: nat)
    requires |h| >= 10 && h[4] == '\\' && h[5] == 'u'
    requires Hex4(h) == Code(hi, 4) && Hex4(h[6..]) == Code(lo, 4)
    requires 0xD800 <= hi <= 0xDBFF && 0xDC00 <= lo <= 0xDFFF
    ensures CodePoint(h) == Code(0x10000 + (hi - 0xD800) * 0x400 + (lo - 0xDC00), 10)
  {
    assert hi % 0x400 == hi - 0xD800;
    assert lo % 0x400 == lo - 0xDC00;
  }

  lemma UnescapeCode(s: string, h: string, cp: nat, n: nat)
    requires |s| >= 2 && s[0] == '\\' && s[1] == 'u' && h == s[2..] && CodePoint(h) == Code(cp, n)
    ensures Unescape(s) == Then(CodePointToUTF8(cp), 2 + n, Unescape(s[2 + n..]))
  {
  }

  lemma UnescapeSpelling(e: string, cp: nat, r: string)
    requires Spells(e, cp)
    ensures Unescape(e + r) == Then(CodePointToUTF8(cp), |e|, Unescape(r))
  {
    var s := e + r;
    var h := s[2..];
    assert s[0] == e[..2][0] == '\\' && s[1] == e[..2][1] == 'u';
    Hex4Local(h, e[2..]);
    assert s[|e|..] == r;
    if |e| == 6 {
      UnescapeCode(s, h, cp, 4);
    } else {
      assert h[4] == e[6..8][0] == '\\' && h[5] == e[6..8][1] == 'u';
      Hex4Local(h[6..], e[8..]);
      SurrogatePair(h, HexPrefix(e[2..], 4), HexPrefix(e[8..], 4));
      UnescapeCode(s, h, cp, 10);
    }
  }

  function Flatten(es: seq<string>): string {
    if es == [] then "" else es[0] + Flatten(es[1..])
  }

  /** Decoding any \u spelling of a scalar sequence gives its UTF-8 encoding. */
  lemma {:induction false} UnicodeEscapesDecode(es: seq<string>, cps: seq<nat>)
    requires |es| == |cps| && forall i :: 0 <= i < |es| ==> Spells(es[i], cps[i])
    ensures Unescape(Flatten(es)) == Text(Encode(cps))
  {
    if es != [] {
      UnescapeSpelling(es[0], cps[0], Flatten(es[1..]));
      UnicodeEscapesDecode(es[1..], cps[1..]);
    }
  }
}
