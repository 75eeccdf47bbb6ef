/** TinyXML's attribute text in a single-byte encoding: EncodeString and
    TiXmlAttribute::Print on one side, GetEntity, ReadName, ReadText and
    TiXmlAttribute::Parse on the other (sections 4.1 and 4.6 of XML 1.0). Texts are
    the characters before a terminating NUL. */
module XmlAttributeText {
  import JsonString
  import opened Options

  // -------------------------------------------------------------- writing

  /** The first place from i on that holds c, or the length. */
  function FindFrom(s: string, i: nat, c: char): (q: nat)
    requires i <= |s|
    ensures i <= q <= |s| && (q < |s| ==> s[q] == c) && forall j :: i <= j < q ==> s[j] != c
    decreases |s| - i
  {
    if i == |s| || s[i] == c then i else FindFrom(s, i + 1, c)
  }

  /** The start of what EncodeString takes for a hexadecimal character reference. */
  predicate IsHexRef(s: string) { |s| >= 3 && s[0] == '&' && s[1] == '#' && s[2] == 'x' }

  /** How much of it is passed through: up to a semicolon, or all but the last character. */
  function PassLength(s: string): (n: nat)
    requires IsHexRef(s)
    ensures 2 <= n < |s|
  {
    var q := FindFrom(s, 3, ';');
    if q < |s| then q else |s| - 1
  }

  function Entity(c: char): (e: string)
    ensures e != ""
  {
    if c == '&' then "&amp;"
    else if c == '<' then "&lt;"
    else if c == '>' then "&gt;"
    else if c == '"' then "&quot;"
    else if c == '\'' then "&apos;"
    else if c as int < 32 then "&#x" + [JsonString.HexDigit(c as int / 16), JsonString.HexDigit(c as int % 16)] + ";"
    else [c]
  }

  /** EncodeString */
  function Encode(s: string): string
    decreases |s|
  {
    if s == "" then ""
    else if IsHexRef(s) then s[..PassLength(s)] + Encode(s[PassLength(s)..])
    else Entity(s[0]) + Encode(s[1..])
  }

  function QuoteFor(value: string): char { if '"' in value then '\'' else '"' }

  function Print(name: string, value: string): string {
    Encode(name) + "=" + [QuoteFor(value)] + Encode(value) + [QuoteFor(value)]
  }

  // -------------------------------------------------------------- reading

  /** One character read: the text appended and the characters used, or the null pointer. */
  datatype Step = Null | Step(out: string, used: nat)

  function Digit(c: char, base: nat): Option<nat> {
    if '0' <= c <= '9' then Some(c as nat - '0' as nat)
    else if base == 16 && 'a' <= c <= 'f' then Some(c as nat - 'a' as nat + 10)
    else if base == 16 && 'A' <= c <= 'F' then Some(c as nat - 'A' as nat + 10)
    else None
  }

  /** The number written after the last `stop` of a text. */
  function Number(t: string, base: nat, stop: char): Option<nat> {
    if t == "" then None
    else
      var last, front := t[|t| - 1], t[..|t| - 1];
      if last == stop then Some(0)
      else if Digit(last, base).None? || Number(front, base, stop).None? then None
      else Some(Number(front, base, stop).value * base + Digit(last, base).value)
  }

  /** The low byte of a character number. */
  function LowByte(v: nat): char { (v % 256) as char }

  function CharacterReference(s: string, start: nat, base: nat, stop: char): Step
    requires start <= |s|
  {
    var q := FindFrom(s, start, ';');
    if q == |s| then Null
    else
      match Number(s[..q], base, stop)
      case None => Null
      case Some(v) => Step([LowByte(v)], q + 1)
  }

  predicate Starts(s: string, t: string) { |t| <= |s| && s[..|t|] == t }

  /** GetEntity on a text that begins with an ampersand. */
  function GetEntity(s: string): (r: Step)
    requires s != "" && s[0] == '&'
    ensures r.Step? ==> 1 <= r.used <= |s| && |r.out| <= 1
  {
    if |s| >= 3 && s[1] == '#' then
      if s[2] == 'x' then CharacterReference(s, 3, 16, 'x') else CharacterReference(s, 2, 10, '#')
    else if Starts(s, "&amp;") then Step("&", 5)
    else if Starts(s, "&lt;") then Step("<", 4)
    else if Starts(s, "&gt;") then Step(">", 4)
    else if Starts(s, "&quot;") then Step("\"", 6)
    else if Starts(s, "&apos;") then Step("'", 6)
    else Step("", 1)
  }

  function GetChar(s: string): (r: Step)
    requires s != ""
    ensures r.Step? ==> 1 <= r.used <= |s|
  {
    if s[0] == '&' then GetEntity(s) else Step([s[0]], 1)
  }

  /** Where a reader of text ends: at a null pointer, one past the end of the text, or
      with some text left. */
  datatype Place = Lost | Beyond | Left(rest: string)
  datatype Reading = Reading(text: string, place: Place)

  /** ReadText up to a quote, white space kept. */
  function ReadText(s: string, quote: char): Reading
    decreases |s|
  {
    if s == "" then Reading("", Beyond)
    else if s[0] == quote then Reading("", Left(s[1..]))
    else
      match GetChar(s)
      case Null => Reading("", Lost)
      case Step(out, used) =>
        var r := ReadText(s[used..], quote);
        Reading(out + r.text, r.place)
  }

  predicate IsAlpha(c: char) { 'a' <= c <= 'z' || 'A' <= c <= 'Z' || c as int >= 127 }
  predicate IsAlphaNum(c: char) { IsAlpha(c) || '0' <= c <= '9' }
  predicate NameStart(c: char) { IsAlpha(c) || c == '_' }
  predicate NameChar(c: char) { IsAlphaNum(c) || c == '_' || c == '-' || c == '.' || c == ':' }

  predicate ValidName(name: string) {
    name != "" && NameStart(name[0]) && forall i :: 0 <= i < |name| ==> NameChar(name[i])
  }

  function NameLength(s: string): (n: nat)
    ensures n <= |s| && (forall i :: 0 <= i < n ==> NameChar(s[i])) && (n < |s| ==> !NameChar(s[n]))
  {
    if s == "" || !NameChar(s[0]) then 0 else 1 + NameLength(s[1..])
  }

  predicate IsSpace(c: char) { 9 <= c as int <= 13 || c == ' ' }

  function SpaceLength(s: string): (n: nat)
    ensures n <= |s|
  {
    if s == "" || !IsSpace(s[0]) then 0 else 1 + SpaceLength(s[1..])
  }

  function SkipSpace(s: string): string { s[SpaceLength(s)..] }

  /** The end of a value without quotes; None where a quote turns up. */
  function BareLength(s: string): (n: Option<nat>)
    ensures n.Some? ==> n.value <= |s|
  {
    if s == "" || IsSpace(s[0]) || s[0] == '/' || s[0] == '>' then Some(0)
    else if s[0] == '\'' || s[0] == '"' then None
    else match BareLength(s[1..])
         case None => None
         case Some(n) => Some(n + 1)
  }

  /** TiXmlAttribute::Parse: nothing, or the name, the value and the place after it. */
  datatype Parsed = Refused | Parsed(name: string, value: string, place: Place)

  function Parse(s: string): Parsed {
    var s1 := SkipSpace(s);
    if s1 == "" || !NameStart(s1[0]) then Refused
    else ParseRest(s1[..NameLength(s1)], SkipSpace(s1[NameLength(s1)..]))
  }

  /** From the equals sign on. */
  function ParseRest(name: string, s: string): Parsed {
    if s == "" || s[0] != '=' then Refused else ParseValue(name, SkipSpace(s[1..]))
  }

  function ParseValue(name: string, s: string): Parsed {
    if s == "" then Refused
    else if s[0] == '\'' || s[0] == '"' then
      var r := ReadText(s[1..], s[0]);
      if r.place.Lost? then Refused else Parsed(name, r.text, r.place)
    else
      match BareLength(s)
      case None => Refused
      case Some(n) => Parsed(name, s[..n], Left(s[n..]))
  }

  // ----------------------------------------------------------- round trip

  /** What becomes of a value: its hexadecimal references resolved, one of them
      malformed, or, after some text, a last one that is not closed. */
  datatype Resolution = Whole(text: string) | Malformed | Unclosed(text: string)

  /** A value that ends inside a reference is read back only when its last character,
      a control character, is written as a reference of its own; one that is written as
      an entity spoils the number. */
  function Resolve(s: string): Resolution
    decreases |s|
  {
    if s == "" then Whole("")
    else if !IsHexRef(s) then Before(s[0], Resolve(s[1..]))
    else
      var q := FindFrom(s, 3, ';');
      if q == |s| then
        if s[|s| - 1] as int < 32 then Whole(s[|s| - 1..])
        else if s[|s| - 1] in "&<>\"'" then Malformed
        else Unclosed("")
      else if Number(s[..q], 16, 'x').None? then Malformed
      else Before(LowByte(Number(s[..q], 16, 'x').value), Resolve(s[q + 1..]))
  }

  function Before(c: char, r: Resolution): Resolution {
    match r
    case Whole(t) => Whole([c] + t)
    case Malformed => Malformed
    case Unclosed(t) => Unclosed([c] + t)
  }

  /** Reading on behind the closing quote: the reference is taken to be closed by the next
      semicolon, if what is in front of that is a number after an x. */
  function Overrun(t: string, quote: char, rest: string): Reading {
    var q := FindFrom(rest, 0, ';');
    if q == |rest| || Number(rest[..q], 16, 'x').None? then Reading(t, Lost)
    else
      var r := ReadText(rest[q + 1..], quote);
      Reading(t + [LowByte(Number(rest[..q], 16, 'x').value)] + r.text, r.place)
  }

  predicate HoldsHexRef(s: string) { exists i :: 0 <= i <= |s| && IsHexRef(s[i..]) }

  lemma HoldsTail(s: string)
    requires s != ""
    ensures HoldsHexRef(s) <==> IsHexRef(s) || HoldsHexRef(s[1..])
  {
    hide IsHexRef;
    assert s[0..] == s;
    if HoldsHexRef(s) {
      var i :| 0 <= i <= |s| && IsHexRef(s[i..]);
      if i > 0 { assert s[1..][i - 1..] == s[i..]; }
    }
    if HoldsHexRef(s[1..]) {
      var i :| 0 <= i <= |s[1..]| && IsHexRef(s[1..][i..]);
      assert s[1..][i..] == s[i + 1..];
    }
  }

  lemma {:induction false} ResolveShrinks(s: string)
    ensures Resolve(s).Whole? ==> |Resolve(s).text| <= |s|
    ensures HoldsHexRef(s) && Resolve(s).Whole? ==> |Resolve(s).text| < |s|
    ensures !HoldsHexRef(s) ==> Resolve(s) == Whole(s)
    decreases |s|
  {
    hide Number, HoldsHexRef;
    if s != "" {
      HoldsTail(s);
      if !IsHexRef(s) {
        ResolveShrinks(s[1..]);
        assert Resolve(s) == Before(s[0], Resolve(s[1..]));
        hide Resolve;
        assert s == [s[0]] + s[1..];
      } else {
        var q := FindFrom(s, 3, ';');
        if q < |s| { ResolveShrinks(s[q + 1..]); }
      }
    } else {
      NothingHeld();
    }
  }

  lemma NothingHeld()
    ensures !HoldsHexRef("")
  {
  }

  /** One encoded character reads back as itself, whatever follows. */
  lemma {:induction false} EntityReads(c: char, t: string)
    ensures GetChar(Entity(c) + t) == Step([c], |Entity(c)|)
    ensures (Entity(c) + t)[0] != '"' && (Entity(c) + t)[0] != '\''
  {
    if c in "&<>\"'" {
      NamedReads(c, t);
    } else if c as int < 32 {
      ControlReads("", c, t);
      hide Number;
      var s := Entity(c) + t;
      assert "" + Entity(c) + t == s;
      FindIs(s, 3, ';', 5);
    }
  }

  lemma NamedReads(c: char, t: string)
    requires c in "&<>\"'"
    ensures GetChar(Entity(c) + t) == Step([c], |Entity(c)|) && (Entity(c) + t)[0] == '&'
  {
    hide CharacterReference;
    var s := Entity(c) + t;
    assert s[1] == Entity(c)[1];
    assert s[..|Entity(c)|] == Entity(c);
    assert s[0] == '&' && GetChar(s) == GetEntity(s);
  }

  /** The reference written for a control character, behind a text without semicolon. */
  lemma {:induction false} ControlReads(pre: string, c: char, t: string)
    requires c as int < 32
    ensures var s := pre + Entity(c) + t; |Entity(c)| == 6 && |s| >= |pre| + 6
    ensures var s := pre + Entity(c) + t; Number(s[..|pre| + 5], 16, 'x') == Some(c as nat)
    ensures var s := pre + Entity(c) + t; s[|pre| + 5] == ';' && forall i :: |pre| <= i < |pre| + 5 ==> s[i] != ';'
  {
    var h, l := JsonString.HexDigit(c as int / 16), JsonString.HexDigit(c as int % 16);
    var s := pre + Entity(c) + t;
    assert Entity(c) == ['&', '#', 'x', h, l, ';'];
    assert s[..|pre| + 5] == pre + ['&', '#', 'x', h, l];
    var head := pre + ['&', '#', 'x'];
    assert Number(head, 16, 'x') == Some(0);
    HexDigitValue(c as int / 16);
    HexDigitValue(c as int % 16);
    NumberStep(head, h);
    NumberStep(head + [h], l);
    assert head + [h] + [l] == s[..|pre| + 5];
    assert s[|pre|] == '&' && s[|pre| + 1] == '#' && s[|pre| + 2] == 'x' && s[|pre| + 3] == h && s[|pre| + 4] == l;
  }

  lemma HexDigitValue(d: nat)
    requires d < 16
    ensures var h := JsonString.HexDigit(d); Digit(h, 16) == Some(d) && h != 'x' && h != ';'
  {
  }

  lemma NumberStep(t: string, c: char)
    requires c != 'x' && Digit(c, 16).Some? && Number(t, 16, 'x').Some?
    ensures Number(t + [c], 16, 'x') == Some(Number(t, 16, 'x').value * 16 + Digit(c, 16).value)
  {
    assert (t + [c])[..|t|] == t;
  }

  lemma FindIs(s: string, i: nat, c: char, q: nat)
    requires i <= q < |s| && s[q] == c && forall j :: i <= j < q ==> s[j] != c
    ensures FindFrom(s, i, c) == q
  {
  }

  /** Whatever text is left over is shorter than what was there. */
  lemma {:induction false} ReadTextAdvances(s: string, quote: char)
    ensures ReadText(s, quote).place.Left? ==> |ReadText(s, quote).place.rest| < |s|
    decreases |s|
  {
    if s != "" && s[0] != quote && GetChar(s).Step? {
      ReadTextAdvances(s[GetChar(s).used..], quote);
    }
  }

  lemma ReadOn(w: string, quote: char, out: string, tail: string)
    requires w != "" && w[0] != quote && |tail| <= |w| && GetChar(w) == Step(out, |w| - |tail|) && w[|w| - |tail|..] == tail
    ensures ReadText(w, quote) == Reading(out + ReadText(tail, quote).text, ReadText(tail, quote).place)
  {
  }

  lemma ReadClose(quote: char, rest: string)
    ensures ReadText([quote] + rest, quote) == Reading("", Left(rest))
  {
  }

  /** A reading is what a resolution says, with some text behind the closing quote. */
  predicate Meets(r: Reading, res: Resolution, quote: char, rest: string) {
    match res
    case Whole(t) => r == Reading(t, Left(rest))
    case Malformed => r.place.Lost?
    case Unclosed(t) => r == Overrun(t, quote, rest)
  }

  lemma BeforeMeets(c: char, r: Reading, res: Resolution, quote: char, rest: string)
    requires Meets(r, res, quote, rest)
    ensures Meets(Reading([c] + r.text, r.place), Before(c, res), quote, rest)
  {
    hide ReadText, Number, FindFrom;
  }

  /** What reading back an encoded value comes to. */
  predicate ReadsBack(s: string, quote: char, rest: string) {
    Meets(ReadText(Encode(s) + [quote] + rest, quote), Resolve(s), quote, rest)
  }

  lemma {:induction false} ReadBack(s: string, quote: char, rest: string)
    requires quote == '"' || quote == '\''
    ensures ReadsBack(s, quote, rest)
    decreases |s|
  {
    if s == "" {
      assert Encode(s) + [quote] + rest == [quote] + rest;
    } else if !IsHexRef(s) {
      ReadBack(s[1..], quote, rest);
      ReadBackPlain(s, quote, rest);
    } else {
      var q := FindFrom(s, 3, ';');
      if q < |s| {
        ReadBack(s[q + 1..], quote, rest);
        ReadBackReference(s, quote, rest);
      } else {
        ReadBackOpen(s, quote, rest);
      }
    }
  }

  lemma {:induction false} ReadBackPlain(s: string, quote: char, rest: string)
    requires s != "" && !IsHexRef(s) && (quote == '"' || quote == '\'') && ReadsBack(s[1..], quote, rest)
    ensures ReadsBack(s, quote, rest)
  {
    var tail := Encode(s[1..]) + [quote] + rest;
    assert Resolve(s) == Before(s[0], Resolve(s[1..]));
    EncodePlain(s);
    hide Entity, GetChar, Encode, Resolve, ReadText, Meets, IsHexRef;
    assert Encode(s) + [quote] + rest == Entity(s[0]) + tail;
    OneRead(s[0], quote, tail);
    BeforeMeets(s[0], ReadText(tail, quote), Resolve(s[1..]), quote, rest);
  }

  /** One encoded character in front of any text. */
  lemma {:induction false} OneRead(c: char, quote: char, tail: string)
    requires quote == '"' || quote == '\''
    ensures ReadText(Entity(c) + tail, quote) == Reading([c] + ReadText(tail, quote).text, ReadText(tail, quote).place)
  {
    hide Entity, GetChar, ReadText;
    var w := Entity(c) + tail;
    EntityReads(c, tail);
    assert w[|Entity(c)|..] == tail;
    ReadOn(w, quote, [c], tail);
  }

  lemma {:induction false} ReadBackReference(s: string, quote: char, rest: string)
    requires IsHexRef(s) && FindFrom(s, 3, ';') < |s| && (quote == '"' || quote == '\'')
    requires ReadsBack(s[FindFrom(s, 3, ';') + 1..], quote, rest)
    ensures ReadsBack(s, quote, rest)
  {
    var q := FindFrom(s, 3, ';');
    var number := Number(s[..q], 16, 'x');
    var tail := Encode(s[q + 1..]) + [quote] + rest;
    var w := Encode(s) + [quote] + rest;
    SemicolonStays(s, q);
    assert Resolve(s) == if number.None? then Malformed else Before(LowByte(number.value), Resolve(s[q + 1..]));
    hide Encode, Number, ReadText, FindFrom, Resolve, Meets;
    assert w == s[..q] + ([';'] + tail);
    ReferenceReads(s, q, tail);
    if number.Some? {
      ReadOn(w, quote, [LowByte(number.value)], tail);
      BeforeMeets(LowByte(number.value), ReadText(tail, quote), Resolve(s[q + 1..]), quote, rest);
    } else {
      ReadLost(w, quote);
      MalformedMeets(ReadText(w, quote), quote, rest);
    }
  }

  lemma MalformedMeets(r: Reading, quote: char, rest: string)
    requires r.place.Lost?
    ensures Meets(r, Malformed, quote, rest)
  {
  }

  /** A reference with its semicolon is read on its own, whatever follows. */
  lemma ReferenceReads(s: string, q: nat, tail: string)
    requires IsHexRef(s) && q == FindFrom(s, 3, ';') < |s|
    ensures var w := s[..q] + ([';'] + tail);
            && w[0] == '&' && |w| - |tail| == q + 1 && w[q + 1..] == tail
            && GetChar(w) == match Number(s[..q], 16, 'x') case None => Null case Some(v) => Step([LowByte(v)], q + 1)
  {
    hide Number;
    var w := s[..q] + ([';'] + tail);
    assert w[..q] == s[..q];
    FindIs(w, 3, ';', q);
  }

  lemma {:induction false} SemicolonStays(s: string, q: nat)
    requires IsHexRef(s) && q == FindFrom(s, 3, ';') < |s|
    ensures Encode(s) == s[..q] + ([';'] + Encode(s[q + 1..]))
  {
    EncodePlain(s[q..]);
    assert s[q..][1..] == s[q + 1..];
    assert Encode(s) == s[..q] + Encode(s[q..]);
  }

  lemma EncodePlain(s: string)
    requires s != "" && !IsHexRef(s)
    ensures Encode(s) == Entity(s[0]) + Encode(s[1..])
  {
  }

  /** A value that ends inside a reference. */
  lemma {:induction false} ReadBackOpen(s: string, quote: char, rest: string)
    requires IsHexRef(s) && FindFrom(s, 3, ';') == |s| && (quote == '"' || quote == '\'')
    ensures ReadsBack(s, quote, rest)
  {
    var n := |s| - 1;
    var last := s[n];
    var w := Encode(s) + [quote] + rest;
    LastAlone(s);
    assert |Entity(last)| > 1 <==> last as int < 32 || last in "&<>\"'";
    hide Encode, ReadText, Number, FindFrom;
    assert w == s[..n] + Entity(last) + ([quote] + rest);
    if last as int < 32 {
      hide Entity;
      OpenControl(s, [quote] + rest);
      ReadOn(w, quote, [last], [quote] + rest);
      ReadClose(quote, rest);
      assert s[n..] == [last] && Resolve(s) == Whole([last]);
    } else if |Entity(last)| > 1 {
      assert FindFrom(s[..n], 3, ';') == n;
      NamedSpoils(s[..n], last, [quote] + rest);
      ReadLost(w, quote);
    } else {
      assert w == s + [quote] + rest;
      RunsOn(s, quote, rest);
    }
  }

  lemma ReadLost(w: string, quote: char)
    requires w != "" && w[0] != quote && GetChar(w) == Null
    ensures ReadText(w, quote) == Reading("", Lost)
  {
  }

  lemma OpenControl(s: string, t: string)
    requires IsHexRef(s) && FindFrom(s, 3, ';') == |s| && s[|s| - 1] as int < 32
    ensures var n := |s| - 1; var w := s[..n] + Entity(s[n]) + t;
            w != "" && w[0] == '&' && |t| <= |w| && GetChar(w) == Step([s[n]], |w| - |t|) && w[|w| - |t|..] == t
  {
    hide Number, Entity;
    var n := |s| - 1;
    var w := s[..n] + Entity(s[n]) + t;
    assert n >= 3;
    ControlReads(s[..n], s[n], t);
    assert forall j :: 0 <= j < n ==> w[j] == s[j];
    FindIs(w, 3, ';', n + 5);
  }

  lemma {:induction false} LastAlone(s: string)
    requires IsHexRef(s) && FindFrom(s, 3, ';') == |s|
    ensures Encode(s) == s[..|s| - 1] + Entity(s[|s| - 1])
  {
    var n := |s| - 1;
    assert s[n..] == [s[n]] && s[n..][1..] == "";
    EncodePlain(s[n..]);
    assert Encode("") == "";
  }

  /** The name of an entity is no number. */
  lemma {:induction false} NamedSpoils(pre: string, c: char, t: string)
    requires c in "&<>\"'" && |pre| >= 3 && IsHexRef(pre) && FindFrom(pre, 3, ';') == |pre|
    ensures GetChar(pre + Entity(c) + t) == Null
  {
    var e := Entity(c);
    var w := pre + e + t;
    var q := |pre| + |e| - 1;
    assert forall j :: |pre| <= j < q ==> w[j] == e[j - |pre|];
    FindIs(w, 3, ';', q);
    assert w[..q][q - 1] == e[|e| - 2];
    assert Number(w[..q], 16, 'x') == None;
  }

  /** Without a semicolon of its own the reference runs on past the closing quote. */
  lemma {:induction false} RunsOn(s: string, quote: char, rest: string)
    requires IsHexRef(s) && FindFrom(s, 3, ';') == |s| && (quote == '"' || quote == '\'')
    ensures ReadText(s + [quote] + rest, quote) == Overrun("", quote, rest)
  {
    var w := s + [quote] + rest;
    var q := FindFrom(rest, 0, ';');
    OpenChar(s, quote, rest);
    OpenFind(s, quote, rest);
    hide Number, ReadText, FindFrom, GetChar;
    if q < |rest| && Number(rest[..q], 16, 'x').Some? {
      var b := [LowByte(Number(rest[..q], 16, 'x').value)];
      ReadOn(w, quote, b, rest[q + 1..]);
      assert "" + b == b;
    } else {
      ReadLost(w, quote);
    }
  }

  lemma {:induction false} OpenChar(s: string, quote: char, rest: string)
    requires IsHexRef(s) && FindFrom(s, 3, ';') == |s| && (quote == '"' || quote == '\'')
    ensures var w := s + [quote] + rest; var q := FindFrom(rest, 0, ';');
            && w[0] == '&'
            && GetChar(w) == if q == |rest| || Number(rest[..q], 16, 'x').None? then Null
                             else Step([LowByte(Number(rest[..q], 16, 'x').value)], |s| + 1 + q + 1)
  {
    OpenFind(s, quote, rest);
    hide Number, FindFrom;
    var w := s + [quote] + rest;
    assert w[0] == '&' && w[1] == '#' && w[2] == 'x';
  }

  /** The semicolon of the text behind is the first one, and the number in front of it is
      that of the text behind. */
  lemma {:induction false} OpenFind(s: string, quote: char, rest: string)
    requires |s| >= 3 && FindFrom(s, 3, ';') == |s| && (quote == '"' || quote == '\'')
    ensures var w := s + [quote] + rest; var q := FindFrom(rest, 0, ';');
            if q == |rest| then FindFrom(w, 3, ';') == |w|
            else
              && FindFrom(w, 3, ';') == |s| + 1 + q && w[|s| + 1 + q + 1..] == rest[q + 1..]
              && Number(w[..|s| + 1 + q], 16, 'x') == Number(rest[..q], 16, 'x')
  {
    hide Number;
    var w := s + [quote] + rest;
    var q := FindFrom(rest, 0, ';');
    assert forall j :: 3 <= j < |s| ==> w[j] == s[j];
    assert forall j :: 0 <= j < |rest| ==> w[|s| + 1 + j] == rest[j];
    if q < |rest| {
      FindIs(w, 3, ';', |s| + 1 + q);
      assert w[..|s| + 1 + q] == s + [quote] + rest[..q];
      NumberBlocked(s, quote, rest[..q]);
    }
  }

  /** A quote among the digits ends the scan in front of them: the number is the one behind it. */
  lemma {:induction false} NumberBlocked(pre: string, quote: char, t: string)
    requires quote == '"' || quote == '\''
    ensures Number(pre + [quote] + t, 16, 'x') == Number(t, 16, 'x')
    decreases |t|
  {
    var w := pre + [quote] + t;
    if t == "" {
      assert w[|w| - 1] == quote;
    } else {
      assert w[|w| - 1] == t[|t| - 1];
      assert w[..|w| - 1] == pre + [quote] + t[..|t| - 1];
      NumberBlocked(pre, quote, t[..|t| - 1]);
    }
  }

  lemma {:induction false} NamesStay(name: string)
    requires forall i :: 0 <= i < |name| ==> NameChar(name[i])
    ensures Encode(name) == name
    decreases |name|
  {
    if name != "" {
      assert NameChar(name[0]) && !IsHexRef(name) && Entity(name[0]) == [name[0]];
      EncodePlain(name);
      NamesStay(name[1..]);
      hide Encode, Entity;
      assert name == [name[0]] + name[1..];
    }
  }

  lemma {:induction false} NameEnds(name: string, t: string)
    requires (forall i :: 0 <= i < |name| ==> NameChar(name[i])) && t != "" && !NameChar(t[0])
    ensures NameLength(name + t) == |name|
    decreases |name|
  {
    if name == "" {
      assert name + t == t;
    } else {
      assert (name + t)[1..] == name[1..] + t;
      NameEnds(name[1..], t);
    }
  }

  /** Neither quote occurs in the encoded text of a value without hexadecimal references,
      in particular not the quote that Print chooses. */
  lemma {:induction false} NoQuoteInside(s: string)
    requires !HoldsHexRef(s)
    ensures '"' !in Encode(s) && '\'' !in Encode(s)
    decreases |s|
  {
    if s != "" {
      assert s[0..] == s;
      forall i | 0 <= i <= |s[1..]| ensures !IsHexRef(s[1..][i..]) { assert s[1..][i..] == s[i + 1..]; }
      NoQuoteInside(s[1..]);
      EntityUnquoted(s[0]);
    }
  }

  lemma EntityUnquoted(c: char)
    ensures '"' !in Entity(c) && '\'' !in Entity(c)
  {
  }

  lemma NoSpace(t: string)
    requires t != "" && !IsSpace(t[0])
    ensures SkipSpace(t) == t
  {
  }

  /** A name with an equals sign behind it is read whole. */
  lemma {:induction false} NameParsed(name: string, tail: string)
    requires ValidName(name) && tail != "" && tail[0] == '='
    ensures Parse(name + tail) == ParseRest(name, tail)
  {
    var w := name + tail;
    assert w[0] == name[0] && NameStart(w[0]) && !IsSpace(w[0]) && !IsSpace(tail[0]) && !NameChar(tail[0]);
    NoSpace(w);
    NoSpace(tail);
    NameEnds(name, tail);
    hide SkipSpace, ParseRest, NameLength, NameStart, NameChar;
    assert w[..|name|] == name && w[|name|..] == tail;
  }

  lemma {:induction false} QuoteParsed(name: string, q: char, body: string)
    requires q == '"' || q == '\''
    ensures ParseRest(name, ['='] + ([q] + body)) ==
            var r := ReadText(body, q); if r.place.Lost? then Refused else Parsed(name, r.text, r.place)
  {
    var s := [q] + body;
    assert (['='] + s)[1..] == s && s[0] == q && s[1..] == body;
    NoSpace(s);
    hide ReadText, BareLength, SkipSpace;
  }

  /** Parse on the text of Print comes down to reading the encoded value. */
  lemma {:induction false} ParsePrinted(name: string, value: string, rest: string)
    requires ValidName(name)
    ensures var q := QuoteFor(value);
            var r := ReadText(Encode(value) + [q] + rest, q);
            Parse(Print(name, value) + rest) == if r.place.Lost? then Refused else Parsed(name, r.text, r.place)
  {
    var q := QuoteFor(value);
    NamesStay(name);
    hide Encode, ReadText, Parse, ParseRest, NameStart, NameChar;
    var body := Encode(value) + [q] + rest;
    var tail := ['='] + ([q] + body);
    assert Print(name, value) + rest == name + tail;
    NameParsed(name, tail);
    QuoteParsed(name, q, body);
  }

  /** Parsing what Print wrote: the value with its references resolved, nothing when one is
      malformed, and behind an unclosed one whatever the reader finds past the quote. */
  lemma PrintedReference(name: string, value: string, rest: string)
    requires ValidName(name)
    ensures Parse(Print(name, value) + rest) ==
            match Resolve(value)
            case Whole(t) => Parsed(name, t, Left(rest))
            case Malformed => Refused
            case Unclosed(t) =>
              var r := Overrun(t, QuoteFor(value), rest);
              if r.place.Lost? then Refused else Parsed(name, r.text, r.place)
  {
    ParsePrinted(name, value, rest);
    ReadBack(value, QuoteFor(value), rest);
  }

  /** Parsing what Print wrote returns the name, the value and the rest of the text
      exactly when the value holds no "&#x". */
  lemma AttributeRoundTrip(name: string, value: string, rest: string)
    requires ValidName(name)
    ensures Parse(Print(name, value) + rest) == Parsed(name, value, Left(rest)) <==> !HoldsHexRef(value)
  {
    PrintedReference(name, value, rest);
    ResolveShrinks(value);
    OverrunPasses(if Resolve(value).Unclosed? then Resolve(value).text else "", QuoteFor(value), rest);
    hide Parse, Print, Overrun, Resolve, HoldsHexRef;
  }

  /** Reading on past the quote uses up some of the text behind it. */
  lemma OverrunPasses(t: string, quote: char, rest: string)
    ensures var r := Overrun(t, quote, rest); r.place.Left? ==> |r.place.rest| < |rest|
  {
    hide Number, ReadText;
    var q := FindFrom(rest, 0, ';');
    if q < |rest| { ReadTextAdvances(rest[q + 1..], quote); }
  }

  /** The value "&#x41;" is read back as "A". */
  lemma ReferenceIsNotKept()
    ensures Parse(Print("a", "&#x41;") + ">") == Parsed("a", "A", Left(">"))
  {
    hide Parse, Print;
    var v := "&#x41;";
    FindIs(v, 3, ';', 5);
    assert v[..5] == "&#x" + ['4'] + ['1'] && v[6..] == "";
    NumberStep("&#x", '4');
    NumberStep("&#x" + ['4'], '1');
    assert Number(v[..5], 16, 'x') == Some(65) && LowByte(65) == 'A';
    assert Resolve(v[6..]) == Whole("");
    PrintedReference("a", v, ">");
  }

  /** The value "&#x4" takes in the next attribute's text: behind it, x41; closes the
      reference and the next quote the value. */
  lemma UnclosedRunsOn()
    ensures Parse(Print("a", "&#x4") + "x41;\"b") == Parsed("a", "A", Left("b"))
  {
    UnclosedOverruns("&#x4", "x41;\"b");
    hide Parse, Print, Overrun, Resolve;
    PrintedReference("a", "&#x4", "x41;\"b");
  }

  lemma UnclosedOverruns(v: string, rest: string)
    requires v == "&#x4" && rest == "x41;\"b"
    ensures Resolve(v) == Unclosed("") && Overrun("", QuoteFor(v), rest) == Reading("A", Left("b"))
  {
    FindIs(rest, 0, ';', 3);
    XFortyOne(rest[..3]);
    assert rest[4..] == "\"b" && rest[4..][1..] == "b";
    hide Number;
    assert ReadText(rest[4..], '"') == Reading("", Left("b"));
  }

  lemma XFortyOne(t: string)
    requires t == "x41"
    ensures Number(t, 16, 'x') == Some(65)
  {
    assert t == "x" + ['4'] + ['1'];
    NumberStep("x", '4');
    NumberStep("x" + ['4'], '1');
  }
}
