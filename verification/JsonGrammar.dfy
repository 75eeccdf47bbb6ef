/** Sections 2 to 7 of RFC 8259: the texts of JSON, with blanks in all the places where they
    may stand, and what each of them means, down to the offsets. */
module JsonGrammar {
  import opened JsonNumber
  import opened JsonOrder
  import opened JsonParse
  import opened JsonScanner
  import opened JsonSpelling
  import opened JsonString
  import opened JsonValue
  import opened Numerals
  import opened Options
  import opened Slices

  // ----------------------------------------------------------------- texts

  /** A value as it is spelled.  `gap` is the blank inside an empty container. */
  datatype Json =
    | NullText | TrueText | FalseText
    | NumberOf(minus: bool, whole: string, fraction: string, exponent: string)
    | StringOf(es: seq<string>, ts: seq<string>)
    | Raw(text: string)  // what is not JSON: a double as the library prints it, a dropped null
    | ArrayOf(gap: string, parts: seq<Part>)
    | ObjectOf(gap: string, parts: seq<Part>)

  /** An element or a member with the blanks around it. */
  datatype Part = Part(before: string, title: Option<Title>, value: Json, after: string)

  /** A name and its colon. */
  datatype Title = Title(es: seq<string>, ts: seq<string>, before: string, after: string)

  function Minus(minus: bool): string { if minus then "-" else "" }

  function InQuotes(es: seq<string>): string { "\"" + Flatten(es) + "\"" }

  function Spelled(j: Json): (s: string)
    decreases j, 1
  {
    match j
    case NullText => "null"
    case TrueText => "true"
    case FalseText => "false"
    case NumberOf(minus, whole, fraction, exponent) => Minus(minus) + whole + fraction + exponent
    case StringOf(es, _) => InQuotes(es)
    case Raw(text) => text
    case ArrayOf(gap, parts) => "[" + Body(gap, parts) + "]"
    case ObjectOf(gap, parts) => "{" + Body(gap, parts) + "}"
  }

  function Body(gap: string, parts: seq<Part>): string
    decreases parts, |parts| + 1
  {
    if parts == [] then gap else Parts(parts, 0)
  }

  /** The parts from the i-th on, separated by commas. */
  function Parts(parts: seq<Part>, i: nat): string
    requires i <= |parts|
    decreases parts, |parts| - i
  {
    if i == |parts| then ""
    else
      Lead(parts[i]) + Spelled(parts[i].value) + parts[i].after + (if i + 1 < |parts| then "," else "") + Parts(parts, i + 1)
  }

  /** What stands in front of a value. */
  function Lead(p: Part): string {
    p.before + match p.title case None => "" case Some(l) => InQuotes(l.es) + l.before + ":" + l.after
  }

  predicate Blanks(s: string) { forall i :: 0 <= i < |s| ==> s[i] as nat in {0x20, 0x09, 0x0A, 0x0D} }

  predicate Digits(s: string) { s != "" && forall i :: 0 <= i < |s| ==> 0x30 <= s[i] as nat <= 0x39 }

  predicate Fraction(s: string) { s == "" || (s[0] == '.' && Digits(s[1..])) }

  predicate Exponent(s: string) {
    || s == ""
    || ((s[0] == 'e' || s[0] == 'E')
        && (Digits(s[1..]) || (|s| > 1 && (s[1] == '+' || s[1] == '-') && Digits(s[2..]))))
  }

  /** The texts of the grammar.  Leading zeros and bare control characters, which the reader
      lets pass, are among them. */
  ghost predicate Grammatical(j: Json) {
    match j
    case NumberOf(_, whole, fraction, exponent) => Digits(whole) && Fraction(fraction) && Exponent(exponent)
    case StringOf(es, ts) => Spellings(es, ts)
    case Raw(_) => false
    case ArrayOf(gap, parts) =>
      Blanks(gap) && forall k :: 0 <= k < |parts| ==> parts[k].title == None && Spaced(parts[k]) && Grammatical(parts[k].value)
    case ObjectOf(gap, parts) =>
      Blanks(gap) && forall k :: 0 <= k < |parts| ==> parts[k].title.Some? && Spaced(parts[k]) && Grammatical(parts[k].value)
    case _ => true
  }

  ghost predicate Spaced(p: Part) {
    && Blanks(p.before) && Blanks(p.after)
    && (p.title.Some? ==> Blanks(p.title.value.before) && Blanks(p.title.value.after) && Spellings(p.title.value.es, p.title.value.ts))
  }

  /** Levels of containers, a scalar being one. */
  function Height(j: Json): (n: nat)
    ensures n >= 1
    decreases j, 1
  {
    match j
    case ArrayOf(_, parts) => 1 + MaxHeight(parts)
    case ObjectOf(_, parts) => 1 + MaxHeight(parts)
    case _ => 1
  }

  function MaxHeight(parts: seq<Part>): nat
    decreases parts, 0
  {
    if parts == [] then 0
    else
      assert parts decreases to parts[0];
      var a, b := Height(parts[0].value), MaxHeight(parts[1..]);
      if a > b then a else b
  }

  // --------------------------------------------------------------- meaning

  /** Where the i-th part begins, counted from behind the opening bracket. */
  function Start(parts: seq<Part>, i: nat): nat
    requires i <= |parts|
  {
    if i == 0 then 0
    else
      var p := parts[i - 1];
      Start(parts, i - 1) + |Lead(p)| + |Spelled(p.value)| + |p.after| + 1
  }

  function NameOf(p: Part): string { if p.title.Some? then Flatten(p.title.value.ts) else "" }

  /** An integer of at most 64 bits is kept exactly, signed up to 2^31 - 1; every other number
      goes through the library. */
  ghost predicate NumberMeans(src: Source, j: Json, p: Payload)
    requires j.NumberOf?
  {
    exists n: nat :: Writes(j.whole, 10, n) && (if KeptExactly(j, n) then p == Exactly(j, n) else Rounded(src, j, p))
  }

  function Exactly(j: Json, n: nat): Payload
    requires j.NumberOf?
  {
    if j.minus then Int(-(n as int)) else if n <= 2147483647 then Int(n) else UInt(n)
  }

  predicate Rounded(src: Source, j: Json, p: Payload) { p.Real? && src.toDouble(Spelled(j)) == Some(p.r) }

  predicate KeptExactly(j: Json, n: nat)
    requires j.NumberOf?
  {
    j.fraction == "" && j.exponent == "" && n <= if j.minus then 0x8000_0000_0000_0000 else 0xFFFF_FFFF_FFFF_FFFF
  }

  /** The library reads the other numbers, strings have at most 2^31 - 6 bytes and names
      less than 2^30. */
  ghost predicate Fits(src: Source, j: Json) {
    match j
    case NumberOf(_, _, _, _) => forall n :: Writes(j.whole, 10, n) && !KeptExactly(j, n) ==> src.toDouble(Spelled(j)).Some?
    case StringOf(_, ts) => |Flatten(ts)| <= 0x7FFF_FFFA
    case ArrayOf(_, parts) => forall k :: 0 <= k < |parts| ==> Fits(src, parts[k].value)
    case ObjectOf(_, parts) => forall k :: 0 <= k < |parts| ==> |NameOf(parts[k])| < 0x4000_0000 && Fits(src, parts[k].value)
    case _ => true
  }

  /** What a text at an offset means: the value and the range it was read from. */
  ghost predicate Denotes(src: Source, j: Json, at: nat, v: Value)
    decreases j, 2
  {
    && v.start == at && v.limit == at + |Spelled(j)|
    && match j
       case NullText => v.payload == Null
       case TrueText => v.payload == Bool(true)
       case FalseText => v.payload == Bool(false)
       case NumberOf(_, _, _, _) => NumberMeans(src, j, v.payload)
       case StringOf(_, ts) => v.payload == Str(Flatten(ts))
       case Raw(_) => false
       case ArrayOf(_, parts) => v.payload.Array? && Elements(src, parts, |parts|, at + 1, v.payload.items)
       case ObjectOf(_, parts) => v.payload.Object? && Members(src, parts, |parts|, at + 1, v.payload.items)
  }

  /** The first n elements, each under its number. */
  ghost predicate Elements(src: Source, parts: seq<Part>, n: nat, at: nat, items: seq<Entry>)
    requires n <= |parts|
    decreases parts, 0
  {
    |items| == n && forall k :: 0 <= k < n ==> items[k].key == Index(k) && PartDenotes(src, parts, k, at, items[k].value)
  }

  ghost predicate PartDenotes(src: Source, parts: seq<Part>, k: nat, at: nat, v: Value)
    requires k < |parts|
    decreases parts, -1
  {
    Denotes(src, parts[k].value, at + Start(parts, k) + |Lead(parts[k])|, v)
  }

  /** The last of the first n members with its name. */
  predicate Last(parts: seq<Part>, n: nat, k: nat)
    requires k < n <= |parts|
  {
    forall m :: k < m < n ==> NameOf(parts[m]) != NameOf(parts[k])
  }

  predicate AllNamed(items: seq<Entry>) { forall e :: e in items ==> e.key.Name? }

  ghost predicate InOrder(items: seq<Entry>) { forall i, j :: 0 <= i < j < |items| ==> KeyBefore(items[i].key, items[j].key) }

  ghost predicate EachIsLast(src: Source, parts: seq<Part>, n: nat, at: nat, items: seq<Entry>)
    requires n <= |parts|
    decreases parts, 0
  {
    forall e :: e in items ==>
      exists k :: 0 <= k < n && Last(parts, n, k) && e.key == Name(NameOf(parts[k])) && PartDenotes(src, parts, k, at, e.value)
  }

  predicate NoneMissing(parts: seq<Part>, n: nat, items: seq<Entry>)
    requires n <= |parts|
  {
    forall k :: 0 <= k < n ==> exists e :: e in items && e.key == Name(NameOf(parts[k]))
  }

  /** The first n members, in the order of their names; of those with the same name the last. */
  ghost predicate Members(src: Source, parts: seq<Part>, n: nat, at: nat, items: seq<Entry>)
    requires n <= |parts|
    decreases parts, 1
  {
    AllNamed(items) && InOrder(items) && EachIsLast(src, parts, n, at, items) && NoneMissing(parts, n, items)
  }

  // ---------------------------------------------------------------- tokens

  /** A token behind blanks is the next one for every routine. */
  lemma {:induction false} TokenHere(src: Source, cur: nat, blanks: string, kind: TokenType, text: string, rest: string)
    requires cur <= |src.doc| && src.doc[cur..] == blanks + (text + rest) && Blanks(blanks)
    requires IsToken(kind, text, rest) && kind != Comment
    ensures var t := Token(kind, cur + |blanks|, cur + |blanks| + |text|);
            && ReadToken(src.doc, cur) == t && NonComment(src.doc, cur) == t && ValueToken(src, cur) == t
            && t.end <= |src.doc| && TokenText(src.doc, t) == text && src.doc[t.end..] == rest
  {
    hide *;
    StartsToken(kind, text, rest);
    BehindBlanks(src.doc, cur, blanks, text + rest);
    LexemeHere(src.doc, cur, cur + |blanks|, kind, text, rest);
    NoCommentHere(src, cur);
  }

  lemma StartsToken(kind: TokenType, text: string, rest: string)
    requires IsToken(kind, text, rest)
    ensures text != "" && text + rest != "" && !IsSpace((text + rest)[0])
  {
  }

  lemma LexemeHere(doc: string, cur: nat, k: nat, kind: TokenType, text: string, rest: string)
    requires cur <= k <= |doc| && SpaceRun(doc[cur..]) == k - cur && doc[k..] == text + rest && IsToken(kind, text, rest)
    ensures var t := Token(kind, k, k + |text|);
            ReadToken(doc, cur) == t && t.end <= |doc| && TokenText(doc, t) == text && doc[t.end..] == rest
  {
    hide Lex, SpaceRun;
    DropDrop(doc, k, |text|);
    assert doc[k..][|text|..] == rest;
    DropSlice(doc, k, 0, |text|);
    assert doc[k..][..|text|] == text;
  }

  lemma NoCommentHere(src: Source, cur: nat)
    requires cur <= |src.doc| && ReadToken(src.doc, cur).kind != Comment
    ensures NonComment(src.doc, cur) == ReadToken(src.doc, cur) && ValueToken(src, cur) == ReadToken(src.doc, cur)
  {
    hide ReadToken;
  }

  lemma FixedToken(kind: TokenType, text: string, rest: string)
    requires (kind, text) in {(NullWord, "null"), (True, "true"), (False, "false"), (ArrayBegin, "["), (ArrayEnd, "]"),
                              (ObjectBegin, "{"), (ObjectEnd, "}"), (ArraySeparator, ","), (MemberSeparator, ":")}
    ensures IsToken(kind, text, rest)
  {
    if |text| > 1 {
      assert (text + rest)[1..] == text[1..] + rest;
      assert (text + rest)[1..][..|text| - 1] == text[1..];
    }
  }

  lemma {:induction false} StringIsToken(es: seq<string>, ts: seq<string>, rest: string)
    requires Spellings(es, ts)
    ensures IsToken(StringText, InQuotes(es), rest)
    ensures InQuotes(es)[1..|InQuotes(es)| - 1] == Flatten(es)
  {
    hide StringRun, Flatten, CommentRun, NumberRun, WordRun;
    ScanSpellings(es, ts, rest);
    var t := InQuotes(es) + rest;
    assert t[0] == '"' && t[1..] == Flatten(es) + "\"" + rest;
  }

  lemma {:induction false} DigitsRun(digits: string, rest: string)
    requires Digits(digits) || digits == ""
    requires rest == "" || !IsDigit(rest[0])
    ensures DigitRun(digits + rest) == |digits|
  {
    DigitRunStops(digits, rest);
  }

  lemma {:induction false} ExponentIsRead(exponent: string, rest: string)
    requires Exponent(exponent) && EndsNumber(rest)
    ensures ExponentRun(exponent + rest) == |exponent|
  {
    var s := exponent + rest;
    if exponent == "" {
      assert s == rest;
    } else if Digits(exponent[1..]) {
      assert s[1..] == exponent[1..] + rest;
      assert s[1] == exponent[1..][0];
      DigitsRun(exponent[1..], rest);
    } else {
      assert s[2..] == exponent[2..] + rest;
      DigitsRun(exponent[2..], rest);
    }
  }

  lemma {:induction false} FractionIsRead(fraction: string, rest: string)
    requires Fraction(fraction) && (rest == "" || (!IsDigit(rest[0]) && rest[0] != '.'))
    ensures FractionRun(fraction + rest) == |fraction|
  {
    var s := fraction + rest;
    if fraction == "" {
      assert s == rest;
    } else {
      assert s[1..] == fraction[1..] + rest;
      DigitsRun(fraction[1..], rest);
    }
  }

  /** Digits, a fraction and an exponent are taken whole. */
  lemma {:induction false} NumberIsRead(digits: string, fraction: string, exponent: string, rest: string)
    requires (Digits(digits) || digits == "") && Fraction(fraction) && Exponent(exponent) && EndsNumber(rest)
    ensures NumberRun(digits + fraction + exponent + rest) == |digits| + |fraction| + |exponent|
  {
    var tail := exponent + rest;
    var s := digits + fraction + exponent + rest;
    hide DigitRun, FractionRun, ExponentRun, Digits, Fraction, Exponent, EndsNumber, IsDigit;
    ExponentStarts(exponent, rest);
    FractionStarts(fraction, tail);
    DigitsRun(digits, fraction + tail);
    FractionIsRead(fraction, tail);
    ExponentIsRead(exponent, rest);
    Behind(digits, fraction, exponent, rest);
    assert NumberRun(s) == |digits| + |fraction| + ExponentRun(s[|digits| + |fraction|..]);
  }

  lemma Behind(a: string, b: string, c: string, d: string)
    ensures a + b + c + d == a + (b + (c + d))
    ensures (a + b + c + d)[|a|..] == b + (c + d)
    ensures (a + b + c + d)[|a| + |b|..] == c + d
  {
  }

  lemma {:induction false} ExponentStarts(exponent: string, rest: string)
    requires Exponent(exponent) && EndsNumber(rest)
    ensures var t := exponent + rest; t == "" || (!IsDigit(t[0]) && t[0] != '.')
  {
    if exponent == "" { assert exponent + rest == rest; }
  }

  lemma {:induction false} FractionStarts(fraction: string, tail: string)
    requires Fraction(fraction) && (tail == "" || !IsDigit(tail[0]))
    ensures var t := fraction + tail; t == "" || !IsDigit(t[0])
  {
    if fraction == "" { assert fraction + tail == tail; }
  }

  lemma {:induction false} LexNumber(s: string)
    requires s != "" && (IsDigit(s[0]) || s[0] == '-')
    ensures Lex(s) == Lexeme(Number, 1 + NumberRun(s[1..])) && !IsSpace(s[0])
  {
    hide NumberRun, StringRun, CommentRun, WordRun;
  }

  lemma {:induction false} NumberToken(c: char, digits: string, fraction: string, exponent: string, rest: string)
    requires IsDigit(c) || c == '-'
    requires (Digits(digits) || digits == "") && Fraction(fraction) && Exponent(exponent) && EndsNumber(rest)
    ensures IsToken(Number, [c] + (digits + fraction + exponent), rest)
  {
    NumberIsRead(digits, fraction, exponent, rest);
    hide NumberRun, Digits, Fraction, Exponent, EndsNumber, Lex, IsSpace;
    var tail := digits + fraction + exponent;
    var s := [c] + tail + rest;
    assert s[1..] == tail + rest && s[0] == c;
    LexNumber(s);
  }

  lemma {:induction false} NumberIsToken(j: Json, rest: string)
    requires j.NumberOf? && Grammatical(j) && EndsNumber(rest)
    ensures IsToken(Number, Spelled(j), rest)
  {
    hide IsToken, Fraction, Exponent, EndsNumber;
    var c, digits := if j.minus then '-' else j.whole[0], if j.minus then j.whole else j.whole[1..];
    assert IsDigit(c) || c == '-';
    assert Digits(digits) || digits == "";
    hide Digits, IsDigit;
    NumberToken(c, digits, j.fraction, j.exponent, rest);
    assert Spelled(j) == Minus(j.minus) + j.whole + j.fraction + j.exponent;
    assert Minus(j.minus) + j.whole == [c] + digits;
    hide Spelled;
    assert Spelled(j) == [c] + (digits + j.fraction + j.exponent);
  }

  // --------------------------------------------------------------- scalars

  function DigitsOf(s: string): (ds: seq<nat>)
    requires forall i :: 0 <= i < |s| ==> IsDigit(s[i])
    ensures |ds| == |s| && forall i :: 0 <= i < |s| ==> ds[i] == s[i] as int - '0' as int
  {
    if s == "" then []
    else
      assert IsDigit(s[0]);
      var d: nat := s[0] as int - '0' as int;
      [d] + DigitsOf(s[1..])
  }

  lemma {:induction false} DigitsArePlaces(s: string, ds: seq<nat>)
    requires Numeral(s, ds, 10)
    ensures AllDigits(s) && DigitsValue(s) == PlaceValue(ds, 10)
    decreases |s|
  {
    assert AllDigits(s) by { forall c | c in s ensures IsDigit(c) { var i :| 0 <= i < |s| && s[i] == c; assert DigitIs(s[i], ds[i]); } }
    if s != "" {
      var k := |s| - 1;
      assert DigitIs(s[k], ds[k]);
      DigitsArePlaces(s[..k], ds[..k]);
      LastPlace(ds, 10);
    }
  }

  lemma {:induction false} WholeWrites(whole: string)
    requires Digits(whole)
    ensures AllDigits(whole) && Writes(whole, 10, DigitsValue(whole))
    ensures forall n :: Writes(whole, 10, n) ==> n == DigitsValue(whole)
  {
    var ds := DigitsOf(whole);
    assert Numeral(whole, ds, 10);
    DigitsArePlaces(whole, ds);
    forall n | Writes(whole, 10, n) ensures n == DigitsValue(whole) {
      var es: seq<nat> :| Numeral(whole, es, 10) && PlaceValue(es, 10) == n;
      DigitsArePlaces(whole, es);
    }
  }

  lemma {:induction false} NotAllDigits(whole: string, fraction: string, exponent: string)
    requires Fraction(fraction) && Exponent(exponent) && AllDigits(whole)
    ensures AllDigits(whole + fraction + exponent) <==> fraction == "" && exponent == ""
  {
    var m := whole + fraction + exponent;
    if fraction != "" {
      assert m[|whole|] == fraction[0] && m[|whole|] in m;
    } else if exponent != "" {
      assert m[|whole|] == exponent[0] && m[|whole|] in m;
    } else {
      assert m == whole;
    }
  }

  lemma {:induction false} DecodeMeans(j: Json)
    requires j.NumberOf? && Grammatical(j)
    ensures AllDigits(j.whole)
    ensures var n := DigitsValue(j.whole);
            && Writes(j.whole, 10, n)
            && DecodeNumber(Spelled(j)) ==
               if KeptExactly(j, n) then Integer(Exactly(j, n))
               else AsDouble
    ensures forall n :: Writes(j.whole, 10, n) ==> n == DigitsValue(j.whole)
  {
    hide *;
    GrammaticalNumber(j);
    WholeWrites(j.whole);
    NotAllDigits(j.whole, j.fraction, j.exponent);
    MagnitudeOf(j);
    KeptIff(j, DigitsValue(j.whole));
    if j.fraction == "" && j.exponent == "" {
      assert j.whole + "" + "" == j.whole;
      WholeDecoded(j);
    } else {
      OtherDecoded(j);
    }
  }

  lemma WholeDecoded(j: Json)
    requires j.NumberOf? && AllDigits(j.whole) && Magnitude(Spelled(j)) == j.whole && Negative(Spelled(j)) == j.minus
    ensures var n := DigitsValue(j.whole);
            DecodeNumber(Spelled(j)) == if n <= (if j.minus then TWO_63 else TWO_64 - 1) then Integer(Exactly(j, n)) else AsDouble
  {
    hide AllDigits, DigitsValue, Magnitude, Negative, Spelled;
  }

  lemma OtherDecoded(j: Json)
    requires j.NumberOf? && !AllDigits(Magnitude(Spelled(j)))
    ensures DecodeNumber(Spelled(j)) == AsDouble
  {
    hide AllDigits, DigitsValue, Magnitude, Spelled;
  }

  lemma GrammaticalNumber(j: Json)
    requires j.NumberOf? && Grammatical(j)
    ensures Digits(j.whole) && Fraction(j.fraction) && Exponent(j.exponent)
  {
  }

  lemma KeptIff(j: Json, n: nat)
    requires j.NumberOf?
    ensures KeptExactly(j, n) <==> j.fraction == "" && j.exponent == "" && n <= if j.minus then TWO_63 else TWO_64 - 1
  {
  }

  lemma {:induction false} NumberReads(src: Source, t: Token, depth: int, slot: Value, j: Json)
    requires t.start <= t.end <= |src.doc| && j.NumberOf? && Grammatical(j) && Fits(src, j)
    requires TokenText(src.doc, t) == Spelled(j)
    ensures var o := ReadNumber(src, t, depth, slot);
            o.Done? && o == Done(true, t.end, depth, [], Value(o.value.payload, t.start, t.end)) && NumberMeans(src, j, o.value.payload)
  {
    DecodeMeans(j);
    var n := DigitsValue(j.whole);
    hide TokenText, Writes, AllDigits, DigitsValue, DecodeNumber, Spelled, Grammatical;
    assert Writes(j.whole, 10, n);
    assert !KeptExactly(j, n) ==> src.toDouble(Spelled(j)).Some?;
  }

  lemma {:induction false} MagnitudeOf(j: Json)
    requires j.NumberOf? && Digits(j.whole)
    ensures Negative(Spelled(j)) == j.minus && Magnitude(Spelled(j)) == j.whole + j.fraction + j.exponent
  {
    var text := Spelled(j);
    if j.minus {
      assert text[0] == '-';
    } else {
      assert text[0] == j.whole[0];
    }
  }

  lemma {:induction false} StringReads(src: Source, t: Token, depth: int, slot: Value, j: Json)
    requires t.start <= t.end <= |src.doc| && j.StringOf? && Grammatical(j) && Fits(src, j)
    requires TokenText(src.doc, t) == Spelled(j)
    ensures ReadString(src, t, depth, slot) == Done(true, t.end, depth, [], Value(Str(Flatten(j.ts)), t.start, t.end))
  {
    hide Spellings, Unescape, Flatten, InQuotes;
    InnerText(src.doc, t, j.es, j.ts);
    SpellingsDecode(j.es, j.ts);
    var s := Flatten(j.ts);
    assert s[..|s|] == s;
  }

  lemma {:induction false} InnerText(doc: string, t: Token, es: seq<string>, ts: seq<string>)
    requires t.start <= t.end <= |doc| && TokenText(doc, t) == InQuotes(es) && Spellings(es, ts)
    ensures Inner(doc, t) == Flatten(es)
  {
    hide Flatten, Spellings;
    StringIsToken(es, ts, "");
    DropSlice(doc[..t.end], t.start, 1, t.end - t.start - 1);
    assert doc[..t.end][t.start..] == doc[t.start..t.end];
    assert doc[..t.end][t.start + 1..t.end - 1] == doc[t.start + 1..t.end - 1];
  }

  // ------------------------------------------------------------ containers

  /** Some value from the i-th on needs more levels than are left of the 1000. */
  predicate TooTall(parts: seq<Part>, i: nat, depth: int) {
    exists k :: i <= k < |parts| && depth + Height(parts[k].value) > 1000
  }

  lemma TooTallStep(parts: seq<Part>, i: nat, depth: int)
    requires i < |parts|
    ensures TooTall(parts, i, depth) <==> depth + Height(parts[i].value) > 1000 || TooTall(parts, i + 1, depth)
    ensures i + 1 == |parts| ==> !TooTall(parts, i + 1, depth)
  {
    hide Height;
  }

  lemma {:induction false} MaxHeightBounds(parts: seq<Part>, k: nat)
    requires k < |parts|
    ensures Height(parts[k].value) <= MaxHeight(parts)
  {
    if k > 0 { MaxHeightBounds(parts[1..], k - 1); }
  }

  lemma {:induction false} Tallest(parts: seq<Part>) returns (k: nat)
    requires parts != []
    ensures k < |parts| && Height(parts[k].value) == MaxHeight(parts)
  {
    if |parts| == 1 || Height(parts[0].value) == MaxHeight(parts) {
      assert |parts| == 1 ==> parts[1..] == [];
      k := 0;
    } else {
      var m := Tallest(parts[1..]);
      k := m + 1;
    }
  }

  lemma {:induction false} TooTallIff(parts: seq<Part>, depth: int)
    requires depth <= 1000
    ensures TooTall(parts, 0, depth) <==> depth + MaxHeight(parts) > 1000
  {
    hide Height;
    if parts == [] {
      assert MaxHeight(parts) == 0;
    } else {
      var k := Tallest(parts);
      forall m | 0 <= m < |parts| ensures Height(parts[m].value) <= MaxHeight(parts) { MaxHeightBounds(parts, m); }
    }
  }

  lemma {:induction false} FirstCharacter(j: Json)
    requires Grammatical(j)
    ensures Spelled(j) != "" && !IsSpace(Spelled(j)[0]) && Spelled(j)[0] != ']'
  {
    hide Flatten, Body;
    if j.NumberOf? && !j.minus { assert Spelled(j)[0] == j.whole[0]; }
  }

  /** What follows the i-th value. */
  function After(parts: seq<Part>, i: nat, close: string): string
    requires i < |parts|
  {
    parts[i].after + ((if i + 1 < |parts| then "," else "") + (Parts(parts, i + 1) + close))
  }

  lemma {:induction false} PartsSplit(parts: seq<Part>, i: nat, close: string)
    requires i < |parts|
    ensures Parts(parts, i) + close == Lead(parts[i]) + (Spelled(parts[i].value) + After(parts, i, close))
  {
    hide Lead, Spelled;
    FiveParts(Lead(parts[i]), Spelled(parts[i].value), parts[i].after, if i + 1 < |parts| then "," else "", Parts(parts, i + 1), close);
  }

  lemma FiveParts(a: string, b: string, c: string, d: string, e: string, f: string)
    ensures a + b + c + d + e + f == a + (b + (c + (d + (e + f))))
  {
  }

  lemma {:induction false} AfterEndsNumber(parts: seq<Part>, i: nat, close: string)
    requires i < |parts| && Blanks(parts[i].after) && close != "" && (close[0] == ']' || close[0] == '}')
    ensures EndsNumber(After(parts, i, close))
  {
    hide Spelled, Lead;
    var s := After(parts, i, close);
    if parts[i].after != "" {
      assert s[0] == parts[i].after[0];
    } else if i + 1 < |parts| {
      assert s[0] == ',';
    } else {
      assert Parts(parts, i + 1) == "" && s == close;
    }
  }

  lemma {:induction false} PartsLength(parts: seq<Part>, i: nat)
    requires i < |parts|
    ensures |Parts(parts, i)| == Start(parts, |parts|) - Start(parts, i) - 1
    decreases |parts| - i
  {
    hide Lead, Spelled;
    if i + 1 < |parts| {
      PartsLength(parts, i + 1);
    } else {
      assert Parts(parts, i + 1) == "";
    }
  }

  ghost predicate GoodParts(src: Source, parts: seq<Part>, titled: bool) {
    forall k :: 0 <= k < |parts| ==>
      && parts[k].title.Some? == titled && Spaced(parts[k]) && Grammatical(parts[k].value) && Fits(src, parts[k].value)
      && |NameOf(parts[k])| < 0x4000_0000
  }

  // ---------------------------------------------------------------- arrays

  ghost predicate Reads(o: Outcome, src: Source, j: Json, at: nat, rest: string) {
    && o.Done? && o.ok && o.cur == at + |Spelled(j)| && o.cur <= |src.doc| && src.doc[o.cur..] == rest
    && Denotes(src, j, at, o.value)
  }

  /** How the loop over the parts of a container ends. */
  ghost predicate ListRead(o: Outcome, src: Source, parts: seq<Part>, i: nat, depth: int, at: nat, start: int, titled: bool, rest: string) {
    if TooTall(parts, i, depth) then o == Thrown(StackLimitExceeded)
    else
      && o.Done? && o.ok && o.cur == at + Start(parts, |parts|) && o.cur <= |src.doc| && src.doc[o.cur..] == rest
      && o.value.start == start
      && (if titled then o.value.payload.Object? && Members(src, parts, |parts|, at, o.value.payload.items)
          else o.value.payload.Array? && Elements(src, parts, |parts|, at, o.value.payload.items))
  }

  lemma {:induction false} ElementsGrow(src: Source, parts: seq<Part>, i: nat, at: nat, items: seq<Entry>, v: Value)
    requires i < |parts| && Elements(src, parts, i, at, items) && PartDenotes(src, parts, i, at, v)
    ensures Put(items, Index(i), v) == items + [Entry(Index(i), v)]
    ensures Elements(src, parts, i + 1, at, Put(items, Index(i), v))
  {
    hide PartDenotes;
    PutAppends(items, Index(i), v);
  }

  /** The separator or bracket behind an element. */
  lemma {:induction false} ElementEnds(src: Source, cur: nat, depth: int, arr: Value, parts: seq<Part>, i: nat, rest: string)
    requires cur <= |src.doc| && i < |parts| && Blanks(parts[i].after)
    requires src.doc[cur..] == After(parts, i, "]" + rest)
    ensures var end := cur + |parts[i].after| + 1;
            && end <= |src.doc|
            && ElementEnd(src, cur, depth, arr) == (if i + 1 < |parts| then Again(end, arr) else Return(Done(true, end, depth, [], arr)))
            && src.doc[end..] == if i + 1 < |parts| then Parts(parts, i + 1) + ("]" + rest) else rest
  {
    hide Parts, NonComment, ReadToken;
    if i + 1 < |parts| {
      var tail := Parts(parts, i + 1) + ("]" + rest);
      FixedToken(ArraySeparator, ",", tail);
      TokenHere(src, cur, parts[i].after, ArraySeparator, ",", tail);
    } else {
      FixedToken(ArrayEnd, "]", rest);
      NoParts(parts);
      assert "" + (Parts(parts, i + 1) + ("]" + rest)) == "]" + rest;
      TokenHere(src, cur, parts[i].after, ArrayEnd, "]", rest);
    }
  }

  lemma {:induction false} NoParts(parts: seq<Part>)
    ensures Parts(parts, |parts|) == ""
  {
  }

  /** A text in front of anything that cannot extend a number is read as what it means, with
      any features, at any depth and into any slot; or it needs too many levels. */
  lemma {:induction false} ReadsText(src: Source, cur: nat, depth: int, slot: Value, blanks: string, j: Json, rest: string)
    requires cur <= |src.doc| && src.doc[cur..] == blanks + (Spelled(j) + rest) && Blanks(blanks)
    requires Grammatical(j) && Fits(src, j) && EndsNumber(rest)
    ensures var o := ReadValue(src, cur, depth, slot);
            if depth + Height(j) > 1000 then o == Thrown(StackLimitExceeded) else Reads(o, src, j, cur + |blanks|, rest)
    decreases j, 3
  {
    hide Spelled, Grammatical, Fits, Reads, NonComment, ReadToken, ReadMembers, ReadArray, Blanks, EndsNumber;
    if depth < 1000 {
      if j.ArrayOf? {
        ArrayReads(src, cur, depth, slot, blanks, j, rest);
      } else if j.ObjectOf? {
        ObjectReads(src, cur, depth, slot, blanks, j, rest);
      } else {
        ScalarReads(src, cur, depth, slot, blanks, j, rest);
      }
    }
  }

  lemma {:induction false} ArrayReads(src: Source, cur: nat, depth: int, slot: Value, blanks: string, j: Json, rest: string)
    requires cur <= |src.doc| && src.doc[cur..] == blanks + (Spelled(j) + rest) && Blanks(blanks)
    requires Grammatical(j) && Fits(src, j) && EndsNumber(rest) && j.ArrayOf? && depth < 1000
    ensures var o := ReadValue(src, cur, depth, slot);
            if depth + Height(j) > 1000 then o == Thrown(StackLimitExceeded) else Reads(o, src, j, cur + |blanks|, rest)
    decreases j, 2
  {
    hide Spelled, Body, Grammatical, Fits, ReadArray, ReadValue, NonComment, ReadToken, BodyRead, Reads, Height, MaxHeight, EndsNumber, TooTall;
    var at, tail := cur + |blanks|, Body(j.gap, j.parts) + ("]" + rest);
    ArrayText(j, rest);
    FixedToken(ArrayBegin, "[", tail);
    TokenHere(src, cur, blanks, ArrayBegin, "[", tail);
    ArrayStarts(src, cur, depth, slot);
    TooTallIff(j.parts, depth + 1);
    var arr := Value(Array([]), at, slot.limit);
    ArrayBodyReads(src, at + 1, depth + 1, arr, j, rest);
    ArrayCloses(ReadArray(src, at + 1, depth + 1, arr), src, j, depth + 1, at, rest);
  }

  lemma ArrayText(j: Json, rest: string)
    requires j.ArrayOf?
    ensures Spelled(j) + rest == "[" + (Body(j.gap, j.parts) + ("]" + rest))
  {
    hide Body;
  }

  /** The unfolding of the meaning of a container. */
  lemma ContainerMeans(src: Source, j: Json, at: nat, v: Value)
    requires j.ArrayOf? || j.ObjectOf?
    ensures Denotes(src, j, at, v) <==>
            && v.start == at && v.limit == at + |Spelled(j)|
            && (if j.ArrayOf? then v.payload.Array? && Elements(src, j.parts, |j.parts|, at + 1, v.payload.items)
                else v.payload.Object? && Members(src, j.parts, |j.parts|, at + 1, v.payload.items))
  {
    hide Spelled, Elements, Members;
  }

  lemma ContainerSize(j: Json)
    requires j.ArrayOf? || j.ObjectOf?
    ensures |Spelled(j)| == |Body(j.gap, j.parts)| + 2 && Height(j) == 1 + MaxHeight(j.parts)
    ensures j.parts == [] ==> Height(j) == 1
  {
    hide Body;
  }

  lemma {:induction false} ArrayCloses(o: Outcome, src: Source, j: Json, depth: int, at: nat, rest: string)
    requires j.ArrayOf? && BodyRead(o, src, j.gap, j.parts, depth, at + 1, at, false, rest)
    requires TooTall(j.parts, 0, depth) <==> depth + MaxHeight(j.parts) > 1000
    requires depth <= 1000
    ensures if depth - 1 + Height(j) > 1000 then Close(o) == Thrown(StackLimitExceeded) else Reads(Close(o), src, j, at, rest)
  {
    hide Spelled, Height, MaxHeight, Denotes, Body, Elements, Members, TooTall, Start;
    BodyLength(j.gap, j.parts);
    if o.Done? { ContainerMeans(src, j, at, Close(o).value); }
    ContainerSize(j);
    if j.parts == [] { NoElements(src, j.parts, at + 1); }
  }

  lemma NoElements(src: Source, parts: seq<Part>, at: nat)
    ensures Elements(src, parts, 0, at, [])
  {
  }

  lemma ArrayStarts(src: Source, cur: nat, depth: int, slot: Value)
    requires cur <= |src.doc| && depth < 1000 && ValueToken(src, cur).kind == ArrayBegin
    ensures var t := ValueToken(src, cur);
            ReadValue(src, cur, depth, slot) == Close(ReadArray(src, t.end, depth + 1, Value(Array([]), t.start, slot.limit)))
  {
    hide ReadArray, NonComment, ReadToken;
  }

  lemma {:induction false} BodyLength(gap: string, parts: seq<Part>)
    ensures |Body(gap, parts)| == if parts == [] then |gap| else Start(parts, |parts|) - 1
  {
    hide Parts, Start;
    if parts != [] {
      PartsLength(parts, 0);
      NothingBefore(parts);
    }
  }

  lemma NothingBefore(parts: seq<Part>)
    ensures Start(parts, 0) == 0
  {
  }

  /** How the routine for what stands between two brackets ends. */
  ghost predicate BodyRead(o: Outcome, src: Source, gap: string, parts: seq<Part>, depth: int, at: nat, start: int, titled: bool, rest: string) {
    if parts == [] then
      && o.Done? && o.ok && o.cur == at + |gap| + 1 && o.cur <= |src.doc| && src.doc[o.cur..] == rest && o.value.start == start
      && o.value.payload == if titled then Object([]) else Array([])
    else ListRead(o, src, parts, 0, depth, at, start, titled, rest)
  }

  lemma {:induction false} ArrayBodyReads(src: Source, cur: nat, depth: int, arr: Value, j: Json, rest: string)
    requires j.ArrayOf? && cur <= |src.doc| && src.doc[cur..] == Body(j.gap, j.parts) + ("]" + rest)
    requires Grammatical(j) && Fits(src, j) && arr.payload == Array([])
    ensures BodyRead(ReadArray(src, cur, depth, arr), src, j.gap, j.parts, depth, cur, arr.start, false, rest)
    decreases j, 1
  {
    var parts := j.parts;
    if parts == [] {
      EmptyArray(src, cur, depth, arr, j.gap, rest);
    } else {
      assert GoodParts(src, parts, false);
      hide Body, Grammatical, Fits;
      FirstElement(src, cur, depth, arr, parts, rest);
    }
  }

  lemma {:induction false} FirstElement(src: Source, cur: nat, depth: int, arr: Value, parts: seq<Part>, rest: string)
    requires parts != [] && GoodParts(src, parts, false) && arr.payload == Array([])
    requires cur <= |src.doc| && src.doc[cur..] == Parts(parts, 0) + ("]" + rest)
    ensures ListRead(ReadArray(src, cur, depth, arr), src, parts, 0, depth, cur, arr.start, false, rest)
    decreases parts, 3
  {
    hide *;
    NoBlanks();
    var first := parts[0];
    FirstPart(src, parts, "]" + rest);
    var text := Spelled(first.value) + After(parts, 0, "]" + rest);
    ArrayGoesOn(src, cur, depth, arr, first.before, text);
    NothingBefore(parts);
    NoElements(src, parts, cur);
    ElementsRead(src, cur + |first.before|, depth, arr, parts, 0, cur, "", rest);
  }

  lemma NoBlanks()
    ensures Blanks("")
  {
  }

  lemma {:induction false} FirstPart(src: Source, parts: seq<Part>, close: string)
    requires parts != [] && GoodParts(src, parts, false)
    ensures var p := parts[0]; var text := Spelled(p.value) + After(parts, 0, close);
            && Lead(p) == p.before && Blanks(p.before) && Parts(parts, 0) + close == p.before + text
            && text != "" && !IsSpace(text[0]) && text[0] != ']'
  {
    var first := parts[0];
    assert first.title == None && Spaced(first) && Grammatical(first.value);
    PartsSplit(parts, 0, close);
    NoTitle(first);
    FirstCharacter(first.value);
    hide Spelled, After, Parts, Grammatical, GoodParts, Lead, IsSpace, Blanks;
    assert (Spelled(first.value) + After(parts, 0, close))[0] == Spelled(first.value)[0];
  }

  lemma {:induction false} ArrayGoesOn(src: Source, cur: nat, depth: int, arr: Value, blanks: string, text: string)
    requires cur <= |src.doc| && arr.payload.Array? && src.doc[cur..] == blanks + text && Blanks(blanks)
    requires text != "" && !IsSpace(text[0]) && text[0] != ']'
    ensures cur + |blanks| <= |src.doc| && ReadArray(src, cur, depth, arr) == ReadElements(src, cur + |blanks|, depth, arr, 0)
    ensures src.doc[cur + |blanks|..] == "" + text
  {
    hide ReadElements, NonComment, ReadToken;
    BehindBlanks(src.doc, cur, blanks, text);
    assert "" + text == text;
  }

  lemma {:induction false} EmptyArray(src: Source, cur: nat, depth: int, arr: Value, gap: string, rest: string)
    requires cur <= |src.doc| && src.doc[cur..] == gap + ("]" + rest) && Blanks(gap) && arr.payload.Array?
    ensures ReadArray(src, cur, depth, arr) == Done(true, cur + |gap| + 1, depth, [], arr)
    ensures cur + |gap| + 1 <= |src.doc| && src.doc[cur + |gap| + 1..] == rest
  {
    hide ReadElements, NonComment, ReadToken;
    BehindBlanks(src.doc, cur, gap, "]" + rest);
    FixedToken(ArrayEnd, "]", rest);
    assert "" + ("]" + rest) == "]" + rest;
    TokenHere(src, cur + |gap|, "", ArrayEnd, "]", rest);
  }

  /** Skipping blanks in front of another character. */
  lemma {:induction false} BehindBlanks(doc: string, cur: nat, blanks: string, text: string)
    requires cur <= |doc| && doc[cur..] == blanks + text && Blanks(blanks) && text != "" && !IsSpace(text[0])
    ensures SpaceRun(doc[cur..]) == |blanks| && cur + |blanks| < |doc|
    ensures doc[cur + |blanks|..] == text && doc[cur + |blanks|] == text[0]
  {
    SpaceRunPrefix(blanks, text);
    DropDrop(doc, cur, |blanks|);
    assert SpaceRun(text) == 0;
    assert doc[cur + |blanks|..][0] == text[0];
  }

  lemma {:induction false} ElementsRead(src: Source, cur: nat, depth: int, arr: Value, parts: seq<Part>, i: nat, at: nat, blanks: string, rest: string)
    requires cur <= |src.doc| && i < |parts| && GoodParts(src, parts, false) && Blanks(blanks)
    requires src.doc[cur..] == blanks + (Spelled(parts[i].value) + After(parts, i, "]" + rest))
    requires cur + |blanks| == at + Start(parts, i) + |Lead(parts[i])|
    requires arr.payload.Array? && Elements(src, parts, i, at, arr.payload.items)
    ensures ListRead(ReadElements(src, cur, depth, arr, i), src, parts, i, depth, at, arr.start, false, rest)
    decreases parts, 2, |parts| - i
  {
    hide Spelled, After, Parts, Start, Lead, Blanks, EndsNumber, Height, Elements, ReadElement, TooTall;
    TooTallStep(parts, i, depth);
    ElementRead1(src, cur, depth, arr, parts, i, at, blanks, rest);
    if depth + Height(parts[i].value) <= 1000 {
      var m := ReadElement(src, cur, depth, arr, i);
      if i + 1 < |parts| {
        var next := parts[i + 1];
        assert Blanks(next.before) && next.title == None;
        PartsSplit(parts, i + 1, "]" + rest);
        NoTitle(next);
        assert m.value.payload.Array?;
        ElementsRead(src, m.cur, depth, m.value, parts, i + 1, at, next.before, rest);
      }
    }
  }

  lemma NoTitle(p: Part)
    requires p.title == None
    ensures Lead(p) == p.before
  {
    assert p.before + "" == p.before;
  }

  /** One element. */
  lemma {:induction false} ElementRead1(src: Source, cur: nat, depth: int, arr: Value, parts: seq<Part>, i: nat, at: nat, blanks: string, rest: string)
    requires cur <= |src.doc| && i < |parts| && GoodParts(src, parts, false) && Blanks(blanks)
    requires src.doc[cur..] == blanks + (Spelled(parts[i].value) + After(parts, i, "]" + rest))
    requires cur + |blanks| == at + Start(parts, i) + |Lead(parts[i])|
    requires arr.payload.Array? && Elements(src, parts, i, at, arr.payload.items)
    ensures OneRead(ReadElement(src, cur, depth, arr, i), src, parts, i, depth, at, arr.start, false, rest)
    decreases parts, 1
  {
    hide Spelled, After, Parts, EndsNumber, Height, Elements, ReadValue, PartDenotes, Start, Lead, OneRead, Reads, ElementRead, WithItem;
    var p, tail := parts[i], After(parts, i, "]" + rest);
    assert Spaced(p) && Grammatical(p.value) && Fits(src, p.value);
    hide GoodParts, Grammatical, Fits, Blanks;
    AfterEndsNumber(parts, i, "]" + rest);
    var slot := Get(arr.payload.items, Index(i));
    ReadsText(src, cur, depth, slot, blanks, p.value, tail);
    ElementStored(src, cur, depth, arr, parts, i, at, rest, ReadValue(src, cur, depth, slot));
  }

  lemma {:induction false} ElementStored(src: Source, cur: nat, depth: int, arr: Value, parts: seq<Part>, i: nat, at: nat, rest: string, o: Outcome)
    requires cur <= |src.doc| && i < |parts| && Blanks(parts[i].after)
    requires arr.payload.Array? && Elements(src, parts, i, at, arr.payload.items)
    requires var from := at + Start(parts, i) + |Lead(parts[i])|;
             if depth + Height(parts[i].value) > 1000 then o == Thrown(StackLimitExceeded)
             else Reads(o, src, parts[i].value, from, After(parts, i, "]" + rest))
    requires Disciplined(o, src.doc, cur, depth)
    ensures OneRead(ElementRead(src, cur, depth, arr, i, o), src, parts, i, depth, at, arr.start, false, rest)
  {
    hide Spelled, After, Parts, Elements, PartDenotes, Lead, Height, ElementEnd, Denotes;
    if depth + Height(parts[i].value) <= 1000 {
      DenotesPart(src, parts, i, at, at + Start(parts, i) + |Lead(parts[i])|, o.value);
      ElementsGrow(src, parts, i, at, arr.payload.items, o.value);
      ElementEnds(src, o.cur, depth, WithItem(arr, Index(i), o.value), parts, i, rest);
    }
  }

  lemma DenotesPart(src: Source, parts: seq<Part>, k: nat, at: nat, from: nat, v: Value)
    requires k < |parts| && from == at + Start(parts, k) + |Lead(parts[k])| && Denotes(src, parts[k].value, from, v)
    ensures PartDenotes(src, parts, k, at, v)
  {
  }

  /** How one turn of such a loop ends. */
  ghost predicate OneRead(s: Step, src: Source, parts: seq<Part>, i: nat, depth: int, at: nat, start: int, titled: bool, rest: string)
    requires i < |parts|
  {
    var close := if titled then "}" else "]";
    var end := at + Start(parts, i + 1);
    if depth + Height(parts[i].value) > 1000 then s == Return(Thrown(StackLimitExceeded))
    else
      && end <= |src.doc|
      && src.doc[end..] == (if i + 1 < |parts| then Parts(parts, i + 1) + (close + rest) else rest)
      && (if i + 1 < |parts| then s.Again? && s.cur == end
          else s.Return? && s.outcome.Done? && s.outcome.ok && s.outcome.cur == end)
      && var v := if s.Again? then s.value else s.outcome.value;
         && v.start == start
         && (if titled then v.payload.Object? && Members(src, parts, i + 1, at, v.payload.items)
             else v.payload.Array? && Elements(src, parts, i + 1, at, v.payload.items))
  }

  // --------------------------------------------------------------- objects

  lemma {:induction false} ObjectReads(src: Source, cur: nat, depth: int, slot: Value, blanks: string, j: Json, rest: string)
    requires cur <= |src.doc| && src.doc[cur..] == blanks + (Spelled(j) + rest) && Blanks(blanks)
    requires Grammatical(j) && Fits(src, j) && EndsNumber(rest) && j.ObjectOf? && depth < 1000
    ensures var o := ReadValue(src, cur, depth, slot);
            if depth + Height(j) > 1000 then o == Thrown(StackLimitExceeded) else Reads(o, src, j, cur + |blanks|, rest)
    decreases j, 2
  {
    hide Spelled, Body, Grammatical, Fits, ReadMembers, ReadValue, NonComment, ReadToken, BodyRead, Reads, Height, MaxHeight, EndsNumber, TooTall;
    var at, tail := cur + |blanks|, Body(j.gap, j.parts) + ("}" + rest);
    ObjectText(j, rest);
    FixedToken(ObjectBegin, "{", tail);
    TokenHere(src, cur, blanks, ObjectBegin, "{", tail);
    ObjectStarts(src, cur, depth, slot);
    TooTallIff(j.parts, depth + 1);
    var obj := Value(Object([]), at, slot.limit);
    ObjectBodyReads(src, at + 1, depth + 1, obj, j, rest);
    ObjectCloses(ReadMembers(src, at + 1, depth + 1, obj, ""), src, j, depth + 1, at, rest);
  }

  lemma ObjectText(j: Json, rest: string)
    requires j.ObjectOf?
    ensures Spelled(j) + rest == "{" + (Body(j.gap, j.parts) + ("}" + rest))
  {
    hide Body;
  }

  lemma {:induction false} ObjectCloses(o: Outcome, src: Source, j: Json, depth: int, at: nat, rest: string)
    requires j.ObjectOf? && BodyRead(o, src, j.gap, j.parts, depth, at + 1, at, true, rest)
    requires TooTall(j.parts, 0, depth) <==> depth + MaxHeight(j.parts) > 1000
    requires depth <= 1000
    ensures if depth - 1 + Height(j) > 1000 then Close(o) == Thrown(StackLimitExceeded) else Reads(Close(o), src, j, at, rest)
  {
    hide Spelled, Height, MaxHeight, Denotes, Body, Elements, Members, TooTall, Start;
    BodyLength(j.gap, j.parts);
    if o.Done? { ContainerMeans(src, j, at, Close(o).value); }
    ContainerSize(j);
    if j.parts == [] { NoMembers(src, j.parts, at + 1); }
  }

  lemma NoMembers(src: Source, parts: seq<Part>, at: nat)
    ensures Members(src, parts, 0, at, [])
  {
  }

  lemma ObjectStarts(src: Source, cur: nat, depth: int, slot: Value)
    requires cur <= |src.doc| && depth < 1000 && ValueToken(src, cur).kind == ObjectBegin
    ensures var t := ValueToken(src, cur);
            ReadValue(src, cur, depth, slot) == Close(ReadMembers(src, t.end, depth + 1, Value(Object([]), t.start, slot.limit), ""))
  {
    hide ReadMembers, NonComment, ReadToken;
  }

  lemma {:induction false} ObjectBodyReads(src: Source, cur: nat, depth: int, obj: Value, j: Json, rest: string)
    requires j.ObjectOf? && cur <= |src.doc| && src.doc[cur..] == Body(j.gap, j.parts) + ("}" + rest)
    requires Grammatical(j) && Fits(src, j) && obj.payload == Object([])
    ensures BodyRead(ReadMembers(src, cur, depth, obj, ""), src, j.gap, j.parts, depth, cur, obj.start, true, rest)
    decreases j, 1
  {
    var parts := j.parts;
    if parts == [] {
      EmptyObject(src, cur, depth, obj, j.gap, rest);
    } else {
      assert GoodParts(src, parts, true);
      NoMembers(src, parts, cur);
      NothingBefore(parts);
      hide Spelled, Parts, ReadMembers, Grammatical, Fits, GoodParts, Members;
      MembersRead(src, cur, depth, obj, parts, 0, cur, "", rest);
    }
  }

  lemma {:induction false} EmptyObject(src: Source, cur: nat, depth: int, obj: Value, gap: string, rest: string)
    requires cur <= |src.doc| && src.doc[cur..] == gap + ("}" + rest) && Blanks(gap) && obj.payload.Object?
    ensures ReadMembers(src, cur, depth, obj, "") == Done(true, cur + |gap| + 1, depth, [], obj)
    ensures cur + |gap| + 1 <= |src.doc| && src.doc[cur + |gap| + 1..] == rest
  {
    hide NonComment, ReadToken;
    FixedToken(ObjectEnd, "}", rest);
    TokenHere(src, cur, gap, ObjectEnd, "}", rest);
  }

  /** Storing the next member. */
  lemma {:induction false} MembersGrow(src: Source, parts: seq<Part>, i: nat, at: nat, items: seq<Entry>, v: Value)
    requires i < |parts| && Members(src, parts, i, at, items) && PartDenotes(src, parts, i, at, v)
    ensures Members(src, parts, i + 1, at, Put(items, Name(NameOf(parts[i])), v))
  {
    hide PartDenotes, NameOf, AllNamed, InOrder, EachIsLast, NoneMissing, Put;
    var key := Name(NameOf(parts[i]));
    InOrderSorted(items);
    PutSorted(items, key, v);
    forall e ensures e in Put(items, key, v) <==> e == Entry(key, v) || (e.key != key && e in items) { PutEntries(items, key, v, e); }
    StillNamed(items, key, v, Put(items, key, v));
    SortedIsBefore(Put(items, key, v));
    StillLast(src, parts, i, at, items, v, Put(items, key, v));
    NoneMissingYet(parts, i, items, v, Put(items, key, v));
  }

  ghost predicate Stored(items: seq<Entry>, key: Key, v: Value, put: seq<Entry>) {
    forall e :: e in put <==> e == Entry(key, v) || (e.key != key && e in items)
  }

  lemma {:induction false} StillNamed(items: seq<Entry>, key: Key, v: Value, put: seq<Entry>)
    requires AllNamed(items) && key.Name? && Stored(items, key, v, put)
    ensures AllNamed(put)
  {
  }

  lemma {:induction false} StillLast(src: Source, parts: seq<Part>, i: nat, at: nat, items: seq<Entry>, v: Value, put: seq<Entry>)
    requires i < |parts| && EachIsLast(src, parts, i, at, items) && PartDenotes(src, parts, i, at, v)
    requires Stored(items, Name(NameOf(parts[i])), v, put)
    ensures EachIsLast(src, parts, i + 1, at, put)
  {
    hide PartDenotes, NameOf;
    var key := Name(NameOf(parts[i]));
    forall e | e in put
      ensures exists k :: 0 <= k < i + 1 && Last(parts, i + 1, k) && e.key == Name(NameOf(parts[k])) && PartDenotes(src, parts, k, at, e.value)
    {
      if e == Entry(key, v) {
        assert Last(parts, i + 1, i);
      } else {
        var k :| 0 <= k < i && Last(parts, i, k) && e.key == Name(NameOf(parts[k])) && PartDenotes(src, parts, k, at, e.value);
        assert Last(parts, i + 1, k);
      }
    }
  }

  lemma {:induction false} NoneMissingYet(parts: seq<Part>, i: nat, items: seq<Entry>, v: Value, put: seq<Entry>)
    requires i < |parts| && NoneMissing(parts, i, items) && Stored(items, Name(NameOf(parts[i])), v, put)
    ensures NoneMissing(parts, i + 1, put)
  {
    hide NameOf;
    var key := Name(NameOf(parts[i]));
    forall k | 0 <= k < i + 1 ensures exists e :: e in put && e.key == Name(NameOf(parts[k])) {
      if NameOf(parts[k]) == NameOf(parts[i]) {
        assert Entry(key, v) in put;
      } else {
        var e :| e in items && e.key == Name(NameOf(parts[k]));
        assert e in put;
      }
    }
  }

  lemma {:induction false} InOrderSorted(items: seq<Entry>)
    requires AllNamed(items) && InOrder(items)
    ensures Sorted(items)
  {
    forall i, j | 0 <= i < j < |items| ensures KeyLess(items[i].key, items[j].key) {
      assert items[i] in items && items[j] in items;
      KeyLessIsBefore(items[i].key, items[j].key);
    }
  }

  lemma {:induction false} SortedIsBefore(items: seq<Entry>)
    requires Sorted(items) && AllNamed(items)
    ensures InOrder(items)
  {
    forall i, j | 0 <= i < j < |items| ensures KeyBefore(items[i].key, items[j].key) {
      assert items[i] in items && items[j] in items;
      KeyLessIsBefore(items[i].key, items[j].key);
    }
  }

  lemma {:induction false} MembersRead(src: Source, cur: nat, depth: int, obj: Value, parts: seq<Part>, i: nat, at: nat, name: string, rest: string)
    requires cur <= |src.doc| && i < |parts| && GoodParts(src, parts, true)
    requires src.doc[cur..] == Parts(parts, i) + ("}" + rest) && cur == at + Start(parts, i)
    requires obj.payload.Object? && Members(src, parts, i, at, obj.payload.items)
    ensures ListRead(ReadMembers(src, cur, depth, obj, name), src, parts, i, depth, at, obj.start, true, rest)
    decreases parts, 3, |parts| - i
  {
    hide Spelled, After, Parts, Start, Lead, Blanks, EndsNumber, Height, Members, ReadMember, ReadName, NameOf, TooTall, GoodParts, AfterName;
    TooTallStep(parts, i, depth);
    NameIsRead(src, cur, depth, obj, parts, i, name, rest);
    var n := ReadName(src, cur, depth, obj, name);
    MemberRead1(src, n.cur, depth, obj, parts, i, at, rest);
    if depth + Height(parts[i].value) <= 1000 {
      var m := ReadMember(src, n.cur, depth, obj, n.name);
      if i + 1 < |parts| {
        MembersRead(src, m.cur, depth, m.value, parts, i + 1, at, n.name, rest);
      }
    }
  }

  /** What follows the name of the i-th member. */
  function AfterName(parts: seq<Part>, i: nat, close: string): string
    requires i < |parts| && parts[i].title.Some?
  {
    var l := parts[i].title.value;
    l.before + (":" + (l.after + (Spelled(parts[i].value) + After(parts, i, close))))
  }

  lemma {:induction false} NameSplit(parts: seq<Part>, i: nat, close: string)
    requires i < |parts| && parts[i].title.Some?
    ensures Parts(parts, i) + close == parts[i].before + (InQuotes(parts[i].title.value.es) + AfterName(parts, i, close))
    ensures var l := parts[i].title.value;
            |Lead(parts[i])| == |parts[i].before| + |InQuotes(l.es)| + |l.before| + 1 + |l.after|
  {
    PartsSplit(parts, i, close);
    hide Spelled, After, Parts, InQuotes;
    var p := parts[i];
    var l := p.title.value;
    SixParts(p.before, InQuotes(l.es), l.before, ":", l.after, Spelled(p.value) + After(parts, i, close));
    assert Lead(p) == p.before + (InQuotes(l.es) + l.before + ":" + l.after);
  }

  lemma SixParts(a: string, b: string, c: string, d: string, e: string, f: string)
    ensures a + (b + c + d + e) + f == a + (b + (c + (d + (e + f))))
  {
  }

  lemma {:induction false} NameIsRead(src: Source, cur: nat, depth: int, obj: Value, parts: seq<Part>, i: nat, name: string, rest: string)
    requires cur <= |src.doc| && i < |parts| && GoodParts(src, parts, true)
    requires src.doc[cur..] == Parts(parts, i) + ("}" + rest)
    ensures var n := ReadName(src, cur, depth, obj, name);
            && n.Named? && n.name == NameOf(parts[i]) && n.cur == cur + |parts[i].before| + |InQuotes(parts[i].title.value.es)|
            && src.doc[n.cur..] == AfterName(parts, i, "}" + rest)
  {
    hide Parts, AfterName, NonComment, ReadToken, Unescape, Flatten, Spellings, Inner;
    assert parts[i].title.Some? && Spaced(parts[i]);
    hide GoodParts, InQuotes, TokenText;
    var l, tail := parts[i].title.value, AfterName(parts, i, "}" + rest);
    NameSplit(parts, i, "}" + rest);
    StringIsToken(l.es, l.ts, tail);
    TokenHere(src, cur, parts[i].before, StringText, InQuotes(l.es), tail);
    InnerText(src.doc, NonComment(src.doc, cur), l.es, l.ts);
    SpellingsDecode(l.es, l.ts);
  }

  /** The separator or brace behind a member. */
  lemma {:induction false} MemberEnds(src: Source, cur: nat, depth: int, obj: Value, parts: seq<Part>, i: nat, rest: string)
    requires cur <= |src.doc| && i < |parts| && Blanks(parts[i].after)
    requires src.doc[cur..] == After(parts, i, "}" + rest)
    ensures var end := cur + |parts[i].after| + 1;
            && end <= |src.doc|
            && MemberEnd(src, cur, depth, obj) == (if i + 1 < |parts| then Again(end, obj) else Return(Done(true, end, depth, [], obj)))
            && src.doc[end..] == if i + 1 < |parts| then Parts(parts, i + 1) + ("}" + rest) else rest
  {
    hide Parts, NonComment, ReadToken;
    if i + 1 < |parts| {
      var tail := Parts(parts, i + 1) + ("}" + rest);
      FixedToken(ArraySeparator, ",", tail);
      TokenHere(src, cur, parts[i].after, ArraySeparator, ",", tail);
    } else {
      FixedToken(ObjectEnd, "}", rest);
      NoParts(parts);
      assert "" + (Parts(parts, i + 1) + ("}" + rest)) == "}" + rest;
      TokenHere(src, cur, parts[i].after, ObjectEnd, "}", rest);
    }
  }

  /** One member behind its name. */
  lemma {:induction false} MemberRead1(src: Source, cur: nat, depth: int, obj: Value, parts: seq<Part>, i: nat, at: nat, rest: string)
    requires cur <= |src.doc| && i < |parts| && GoodParts(src, parts, true)
    requires src.doc[cur..] == AfterName(parts, i, "}" + rest)
    requires cur == at + Start(parts, i) + |parts[i].before| + |InQuotes(parts[i].title.value.es)|
    requires obj.payload.Object? && Members(src, parts, i, at, obj.payload.items)
    ensures OneRead(ReadMember(src, cur, depth, obj, NameOf(parts[i])), src, parts, i, depth, at, obj.start, true, rest)
    decreases parts, 1
  {
    hide Spelled, After, Parts, EndsNumber, Height, Members, ReadValue, PartDenotes, ReadToken, NonComment, AfterName, ReadMember, MemberRead, OneRead, Reads;
    var p, tail := parts[i], After(parts, i, "}" + rest);
    assert p.title.Some? && Spaced(p) && Grammatical(p.value) && Fits(src, p.value) && |NameOf(p)| < 0x4000_0000;
    NameSplit(parts, i, "}" + rest);
    hide GoodParts, InQuotes, NameOf, Grammatical, Fits, Lead, Start;
    var l := p.title.value;
    var from := cur + |l.before| + 1;
    assert from + |l.after| == at + Start(parts, i) + |Lead(p)|;
    ColonRead(src, cur, depth, obj, parts, i, "}" + rest);
    AfterEndsNumber(parts, i, "}" + rest);
    var slot := Get(obj.payload.items, Name(NameOf(p)));
    ReadsText(src, from, depth, slot, l.after, p.value, tail);
    MemberStored(src, from, depth, obj, parts, i, at, rest, ReadValue(src, from, depth, slot));
  }

  lemma {:induction false} ColonRead(src: Source, cur: nat, depth: int, obj: Value, parts: seq<Part>, i: nat, close: string)
    requires cur <= |src.doc| && i < |parts| && parts[i].title.Some? && Blanks(parts[i].title.value.before)
    requires src.doc[cur..] == AfterName(parts, i, close) && obj.payload.Object? && |NameOf(parts[i])| < 0x4000_0000
    ensures var from := cur + |parts[i].title.value.before| + 1;
            && from <= |src.doc|
            && src.doc[from..] == parts[i].title.value.after + (Spelled(parts[i].value) + After(parts, i, close))
            && ReadMember(src, cur, depth, obj, NameOf(parts[i])) == ReadMemberValue(src, from, depth, obj, Name(NameOf(parts[i])))
  {
    hide Spelled, After, NameOf, ReadMemberValue, ReadToken, NonComment, MemberKey;
    var l := parts[i].title.value;
    var behind := l.after + (Spelled(parts[i].value) + After(parts, i, close));
    FixedToken(MemberSeparator, ":", behind);
    TokenHere(src, cur, l.before, MemberSeparator, ":", behind);
    WholeKey(NameOf(parts[i]));
  }

  lemma {:induction false} MemberStored(src: Source, cur: nat, depth: int, obj: Value, parts: seq<Part>, i: nat, at: nat, rest: string, o: Outcome)
    requires cur <= |src.doc| && i < |parts| && parts[i].title.Some? && Blanks(parts[i].after)
    requires obj.payload.Object? && Members(src, parts, i, at, obj.payload.items)
    requires var from := at + Start(parts, i) + |Lead(parts[i])|;
             if depth + Height(parts[i].value) > 1000 then o == Thrown(StackLimitExceeded)
             else Reads(o, src, parts[i].value, from, After(parts, i, "}" + rest))
    requires Disciplined(o, src.doc, cur, depth)
    ensures OneRead(MemberRead(src, cur, depth, obj, Name(NameOf(parts[i])), o), src, parts, i, depth, at, obj.start, true, rest)
  {
    hide Spelled, After, Parts, Members, PartDenotes, Lead, Height, NameOf, MemberEnd, Denotes;
    if depth + Height(parts[i].value) <= 1000 {
      DenotesPart(src, parts, i, at, at + Start(parts, i) + |Lead(parts[i])|, o.value);
      MembersGrow(src, parts, i, at, obj.payload.items, o.value);
      MemberEnds(src, o.cur, depth, WithItem(obj, Name(NameOf(parts[i])), o.value), parts, i, rest);
    }
  }

  lemma WholeKey(name: string)
    requires |name| < 0x4000_0000
    ensures MemberKey(name) == Name(name)
  {
    assert name[..|name|] == name;
  }

  // --------------------------------------------------------------- scalars

  lemma {:induction false} ScalarReads(src: Source, cur: nat, depth: int, slot: Value, blanks: string, j: Json, rest: string)
    requires cur <= |src.doc| && src.doc[cur..] == blanks + (Spelled(j) + rest) && Blanks(blanks)
    requires Grammatical(j) && Fits(src, j) && EndsNumber(rest) && !j.ArrayOf? && !j.ObjectOf? && depth < 1000
    ensures Height(j) == 1 && Reads(ReadValue(src, cur, depth, slot), src, j, cur + |blanks|, rest)
  {
    hide Spelled, Grammatical, Fits, ReadValue, Reads, EndsNumber, Blanks;
    if j.NumberOf? {
      NumberTextReads(src, cur, depth, slot, blanks, j, rest);
    } else if j.StringOf? {
      StringTextReads(src, cur, depth, slot, blanks, j, rest);
    } else {
      NotRaw(j);
      WordReads(src, cur, depth, slot, blanks, j, rest);
    }
  }

  lemma NotRaw(j: Json)
    requires Grammatical(j)
    ensures !j.Raw?
  {
  }

  lemma {:induction false} WordReads(src: Source, cur: nat, depth: int, slot: Value, blanks: string, j: Json, rest: string)
    requires cur <= |src.doc| && src.doc[cur..] == blanks + (Spelled(j) + rest) && Blanks(blanks) && depth < 1000
    requires j.NullText? || j.TrueText? || j.FalseText?
    ensures Reads(ReadValue(src, cur, depth, slot), src, j, cur + |blanks|, rest)
  {
    hide ReadMembers, ReadArray, NonComment, ReadToken, ReadNumber, ReadString, TokenText, Blanks;
    var kind := match j case NullText => NullWord case TrueText => True case _ => False;
    FixedToken(kind, Spelled(j), rest);
    TokenHere(src, cur, blanks, kind, Spelled(j), rest);
  }

  lemma {:induction false} NumberTextReads(src: Source, cur: nat, depth: int, slot: Value, blanks: string, j: Json, rest: string)
    requires cur <= |src.doc| && src.doc[cur..] == blanks + (Spelled(j) + rest) && Blanks(blanks) && depth < 1000
    requires j.NumberOf? && Grammatical(j) && Fits(src, j) && EndsNumber(rest)
    ensures Reads(ReadValue(src, cur, depth, slot), src, j, cur + |blanks|, rest)
  {
    hide ReadMembers, ReadArray, NonComment, ReadToken, ReadNumber, ReadString, TokenText, Blanks, Spelled, Grammatical, Fits, EndsNumber, NumberMeans;
    NumberIsToken(j, rest);
    TokenHere(src, cur, blanks, Number, Spelled(j), rest);
    NumberReads(src, ValueToken(src, cur), depth, slot, j);
  }

  lemma {:induction false} StringTextReads(src: Source, cur: nat, depth: int, slot: Value, blanks: string, j: Json, rest: string)
    requires cur <= |src.doc| && src.doc[cur..] == blanks + (Spelled(j) + rest) && Blanks(blanks) && depth < 1000
    requires j.StringOf? && Grammatical(j) && Fits(src, j)
    ensures Reads(ReadValue(src, cur, depth, slot), src, j, cur + |blanks|, rest)
  {
    hide ReadMembers, ReadArray, NonComment, ReadToken, ReadNumber, ReadString, TokenText, Blanks, InQuotes, Grammatical, Fits;
    assert Spellings(j.es, j.ts) by { SpelledString(j); }
    StringIsToken(j.es, j.ts, rest);
    TokenHere(src, cur, blanks, StringText, Spelled(j), rest);
    StringReads(src, ValueToken(src, cur), depth, slot, j);
  }

  /** A longer string is refused by an exception. */
  lemma {:induction false} TooLong(src: Source, cur: nat, depth: int, slot: Value, blanks: string, j: Json, rest: string)
    requires cur <= |src.doc| && src.doc[cur..] == blanks + (Spelled(j) + rest) && Blanks(blanks) && depth < 1000
    requires j.StringOf? && Grammatical(j) && 0x7FFF_FFFA < |Flatten(j.ts)| < 0x1_0000_0000
    ensures ReadValue(src, cur, depth, slot) == Thrown(TextTooLong)
  {
    hide ReadMembers, ReadArray, NonComment, ReadToken, ReadNumber, TokenText, Blanks, InQuotes, Grammatical, Unescape, Flatten;
    assert Spellings(j.es, j.ts) by { SpelledString(j); }
    StringIsToken(j.es, j.ts, rest);
    TokenHere(src, cur, blanks, StringText, Spelled(j), rest);
    InnerText(src.doc, ValueToken(src, cur), j.es, j.ts);
    SpellingsDecode(j.es, j.ts);
  }

  lemma SpelledString(j: Json)
    requires j.StringOf? && Grammatical(j)
    ensures Spellings(j.es, j.ts)
  {
  }

  // -------------------------------------------------------------- documents

  /** A document that is one text between blanks parses, with any features, to what the text
      means, exactly up to 1000 levels; its range is that of the text. */
  lemma {:induction false} ParsesText(src: Source, root: Value, before: string, j: Json, after: string)
    requires src.doc == before + Spelled(j) + after && Blanks(before) && Blanks(after) && Grammatical(j) && Fits(src, j)
    requires src.features.strictRoot ==> j.ArrayOf? || j.ObjectOf?
    ensures var o := Parse(src, root);
            if Height(j) > 1000 then o == Thrown(StackLimitExceeded)
            else o.Done? && o.ok && o.errors == [] && Denotes(src, j, |before|, o.value)
  {
    hide Spelled, Height, Grammatical, Fits, ReadValue, ValueToken;
    assert src.doc[0..] == before + (Spelled(j) + after);
    assert EndsNumber(after);
    ReadsText(src, 0, 0, root, before, j, after);
    var o := ReadValue(src, 0, 0, root);
    if o.Done? {
      assert o.value.payload.Container() == (j.ArrayOf? || j.ObjectOf?) by { ContainerDenoted(src, j, |before|, o.value); }
    }
  }

  lemma ContainerDenoted(src: Source, j: Json, at: nat, v: Value)
    requires Denotes(src, j, at, v)
    ensures v.payload.Container() == (j.ArrayOf? || j.ObjectOf?)
  {
    hide Elements, Members;
  }
}
