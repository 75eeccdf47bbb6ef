/** The loops of TinyXML's attribute reader and writer, proved against the functions
    of XmlAttributeText. A text is a NUL-terminated buffer and a cursor an index into
    it. */
module XmlAttributeParser {
  import opened Options
  import opened Slices
  import opened XmlAttributeText

  /** A character pointer; the index past the terminator is a cursor out of bounds. */
  datatype Cursor = NoCursor | At(i: nat)

  function Where(text: string, c: Cursor): Place {
    match c
    case NoCursor => Lost
    case At(i) => if i <= |text| then Left(text[i..]) else Beyond
  }

  /** EncodeString */
  method EncodeString(str: string) returns (out: string)
    ensures out == Encode(str)
  {
    hide Encode, Entity;
    var i := 0;
    out := "";
    EncodeStep(str, |str|);
    assert str[0..] == str;
    while i < |str|
      invariant 0 <= i <= |str| && out + Encode(str[i..]) == Encode(str)
    {
      EncodeStep(str, i);
      if str[i] == '&' && i < |str| - 2 && str[i + 1] == '#' && str[i + 2] == 'x' {
        assert IsHexRef(str[i..]);
        var passed: string;
        passed, i := PassThrough(str, i);
        out := out + passed;
      } else {
        out := out + Entity(str[i]);
        i := i + 1;
      }
    }
  }

  lemma EncodeStep(str: string, i: nat)
    requires i <= |str|
    ensures i == |str| ==> Encode(str[i..]) == ""
    ensures i < |str| && !IsHexRef(str[i..]) ==> Encode(str[i..]) == Entity(str[i]) + Encode(str[i + 1..])
    ensures i < |str| && IsHexRef(str[i..]) ==>
              var n := PassLength(str[i..]); Encode(str[i..]) == str[i..i + n] + Encode(str[i + n..])
  {
    if i < |str| {
      DropDrop(str, i, 1);
      if IsHexRef(str[i..]) {
        var n := PassLength(str[i..]);
        DropDrop(str, i, n);
        DropSlice(str, i, 0, n);
      }
    }
  }

  /** The inner loop of EncodeString. */
  method PassThrough(str: string, start: nat) returns (passed: string, i: nat)
    requires start < |str| && IsHexRef(str[start..])
    ensures i == start + PassLength(str[start..]) && passed == str[start..i]
  {
    ghost var s := str[start..];
    i, passed := start, "";
    while i < |str| - 1
      invariant start <= i <= |str| - 1 && passed == str[start..i]
      invariant forall j :: 1 <= j <= i - start ==> s[j] != ';'
    {
      passed := passed + [str[i]];
      i := i + 1;
      if str[i] == ';' {
        assert s[i - start] == ';';
        FindIs(s, 3, ';', i - start);
        return;
      }
    }
    assert FindFrom(s, 3, ';') == |s|;
  }

  const WORD := 0x1_0000_0000
  const LONG := 0x1_0000_0000_0000_0000

  /** The backward scan of GetEntity over `text[p..q]`, with its 32-bit multiplier and
      64-bit sum: what is left of the number in a byte is exact. */
  method ScanBack(text: string, p: nat, q: nat, base: nat, stop: char) returns (ok: bool, ucs: nat)
    requires p < q <= |text| && stop in text[p..q] && (base == 10 || base == 16) && Digit(stop, base).None?
    ensures ok <==> Number(text[p..q], base, stop).Some?
    ensures ok ==> SameByte(ucs, Number(text[p..q], base, stop).value)
  {
    var r: nat, mult: nat := q - 1, 1;
    ucs := 0;
    ghost var exact: nat, weight: nat := 0, 1;
    ScanStart(Number(text[p..q], base, stop));
    hide Number, Remains, SameByte, AddWrapped, TimesWrapped, Times, Digit;
    while text[r] != stop
      invariant p <= r < q && stop in text[p..r + 1]
      invariant SameByte(mult, weight) && SameByte(ucs, exact)
      invariant Remains(Number(text[p..q], base, stop), Number(text[p..r + 1], base, stop), weight, exact)
      decreases r
    {
      var d := Digit(text[r], base);
      ScanStep(text, p, q, r, base, stop, weight, exact);
      if d.None? { return false, 0; }
      ByteSum(ucs, exact, mult, weight, d.value);
      ByteProduct(mult, weight, base);
      ucs := AddWrapped(ucs, mult, d.value);
      mult := TimesWrapped(mult, base);
      exact, weight := exact + Times(weight, d.value), Times(weight, base);
      r := r - 1;
    }
    ScanEnd(text, p, q, r, base, stop, weight, exact);
    ok := true;
  }

  predicate SameByte(a: nat, b: nat) { a % 256 == b % 256 }

  function Times(a: nat, b: nat): nat { a * b }

  /** mult *= base on unsigned int */
  function TimesWrapped(mult: nat, base: nat): nat { mult * base % WORD }

  /** ucs += mult * digit, the product in unsigned int and the sum in unsigned long */
  function AddWrapped(ucs: nat, mult: nat, digit: nat): nat { (ucs + mult * digit % WORD) % LONG }

  /** A number and the part of it still to be read. */
  ghost predicate Remains(whole: Option<nat>, ahead: Option<nat>, weight: nat, exact: nat) {
    (whole.Some? <==> ahead.Some?) && (whole.Some? ==> whole.value == ahead.value * weight + exact)
  }

  lemma ScanStart(whole: Option<nat>)
    ensures Remains(whole, whole, 1, 0) && SameByte(1, 1) && SameByte(0, 0)
  {
  }

  lemma ScanEnd(text: string, p: nat, q: nat, r: nat, base: nat, stop: char, weight: nat, exact: nat)
    requires p <= r < q <= |text| && text[r] == stop
    requires Remains(Number(text[p..q], base, stop), Number(text[p..r + 1], base, stop), weight, exact)
    ensures Number(text[p..q], base, stop) == Some(exact)
  {
    assert Number(text[p..r + 1], base, stop) == Some(0);
  }

  lemma ScanStep(text: string, p: nat, q: nat, r: nat, base: nat, stop: char, weight: nat, exact: nat)
    requires p <= r < q <= |text| && stop in text[p..r + 1] && text[r] != stop
    requires Remains(Number(text[p..q], base, stop), Number(text[p..r + 1], base, stop), weight, exact)
    ensures p < r && stop in text[p..r]
    ensures Digit(text[r], base).None? ==> Number(text[p..q], base, stop).None?
    ensures Digit(text[r], base).Some? ==>
              Remains(Number(text[p..q], base, stop), Number(text[p..r], base, stop), Times(weight, base), exact + Times(weight, Digit(text[r], base).value))
  {
    var t := text[p..r + 1];
    assert t[..|t| - 1] == text[p..r] && t[|t| - 1] == text[r] && t == text[p..r] + [text[r]];
    var d, ahead := Digit(text[r], base), Number(text[p..r], base, stop);
    if d.Some? && ahead.Some? {
      Shift(ahead.value, base, d.value, weight, exact);
    }
  }

  lemma Shift(v: nat, base: nat, d: nat, weight: nat, exact: nat)
    ensures (v * base + d) * weight + exact == v * (weight * base) + (exact + weight * d)
  {
  }

  lemma ByteProduct(a: nat, b: nat, k: nat)
    requires SameByte(a, b)
    ensures SameByte(TimesWrapped(a, k), Times(b, k))
  {
    var x, y := a / 256, b / 256;
    var c := a % 256;
    Spread(x, c, k);
    Spread(y, c, k);
    Modulo(x * k, c * k);
    Modulo(y * k, c * k);
    WrapWord(a * k);
  }

  lemma Spread(x: nat, c: nat, k: nat)
    ensures (256 * x + c) * k == 256 * (x * k) + c * k
  {
  }

  lemma Modulo(x: nat, c: nat)
    ensures (256 * x + c) % 256 == c % 256
  {
  }

  lemma WrapWord(v: nat)
    ensures v % WORD % 256 == v % 256
  {
  }

  lemma WrapLong(v: nat)
    ensures v % LONG % 256 == v % 256
  {
  }

  lemma AddBytes(u: nat, e: nat, a: nat, b: nat)
    requires u % 256 == e % 256 && a % 256 == b % 256
    ensures (u + a) % 256 == (e + b) % 256
  {
    var c, d := u % 256, a % 256;
    assert u + a == 256 * (u / 256 + a / 256) + (c + d);
    assert e + b == 256 * (e / 256 + b / 256) + (c + d);
    Modulo(u / 256 + a / 256, c + d);
    Modulo(e / 256 + b / 256, c + d);
  }

  lemma ByteSum(u: nat, e: nat, a: nat, b: nat, d: nat)
    requires SameByte(u, e) && SameByte(a, b)
    ensures SameByte(AddWrapped(u, a, d), e + Times(b, d))
  {
    ByteProduct(a, b, d);
    var product := b * d;
    var wrapped := a * d % WORD;
    AddBytes(u, e, wrapped, product);
    WrapLong(u + wrapped);
  }

  /** strchr */
  method FindChar(text: string, p: nat, c: char, ghost start: nat) returns (q: nat)
    requires start <= p <= |text|
    ensures p <= q <= |text| && q == start + FindFrom(text[start..], p - start, c)
  {
    ghost var s := text[start..];
    q := p;
    while q < |text| && text[q] != c
      invariant p <= q <= |text| && forall j :: p - start <= j < q - start ==> s[j] != c
    {
      q := q + 1;
    }
    if q < |text| { FindIs(s, p - start, c, q - start); }
  }

  /** The numeric half of GetEntity. */
  method ReadReference(text: string, p: nat, skip: nat, base: nat, stop: char) returns (value: string, next: Cursor)
    requires 1 <= skip && p + skip <= |text| && text[p + skip - 1] == stop
    requires (base == 10 && stop == '#') || (base == 16 && stop == 'x')
    ensures Follows(CharacterReference(text[p..], skip, base, stop), text, p, value, next)
  {
    hide Number;
    value, next := "", NoCursor;
    var q := FindChar(text, p + skip, ';', p);
    if q == |text| { return; }
    DropSlice(text, p, 0, q - p);
    assert text[p..q][skip - 1] == stop;
    var ok, ucs := ScanBack(text, p, q, base, stop);
    if !ok { return; }
    value, next := [LowByte(ucs)], At(q + 1);
  }

  /** The outcome of reading one character at p, on cursors. */
  ghost predicate Follows(step: Step, text: string, p: nat, value: string, next: Cursor) {
    match step
    case Null => next == NoCursor && value == ""
    case Step(out, used) => value == out && next == At(p + used)
  }

  method ReadEntity(text: string, p: nat) returns (value: string, next: Cursor)
    requires p < |text| && text[p] == '&'
    ensures Follows(GetEntity(text[p..]), text, p, value, next)
  {
    hide CharacterReference;
    ghost var s := text[p..];
    if p + 2 < |text| && text[p + 1] == '#' {
      if text[p + 2] == 'x' {
        value, next := ReadReference(text, p, 3, 16, 'x');
      } else {
        value, next := ReadReference(text, p, 2, 10, '#');
      }
      return;
    }
    var entities := [("&amp;", '&'), ("&lt;", '<'), ("&gt;", '>'), ("&quot;", '"'), ("&apos;", '\'')];
    var i := 0;
    while i < |entities|
      invariant 0 <= i <= |entities| && forall j :: 0 <= j < i ==> !Starts(s, entities[j].0)
    {
      var name := entities[i].0;
      assert i > 0 ==> !Starts(s, entities[0].0);
      assert i > 1 ==> !Starts(s, entities[1].0);
      assert i > 2 ==> !Starts(s, entities[2].0);
      assert i > 3 ==> !Starts(s, entities[3].0);
      if p + |name| <= |text| && text[p..p + |name|] == name {
        assert Starts(s, name) by { DropSlice(text, p, 0, |name|); }
        return [entities[i].1], At(p + |name|);
      }
      assert !Starts(s, name) by { if p + |name| <= |text| { DropSlice(text, p, 0, |name|); } }
      i := i + 1;
    }
    assert !Starts(s, entities[0].0) && !Starts(s, entities[1].0) && !Starts(s, entities[2].0);
    assert !Starts(s, entities[3].0) && !Starts(s, entities[4].0);
    return "", At(p + 1);
  }

  /** ReadText up to a quote, white space kept. */
  method ReadQuoted(text: string, start: nat, quote: char) returns (value: string, next: Cursor)
    requires start <= |text|
    ensures ReadText(text[start..], quote).place == Where(text, next)
    ensures next != NoCursor ==> ReadText(text[start..], quote).text == value
  {
    hide GetEntity, ReadText;
    ghost var whole := ReadText(text[start..], quote);
    var p := start;
    value := "";
    while p < |text| && text[p] != quote
      invariant start <= p <= |text|
      invariant whole == Reading(value + ReadText(text[p..], quote).text, ReadText(text[p..], quote).place)
      decreases |text| - p
    {
      ReadTextStep(text, p, quote);
      var out, after;
      if text[p] == '&' {
        out, after := ReadEntity(text, p);
      } else {
        out, after := [text[p]], At(p + 1);
      }
      value := value + out;
      if after == NoCursor { return value, NoCursor; }
      p := after.i;
    }
    ReadTextStep(text, p, quote);
    next := At(p + 1);
  }

  /** ReadText by one character. */
  lemma ReadTextStep(text: string, p: nat, quote: char)
    requires p <= |text|
    ensures p == |text| ==> ReadText(text[p..], quote) == Reading("", Beyond)
    ensures p < |text| && text[p] == quote ==> ReadText(text[p..], quote) == Reading("", Left(text[p + 1..]))
    ensures p < |text| && text[p] != quote ==>
              match GetChar(text[p..])
              case Null => ReadText(text[p..], quote) == Reading("", Lost)
              case Step(out, used) =>
                var r := ReadText(text[p + used..], quote);
                ReadText(text[p..], quote) == Reading(out + r.text, r.place)
  {
    if p < |text| {
      DropDrop(text, p, 1);
      var step := GetChar(text[p..]);
      if step.Step? { DropDrop(text, p, step.used); }
    }
  }

  method SkipWhiteSpace(text: string, start: nat) returns (p: nat)
    requires start <= |text|
    ensures start <= p <= |text| && p == start + SpaceLength(text[start..])
    ensures text[p..] == SkipSpace(text[start..])
  {
    p := start;
    while p < |text| && IsSpace(text[p])
      invariant start <= p <= |text| && p + SpaceLength(text[p..]) == start + SpaceLength(text[start..])
    {
      DropDrop(text, p, 1);
      p := p + 1;
    }
    DropDrop(text, start, p - start);
  }

  /** ReadName: the cursor after the name, null where no name starts. */
  method ReadName(text: string, start: nat) returns (name: string, next: Cursor)
    requires start <= |text|
    ensures next == NoCursor <==> start == |text| || !NameStart(text[start])
    ensures next != NoCursor ==> next == At(start + NameLength(text[start..])) && name == text[start..next.i]
  {
    name := "";
    if start == |text| || !NameStart(text[start]) { return name, NoCursor; }
    var p := start;
    while p < |text| && NameChar(text[p])
      invariant start <= p <= |text| && p - start + NameLength(text[p..]) == NameLength(text[start..])
    {
      DropDrop(text, p, 1);
      p := p + 1;
    }
    name, next := text[start..p], At(p);
  }

  /** The loop for a value without quotes. */
  method ReadBare(text: string, start: nat) returns (value: string, next: Cursor)
    requires start <= |text|
    ensures next == NoCursor <==> BareLength(text[start..]).None?
    ensures next != NoCursor ==> next == At(start + BareLength(text[start..]).value) && value == text[start..next.i]
  {
    var p := start;
    value := "";
    while p < |text| && !IsSpace(text[p]) && text[p] != '/' && text[p] != '>'
      invariant start <= p <= |text| && value == text[start..p]
      invariant BareLength(text[start..]).None? <==> BareLength(text[p..]).None?
      invariant BareLength(text[p..]).Some? ==> BareLength(text[start..]).value == p - start + BareLength(text[p..]).value
    {
      if text[p] == '\'' || text[p] == '"' { return value, NoCursor; }
      DropDrop(text, p, 1);
      value := value + [text[p]];
      p := p + 1;
    }
    next := At(p);
  }

  /** The value of an attribute, quoted or not. */
  method ReadValue(text: string, p: nat, ghost name: string) returns (value: string, next: Cursor)
    requires p <= |text|
    ensures ParseValue(name, text[p..]) == if next == NoCursor then Refused else Parsed(name, value, Where(text, next))
  {
    hide BareLength, ReadText;
    if p == |text| { return "", NoCursor; }
    if text[p] == '\'' || text[p] == '"' {
      DropDrop(text, p, 1);
      value, next := ReadQuoted(text, p + 1, text[p]);
    } else {
      value, next := ReadBare(text, p);
      if next != NoCursor {
        DropSlice(text, p, 0, next.i - p);
        DropDrop(text, p, next.i - p);
      }
    }
  }

  /** From the equals sign on. */
  method ReadRest(text: string, start: nat, ghost name: string) returns (value: string, next: Cursor)
    requires start <= |text|
    ensures ParseRest(name, text[start..]) == if next == NoCursor then Refused else Parsed(name, value, Where(text, next))
  {
    hide SkipSpace, ParseValue;
    if start == |text| || text[start] != '=' { return "", NoCursor; }
    DropDrop(text, start, 1);
    var p := SkipWhiteSpace(text, start + 1);
    value, next := ReadValue(text, p, name);
  }

  lemma {:induction false} ParseFrom(text: string, start: nat, p: nat)
    requires start <= |text| && p <= |text| && text[p..] == SkipSpace(text[start..])
    ensures p == |text| || !NameStart(text[p]) ==> Parse(text[start..]) == Refused
    ensures p < |text| && NameStart(text[p]) ==>
              var m := p + NameLength(text[p..]); Parse(text[start..]) == ParseRest(text[p..m], SkipSpace(text[m..]))
  {
    hide SkipSpace, NameLength, ParseRest;
    var n := NameLength(text[p..]);
    DropSlice(text, p, 0, n);
    DropDrop(text, p, n);
  }

  /** TiXmlAttribute::Parse */
  method ParseAttribute(text: string, start: nat) returns (name: string, value: string, next: Cursor)
    requires start <= |text|
    ensures Parse(text[start..]) == if next == NoCursor then Refused else Parsed(name, value, Where(text, next))
  {
    hide Parse, ParseRest, SkipSpace, SpaceLength, NameLength;
    name, value, next := "", "", NoCursor;
    var p := SkipWhiteSpace(text, start);
    ParseFrom(text, start, p);
    if p == |text| { return; }
    var after;
    name, after := ReadName(text, p);
    if after == NoCursor { return; }
    var q := SkipWhiteSpace(text, after.i);
    value, next := ReadRest(text, q, name);
  }

  /** TiXmlAttribute::Print into a string */
  method PrintAttribute(name: string, value: string) returns (text: string)
    ensures text == Print(name, value)
  {
    hide Encode;
    var n := EncodeString(name);
    var v := EncodeString(value);
    if '"' !in value {
      text := n + "=\"" + v + "\"";
    } else {
      text := n + "='" + v + "'";
    }
  }

  /** What PrintAttribute writes, ParseAttribute reads back in place, exactly when the
      value holds no "&#x". */
  method PrintThenParse(name: string, value: string, rest: string) returns (n: string, v: string, next: Cursor)
    requires ValidName(name)
    ensures !HoldsHexRef(value) <==> next == At(|Print(name, value)|) && n == name && v == value
  {
    var text := PrintAttribute(name, value);
    n, v, next := ParseAttribute(text + rest, 0);
    assert (text + rest)[0..] == text + rest;
    AttributeRoundTrip(name, value, rest);
    assert Where(text + rest, At(|text|)) == Left(rest) by { assert (text + rest)[|text|..] == rest; }
  }
}
