/** Sections 2.3, 4.1 and 4.6 of XML 1.0 in a single-byte encoding: how the characters of an
    attribute value may be spelled, with tables of their own, and what Parse and Print make
    of spellings. */
module XmlSpelling {
  import opened JsonString
  import opened Numerals
  import opened Options
  import opened XmlAttributeText

  // ------------------------------------------------------------ the tables

  /** The predefined entities and the code numbers of their characters. */
  const ENTITIES: seq<(string, nat)> := [("amp", 38), ("lt", 60), ("gt", 62), ("quot", 34), ("apos", 39)]

  predicate Named(e: string, code: nat) { exists i :: 0 <= i < 5 && e == "&" + ENTITIES[i].0 + ";" && code == ENTITIES[i].1 }

  ghost predicate Reference(e: string, digits: string, base: nat, n: nat) {
    ((base == 10 && e == "&#" + digits + ";") || (base == 16 && e == "&#x" + digits + ";")) && Writes(digits, base, n)
  }

  /** A spelling of one character between two quotes; of a referenced number the low byte
      is taken. */
  ghost predicate Piece(e: string, c: char, quote: char) {
    || (e == [c] && c != '&' && c != quote)
    || Named(e, c as nat)
    || exists digits: string, base: nat, n: nat :: Reference(e, digits, base, n) && c as nat == n % 256
  }

  ghost predicate Pieces(es: seq<string>, cs: string, quote: char) {
    |es| == |cs| && forall i :: 0 <= i < |es| ==> Piece(es[i], cs[i], quote)
  }

  predicate IsQuote(c: char) { c as nat == 34 || c as nat == 39 }

  predicate Letter(c: char) {
    65 <= c as nat <= 90 || 97 <= c as nat <= 122 || c as nat >= 127
  }

  predicate XmlName(name: string) {
    && name != "" && (Letter(name[0]) || name[0] == '_')
    && forall i :: 0 <= i < |name| ==> Letter(name[i]) || 48 <= name[i] as nat <= 57 || name[i] in "_-.:"
  }

  predicate Blank(c: char) { c as nat in {9, 10, 11, 12, 13, 32} }

  predicate Blanks(s: string) { forall i :: 0 <= i < |s| ==> Blank(s[i]) }

  // -------------------------------------------------------------- reading

  /** A number is read by place value, whatever is in front of the stop. */
  lemma {:induction false} NumberIsPlace(front: string, stop: char, digits: string, ds: seq<nat>, base: nat)
    requires (base == 10 && stop == '#') || (base == 16 && stop == 'x')
    requires Numeral(digits, ds, base)
    ensures Number(front + [stop] + digits, base, stop) == Some(PlaceValue(ds, base))
    decreases |digits|
  {
    hide PlaceValue, Numeral, DigitIs, Digit, Number;
    if digits == "" {
      NumberStops(front, stop, base);
      NothingWritten(digits, ds, base);
      assert front + [stop] + digits == front + [stop];
    } else {
      var k := |digits| - 1;
      LastDigit(digits, ds, base);
      NumberIsPlace(front, stop, digits[..k], ds[..k], base);
      DigitReads(digits[k], ds[k], base);
      NumberGrows(front + [stop] + digits[..k], digits[k], base, stop);
      assert front + [stop] + digits == front + [stop] + digits[..k] + [digits[k]];
    }
  }

  lemma NothingWritten(digits: string, ds: seq<nat>, base: nat)
    requires Numeral(digits, ds, base) && digits == ""
    ensures PlaceValue(ds, base) == 0
  {
  }

  lemma {:induction false} LastDigit(digits: string, ds: seq<nat>, base: nat)
    requires Numeral(digits, ds, base) && digits != ""
    ensures var k := |digits| - 1;
            && |ds| == |digits| && Numeral(digits[..k], ds[..k], base) && DigitIs(digits[k], ds[k]) && ds[k] < base
            && PlaceValue(ds, base) == PlaceValue(ds[..k], base) * base + ds[k]
  {
    LastPlace(ds, base);
  }

  lemma {:induction false} NumberStops(front: string, stop: char, base: nat)
    ensures Number(front + [stop], base, stop) == Some(0)
  {
  }

  lemma {:induction false} NumberGrows(t: string, c: char, base: nat, stop: char)
    requires c != stop && Digit(c, base).Some? && Number(t, base, stop).Some?
    ensures Number(t + [c], base, stop) == Some(Number(t, base, stop).value * base + Digit(c, base).value)
  {
    assert (t + [c])[..|t|] == t;
  }

  lemma DigitReads(c: char, d: nat, base: nat)
    requires DigitIs(c, d) && d < base && (base == 10 || base == 16)
    ensures Digit(c, base) == Some(d) && c != 'x' && c != '#' && c != ';'
  {
  }

  lemma NoMark(digits: string, ds: seq<nat>, base: nat, i: nat)
    requires Numeral(digits, ds, base) && i < |digits| && (base == 10 || base == 16)
    ensures digits[i] != 'x' && digits[i] != '#' && digits[i] != ';'
  {
    DigitReads(digits[i], ds[i], base);
  }

  /** Behind the stop of a reference: digits up to the first semicolon. */
  lemma {:induction false} DigitsRead(front: string, stop: char, digits: string, base: nat, n: nat, t: string)
    requires (base == 10 && stop == '#') || (base == 16 && stop == 'x')
    requires Writes(digits, base, n)
    ensures var w := front + [stop] + digits + ([';'] + t);
            CharacterReference(w, |front| + 1, base, stop) == Step([LowByte(n)], |front| + |digits| + 2)
    ensures digits != "" && digits[0] != 'x'
  {
    var ds: seq<nat> :| Numeral(digits, ds, base) && PlaceValue(ds, base) == n;
    NumberIsPlace(front, stop, digits, ds, base);
    NoMark(digits, ds, base, 0);
    forall i | 0 <= i < |digits| ensures digits[i] != ';' { NoMark(digits, ds, base, i); }
    hide Numeral, PlaceValue, Number;
    SemicolonHere(front + [stop], digits, t);
    var head := front + [stop] + digits;
    assert (head + ([';'] + t))[..|head|] == head;
    hide FindFrom;
  }

  lemma {:induction false} SemicolonHere(front: string, digits: string, t: string)
    requires forall i :: 0 <= i < |digits| ==> digits[i] != ';'
    ensures FindFrom(front + digits + ([';'] + t), |front|, ';') == |front| + |digits|
  {
    var w := front + digits + ([';'] + t);
    assert forall j :: |front| <= j < |front| + |digits| ==> w[j] == digits[j - |front|];
    FindIs(w, |front|, ';', |front| + |digits|);
  }

  lemma {:induction false} ReferenceRead(e: string, digits: string, base: nat, n: nat, t: string)
    requires Reference(e, digits, base, n)
    ensures GetChar(e + t) == Step([LowByte(n)], |e|) && e[0] == '&'
  {
    hide Writes, CharacterReference;
    var front, stop := if base == 10 then "&" else "&#", if base == 10 then '#' else 'x';
    DigitsRead(front, stop, digits, base, n, t);
    var w := front + [stop] + digits + ([';'] + t);
    assert e + t == w && |e| == |front| + |digits| + 2;
    assert w[1] == '#' && w[2] == if base == 10 then digits[0] else 'x';
  }

  lemma NamedRead(e: string, c: char, t: string)
    requires Named(e, c as nat)
    ensures GetChar(e + t) == Step([c], |e|) && e[0] == '&'
  {
    var w := e + t;
    assert w[..|e|] == e && w[0] == e[0] && w[1] == e[1] && w[2] == e[2];
    var i :| 0 <= i < 5 && e == "&" + ENTITIES[i].0 + ";" && c as nat == ENTITIES[i].1;
    assert e == ["&amp;", "&lt;", "&gt;", "&quot;", "&apos;"][i];
    hide CharacterReference;
    if i == 0 {
      assert Starts(w, "&amp;");
    } else if i == 1 {
      assert !Starts(w, "&amp;") && Starts(w, "&lt;");
    } else if i == 2 {
      assert !Starts(w, "&amp;") && !Starts(w, "&lt;") && Starts(w, "&gt;");
    } else if i == 3 {
      assert !Starts(w, "&amp;") && !Starts(w, "&lt;") && !Starts(w, "&gt;") && Starts(w, "&quot;");
    } else {
      assert !Starts(w, "&amp;") && !Starts(w, "&lt;") && !Starts(w, "&gt;") && !Starts(w, "&quot;") && Starts(w, "&apos;");
    }
  }

  lemma {:induction false} PieceRead(e: string, c: char, quote: char, t: string)
    requires Piece(e, c, quote) && IsQuote(quote)
    ensures ReadText(e + t, quote) == Reading([c] + ReadText(t, quote).text, ReadText(t, quote).place)
  {
    hide ReadText;
    var w := e + t;
    if e == [c] && c != '&' && c != quote {
      assert w[0] == c;
    } else if Named(e, c as nat) {
      NamedRead(e, c, t);
    } else {
      var digits: string, base: nat, n: nat :| Reference(e, digits, base, n) && c as nat == n % 256;
      ReferenceRead(e, digits, base, n, t);
    }
    assert w[|e|..] == t && |w| - |t| == |e|;
    ReadOn(w, quote, [c], t);
  }

  /** Text between quotes, spelled in any mix, is read as the characters it spells. */
  lemma {:induction false} PiecesRead(es: seq<string>, cs: string, quote: char, rest: string)
    requires Pieces(es, cs, quote) && IsQuote(quote)
    ensures ReadText(Flatten(es) + ([quote] + rest), quote) == Reading(cs, Left(rest))
    decreases |es|
  {
    hide Piece, Pieces, ReadText;
    if es == [] {
      assert Flatten(es) + ([quote] + rest) == [quote] + rest;
      assert cs == "" by { NoPieces(es, cs, quote); }
      ReadClose(quote, rest);
    } else {
      var tail := Flatten(es[1..]) + ([quote] + rest);
      FirstPiece(es, cs, quote);
      PiecesRead(es[1..], cs[1..], quote, rest);
      PieceRead(es[0], cs[0], quote, tail);
      assert Flatten(es) + ([quote] + rest) == es[0] + tail;
      assert [cs[0]] + cs[1..] == cs;
    }
  }

  lemma {:induction false} NoPieces(es: seq<string>, cs: string, quote: char)
    requires Pieces(es, cs, quote) && es == []
    ensures cs == ""
  {
  }

  lemma {:induction false} FirstPiece(es: seq<string>, cs: string, quote: char)
    requires Pieces(es, cs, quote) && es != []
    ensures cs != "" && Piece(es[0], cs[0], quote) && Pieces(es[1..], cs[1..], quote)
  {
    hide Piece;
    assert Piece(es[0], cs[0], quote);
    assert forall i :: 0 <= i < |es[1..]| ==> es[1..][i] == es[i + 1] && cs[1..][i] == cs[i + 1];
  }

  /** A reference is refused when no semicolon follows, or when behind the last stop in front
      of it there is something else than digits. */
  lemma {:induction false} ReferenceRefused(front: string, stop: char, mid: string, t: string, base: nat, quote: char)
    requires IsQuote(quote) && ((base == 10 && stop == '#' && front == "&") || (base == 16 && stop == 'x' && front == "&#"))
    requires ';' !in mid && stop !in mid && (base == 10 ==> mid != "" && mid[0] != 'x')
    requires (t == "" && mid != "") || (t != "" && t[0] == ';' && exists i :: 0 <= i < |mid| && Digit(mid[i], base).None?)
    ensures ReadText(front + [stop] + mid + t, quote).place.Lost?
  {
    var w, q := front + [stop] + mid + t, |front| + 1 + |mid|;
    assert forall j :: |front| + 1 <= j < q ==> w[j] == mid[j - |front| - 1];
    if t == "" {
      NotFound(w, |front| + 1, ';');
    } else {
      assert w[q] == ';';
      FindIs(w, |front| + 1, ';', q);
      assert w[..q] == front + [stop] + mid;
      NumberRefused(front, stop, mid, base);
    }
    hide Number, FindFrom;
    assert w[0] == '&' && w[1] == '#' && |w| >= 3 && w[2] == if base == 10 then mid[0] else 'x';
    assert GetChar(w) == Null;
    ReadLost(w, quote);
  }

  lemma {:induction false} NotFound(s: string, i: nat, c: char)
    requires i <= |s| && forall j :: i <= j < |s| ==> s[j] != c
    ensures FindFrom(s, i, c) == |s|
  {
  }

  lemma {:induction false} NumberRefused(front: string, stop: char, mid: string, base: nat)
    requires stop !in mid && exists i :: 0 <= i < |mid| && Digit(mid[i], base).None?
    ensures Number(front + [stop] + mid, base, stop) == None
    decreases |mid|
  {
    var k := |mid| - 1;
    assert (front + [stop] + mid)[..|front| + 1 + k] == front + [stop] + mid[..k];
    assert mid[k] in mid;
    if Digit(mid[k], base).Some? {
      var i :| 0 <= i < |mid| && Digit(mid[i], base).None?;
      assert mid[..k][i] == mid[i];
      NumberRefused(front, stop, mid[..k], base);
    }
  }

  lemma NotNamed(t: string, name: string)
    requires !(name + ";" <= t)
    ensures !Starts("&" + t, "&" + name + ";")
  {
    var e, w := "&" + name + ";", "&" + t;
    if |e| <= |w| {
      assert w[..|e|] == "&" + t[..|name| + 1];
      assert e == "&" + (name + ";") && e[1..] == name + ";" && ("&" + t[..|name| + 1])[1..] == t[..|name| + 1];
    }
  }

  /** An ampersand in front of neither an entity's name nor a number sign is dropped. */
  lemma {:induction false} StrayAmpersand(t: string, quote: char)
    requires IsQuote(quote) && t != "" && t[0] != '#'
    requires forall i :: 0 <= i < 5 ==> !(ENTITIES[i].0 + ";" <= t)
    ensures ReadText("&" + t, quote) == ReadText(t, quote)
  {
    var w := "&" + t;
    NotNamed(t, ENTITIES[0].0);
    NotNamed(t, ENTITIES[1].0);
    NotNamed(t, ENTITIES[2].0);
    NotNamed(t, ENTITIES[3].0);
    NotNamed(t, ENTITIES[4].0);
    assert GetChar(w) == Step("", 1);
    hide ReadText, GetChar;
    assert w[1..] == t;
    ReadOn(w, quote, "", t);
    assert "" + ReadText(t, quote).text == ReadText(t, quote).text;
  }

  // -------------------------------------------------------------- parsing

  lemma {:induction false} BlanksSkipped(blanks: string, t: string)
    requires Blanks(blanks) && (t == "" || !Blank(t[0]))
    ensures SkipSpace(blanks + t) == t
    decreases |blanks|
  {
    var w := blanks + t;
    if blanks == "" {
      assert w == t;
    } else {
      assert w[1..] == blanks[1..] + t && Blank(w[0]);
      BlanksSkipped(blanks[1..], t);
      assert w[SpaceLength(w)..] == w[1..][SpaceLength(w[1..])..];
    }
  }

  lemma NameCharacters(name: string)
    requires XmlName(name)
    ensures ValidName(name) && !Blank(name[0])
  {
  }

  /** Up to the value: white space, a name, and an equals sign with white space around it. */
  lemma {:induction false} HeadParsed(a: string, name: string, b: string, c: string, t: string)
    requires Blanks(a) && XmlName(name) && Blanks(b) && Blanks(c) && t != "" && !Blank(t[0])
    ensures Parse(a + (name + (b + ("=" + (c + t))))) == ParseValue(name, t)
  {
    var s4 := "=" + (c + t);
    var s3 := b + s4;
    var s2 := name + s3;
    NameCharacters(name);
    BlanksSkipped(a, s2);
    BlanksSkipped(b, s4);
    BlanksSkipped(c, t);
    assert !NameChar(s3[0]) by { if b != "" { assert Blank(b[0]); } }
    NameEnds(name, s3);
    hide SkipSpace, NameLength, NameStart, NameChar, ParseValue;
    assert s2[..|name|] == name && s2[|name|..] == s3;
    assert s4[1..] == c + t;
  }

  /** An attribute in quotes. */
  lemma {:induction false} SpelledAttribute(a: string, name: string, b: string, c: string, quote: char, es: seq<string>, cs: string, rest: string)
    requires Blanks(a) && XmlName(name) && Blanks(b) && Blanks(c) && IsQuote(quote) && Pieces(es, cs, quote)
    ensures Parse(a + (name + (b + ("=" + (c + ([quote] + (Flatten(es) + ([quote] + rest)))))))) == Parsed(name, cs, Left(rest))
  {
    var body := Flatten(es) + ([quote] + rest);
    var t := [quote] + body;
    HeadParsed(a, name, b, c, t);
    PiecesRead(es, cs, quote, rest);
    assert t[0] == quote && t[1..] == body;
    hide Parse, ReadText, Flatten, BareLength;
  }

  /** What ends a value without quotes, and what spoils it. */
  predicate BareEnd(c: char) { Blank(c) || c as nat == 47 || c as nat == 62 }

  lemma {:induction false} BareExtent(value: string, t: string)
    requires forall i :: 0 <= i < |value| ==> !BareEnd(value[i]) && !IsQuote(value[i])
    requires t == "" || BareEnd(t[0]) || IsQuote(t[0])
    ensures BareLength(value + t) == if t != "" && IsQuote(t[0]) then None else Some(|value|)
    decreases |value|
  {
    var w := value + t;
    if value == "" {
      assert w == t;
    } else {
      assert w[1..] == value[1..] + t && w[0] == value[0];
      BareExtent(value[1..], t);
    }
  }

  /** A value without quotes runs up to white space, a slash or a closing bracket; a quote
      inside it refuses the attribute. */
  lemma {:induction false} BareAttribute(a: string, name: string, b: string, c: string, value: string, t: string)
    requires Blanks(a) && XmlName(name) && Blanks(b) && Blanks(c) && value != ""
    requires forall i :: 0 <= i < |value| ==> !BareEnd(value[i]) && !IsQuote(value[i])
    requires t == "" || BareEnd(t[0]) || IsQuote(t[0])
    ensures Parse(a + (name + (b + ("=" + (c + (value + t)))))) ==
            if t != "" && IsQuote(t[0]) then Refused else Parsed(name, value, Left(t))
  {
    var w := value + t;
    assert w[0] == value[0];
    HeadParsed(a, name, b, c, w);
    BareExtent(value, t);
    hide Parse, ReadText, BareLength;
    assert w[..|value|] == value && w[|value|..] == t;
  }

  // ------------------------------------------------------------- printing

  function EncodedPieces(s: string): (es: seq<string>)
    ensures |es| == |s|
  {
    if s == "" then [] else [Entity(s[0])] + EncodedPieces(s[1..])
  }

  /** A value without hexadecimal references is written as a spelling of itself, for either
      quote, and nothing in it looks like markup. */
  lemma {:induction false} EncodeSpells(s: string, quote: char)
    requires IsQuote(quote) && !HoldsHexRef(s)
    ensures Encode(s) == Flatten(EncodedPieces(s)) && Pieces(EncodedPieces(s), s, quote)
    ensures forall i :: 0 <= i < |Encode(s)| ==> Encode(s)[i] as nat !in {34, 39, 60, 62} && Encode(s)[i] as nat >= 32
  {
    if s != "" {
      HoldsTail(s);
      EncodeSpells(s[1..], quote);
      EncodePlain(s);
      EntitySpells(s[0], quote);
      hide Entity, Encode, Piece, HoldsHexRef;
      assert forall i :: 0 < i < |s| ==> s[i] == s[1..][i - 1] && EncodedPieces(s)[i] == EncodedPieces(s[1..])[i - 1];
    }
  }

  lemma EntitySpells(c: char, quote: char)
    requires IsQuote(quote)
    ensures Piece(Entity(c), c, quote)
    ensures forall i :: 0 <= i < |Entity(c)| ==> Entity(c)[i] as nat !in {34, 39, 60, 62} && Entity(c)[i] as nat >= 32
  {
    var e := Entity(c);
    if c in "&<>\"'" {
      NamedSpells(c);
    } else if c as nat < 32 {
      ControlSpells(c);
    }
  }

  lemma NamedSpells(c: char)
    requires c in "&<>\"'"
    ensures Named(Entity(c), c as nat)
  {
    var i := if c == '&' then 0 else if c == '<' then 1 else if c == '>' then 2 else if c == '"' then 3 else 4;
    assert Entity(c) == "&" + ENTITIES[i].0 + ";" && c as nat == ENTITIES[i].1;
  }

  lemma ControlSpells(c: char)
    requires c as nat < 32
    ensures exists digits: string, base: nat, n: nat :: Reference(Entity(c), digits, base, n) && c as nat == n % 256
  {
    TwoDigits(c);
    hide Reference;
  }

  lemma TwoDigits(c: char)
    requires c as nat < 32
    ensures |Entity(c)| == 6 && Reference(Entity(c), Entity(c)[3..5], 16, c as nat)
  {
    var ds: seq<nat> := [c as nat / 16, c as nat % 16];
    var digits := [HexDigit(ds[0]), HexDigit(ds[1])];
    assert Entity(c)[3..5] == digits && Entity(c) == "&#x" + digits + ";";
    hide Entity;
    LastPlace(ds, 16);
    LastPlace(ds[..1], 16);
    assert Numeral(digits, ds, 16);
  }

  /** Which spelling the writer chooses: the entity if there is one, for a control character
      two hexadecimal digits, and otherwise the character itself. */
  lemma {:induction false} EntityChoice(c: char)
    ensures c as nat in {38, 60, 62, 34, 39} ==> Named(Entity(c), c as nat)
    ensures c as nat < 32 ==> |Entity(c)| == 6 && Reference(Entity(c), Entity(c)[3..5], 16, c as nat)
    ensures c as nat >= 32 && c as nat !in {38, 60, 62, 34, 39} ==> Entity(c) == [c]
  {
    if c as nat in {38, 60, 62, 34, 39} {
      NamedSpells(c);
    } else if c as nat < 32 {
      TwoDigits(c);
    }
  }

  /** Print: the name, an equals sign and the spelled value, in single quotes exactly when
      the value holds a double one. */
  lemma {:induction false} PrintSpells(name: string, value: string)
    requires XmlName(name) && !HoldsHexRef(value)
    ensures exists es: seq<string>, quote: char ::
              && Print(name, value) == name + ("=" + ([quote] + (Flatten(es) + [quote])))
              && Pieces(es, value, quote) && (quote as nat == if '"' in value then 39 else 34)
  {
    var quote := QuoteFor(value);
    assert quote as nat == if '"' in value then 39 else 34;
    NameCharacters(name);
    NamesStay(name);
    EncodeSpells(value, quote);
    hide Encode, Pieces, HoldsHexRef, Flatten, EncodedPieces, XmlName, ValidName, NameChar;
    assert Print(name, value) == name + ("=" + ([quote] + (Flatten(EncodedPieces(value)) + [quote])));
  }
}
