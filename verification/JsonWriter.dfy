/** FastWriter, the token sequence a tree denotes, and the proof that the writer
    spells exactly that sequence. */
module JsonWriter {
  import opened JsonNumber
  import opened JsonScanner
  import opened JsonString
  import opened JsonValue

  // ------------------------------------------------------ walking a tree

  /** Nested readValue calls a tree needs. */
  function Levels(v: Value): (n: nat)
    ensures n >= 1
    decreases v, 1
  {
    if v.payload.Container() then 1 + MaxLevels(v.payload.items) else 1
  }

  function MaxLevels(items: seq<Entry>): nat
    decreases items, 0
  {
    if items == [] then 0
    else
      assert items decreases to items[0];
      var a, b := Levels(items[0].value), MaxLevels(items[1..]);
      if a > b then a else b
  }

  lemma {:induction false} MaxLevelsBounds(items: seq<Entry>, i: nat)
    requires i < |items|
    ensures Levels(items[i].value) <= MaxLevels(items)
  {
    if i > 0 { MaxLevelsBounds(items[1..], i - 1); }
  }

  /** One child as a writer meets it: a member's name and its value, or an
      array slot (a missing slot reads as null). */
  datatype Slot = Slot(named: bool, name: string, value: Value)

  function SlotAt(v: Value, i: nat): (s: Slot)
    requires v.payload.Container() && i < Size(v)
    ensures Levels(s.value) < Levels(v)
    ensures s.named == v.payload.Object?
  {
    var items := v.payload.items;
    if v.payload.Array? then
      if Has(items, Index(i)) then
        MaxLevelsBounds(items, LowerBound(items, Index(i)));
        Slot(false, "", Get(items, Index(i)))
      else
        MaxLevelsBounds(items, 0);
        Slot(false, "", NULL_VALUE)
    else
      MaxLevelsBounds(items, i);
      Slot(true, if items[i].key.Name? then items[i].key.text else "", items[i].value)
  }

  // ----------------------------------------------------------- the words

  /** The name a writer prints: StyledWriter passes it through a C string. */
  function Printed(cStrings: bool, name: string): string {
    if cStrings then CText(name + [NUL]) else name
  }

  const COMMA := Word(ArraySeparator, ",")
  const COLON := Word(MemberSeparator, ":")

  /** The token sequence of a tree. */
  function Words(c: bool, v: Value): seq<Word>
    decreases Levels(v), 1, 0
  {
    match v.payload
    case Null => [Word(NullWord, "null")]
    case Int(i) => [Word(Number, SignedDecimal(i))]
    case UInt(u) => [Word(Number, SignedDecimal(u))]
    case Real(_) => []
    case Str(s) => [Word(StringText, Quoted(s))]
    case Bool(b) => if b then [Word(True, "true")] else [Word(False, "false")]
    case Array(_) => [Word(ArrayBegin, "[")] + SlotWords(c, v, 0) + [Word(ArrayEnd, "]")]
    case Object(_) => [Word(ObjectBegin, "{")] + SlotWords(c, v, 0) + [Word(ObjectEnd, "}")]
  }

  /** The children from the i-th on, separated by commas. */
  function SlotWords(c: bool, v: Value, i: nat): seq<Word>
    requires v.payload.Container() && i <= Size(v)
    decreases Levels(v), 0, Size(v) - i
  {
    if i == Size(v) then []
    else (if i > 0 then [COMMA] else []) + NameWords(c, SlotAt(v, i)) + Words(c, SlotAt(v, i).value) + SlotWords(c, v, i + 1)
  }

  /** The words of the children from the i-th on, without a leading comma. */
  function LaterWords(c: bool, v: Value, i: nat): seq<Word>
    requires v.payload.Container() && i <= Size(v)
  {
    if i == Size(v) then []
    else NameWords(c, SlotAt(v, i)) + Words(c, SlotAt(v, i).value) + SlotWords(c, v, i + 1)
  }

  lemma CommaWords(c: bool, v: Value, i: nat)
    requires v.payload.Container() && 0 < i <= Size(v)
    ensures SlotWords(c, v, i) == if i < Size(v) then [COMMA] + LaterWords(c, v, i) else []
  {
    hide Words, NameWords;
  }

  function NameWords(c: bool, s: Slot): seq<Word> {
    if s.named then [Word(StringText, Quoted(Printed(c, s.name))), COLON] else []
  }

  /** No double anywhere in the tree. */
  predicate RealFree(v: Value)
    decreases Levels(v), 1, 0
  {
    !v.payload.Real? && (v.payload.Container() ==> SlotsRealFree(v, 0))
  }

  predicate SlotsRealFree(v: Value, i: nat)
    requires v.payload.Container() && i <= Size(v)
    decreases Levels(v), 0, Size(v) - i
  {
    i == Size(v) || (RealFree(SlotAt(v, i).value) && SlotsRealFree(v, i + 1))
  }

  /** No member name anywhere in the tree contains a NUL. */
  predicate NulFreeNames(v: Value)
    decreases Levels(v), 1, 0
  {
    v.payload.Container() ==> SlotsNulFree(v, 0)
  }

  predicate SlotsNulFree(v: Value, i: nat)
    requires v.payload.Container() && i <= Size(v)
    decreases Levels(v), 0, Size(v) - i
  {
    i == Size(v) || (NUL !in SlotAt(v, i).name && NulFreeNames(SlotAt(v, i).value) && SlotsNulFree(v, i + 1))
  }

  // ---------------------------------------------------------- FastWriter

  datatype FastOptions = FastOptions(
    yaml: bool, dropNulls: bool, omitLineFeed: bool, showReal: real -> string)

  function BoolText(b: bool): string { if b then "true" else "false" }

  function FastText(o: FastOptions, v: Value): string
    decreases Levels(v), 1, 0
  {
    match v.payload
    case Null => if o.dropNulls then "" else "null"
    case Int(i) => SignedDecimal(i)
    case UInt(u) => SignedDecimal(u)
    case Real(r) => o.showReal(r)
    case Str(s) => Quoted(s)
    case Bool(b) => BoolText(b)
    case Array(_) => "[" + FastSlots(o, v, 0) + "]"
    case Object(_) => "{" + FastSlots(o, v, 0) + "}"
  }

  function FastSlots(o: FastOptions, v: Value, i: nat): string
    requires v.payload.Container() && i <= Size(v)
    decreases Levels(v), 0, Size(v) - i
  {
    if i == Size(v) then ""
    else FastName(o, SlotAt(v, i), i) + FastText(o, SlotAt(v, i).value) + FastSlots(o, v, i + 1)
  }

  /** Separator and member name in front of the i-th child. */
  function FastName(o: FastOptions, s: Slot, i: nat): string {
    (if i > 0 then "," else "") + (if s.named then Quoted(s.name) + (if o.yaml then ": " else ":") else "")
  }

  function FastDocument(o: FastOptions, v: Value): string {
    FastText(o, v) + (if o.omitLineFeed then "" else "\n")
  }

  class FastWriter {
    const options: FastOptions
    var document: string

    constructor (options: FastOptions)
      ensures this.options == options
    {
      this.options := options;
      document := "";
    }

    method Write(root: Value) returns (text: string)
      requires WellFormed(root)
      modifies this
      ensures text == FastDocument(options, root)
    {
      document := "";
      WriteValue(root);
      if !options.omitLineFeed {
        document := document + "\n";
      }
      text := document;
    }

    method WriteValue(v: Value)
      requires WellFormed(v)
      modifies this`document
      ensures document == old(document) + FastText(options, v)
      decreases Levels(v), 1
    {
      match v.payload
      case Null =>
        if !options.dropNulls { document := document + "null"; }
      case Int(i) =>
        var text := ValueToString(i);
        document := document + text;
      case UInt(u) =>
        var text := ValueToString(u);
        document := document + text;
      case Real(r) =>
        document := document + options.showReal(r);
      case Str(s) =>
        var text := ValueToQuotedStringN(s + [NUL], |s|);
        assert (s + [NUL])[..|s|] == s;
        document := document + text;
      case Bool(b) =>
        document := document + BoolText(b);
      case Array(_) => WriteArray(v);
      case Object(_) => WriteObject(v);
    }

    method WriteArray(v: Value)
      requires WellFormed(v) && v.payload.Array?
      modifies this`document
      ensures document == old(document) + FastText(options, v)
      decreases Levels(v), 0
    {
      hide FastSlots;
      document := document + "[";
      WriteSlots(v);
      document := document + "]";
      Regroup(old(document), "[", FastSlots(options, v, 0), "]");
    }

    method WriteObject(v: Value)
      requires WellFormed(v) && v.payload.Object?
      modifies this`document
      ensures document == old(document) + FastText(options, v)
      decreases Levels(v), 0
    {
      hide FastSlots;
      document := document + "{";
      WriteSlots(v);
      document := document + "}";
      Regroup(old(document), "{", FastSlots(options, v, 0), "}");
    }

    /** The loops over array slots and over member names. */
    method WriteSlots(v: Value)
      requires WellFormed(v) && v.payload.Container()
      modifies this`document
      ensures document == old(document) + FastSlots(options, v, 0)
      decreases Levels(v), 0, 1
    {
      hide FastText, FastName, SlotAt, WellFormed;
      for index := 0 to Size(v)
        invariant document + FastSlots(options, v, index) == old(document) + FastSlots(options, v, 0)
      {
        ghost var start := document;
        WriteSlot(v, index);
        Regroup(start, FastName(options, SlotAt(v, index), index), FastText(options, SlotAt(v, index).value),
                FastSlots(options, v, index + 1));
      }
      assert document + "" == document;
    }

    method WriteSlot(v: Value, index: nat)
      requires WellFormed(v) && v.payload.Container() && index < Size(v)
      modifies this`document
      ensures document == old(document) + FastName(options, SlotAt(v, index), index) + FastText(options, SlotAt(v, index).value)
      decreases Levels(v), 0, 0
    {
      hide FastText, Quoted, WellFormed, Levels;
      ChildWellFormed(v, index);
      if index > 0 { document := document + ","; }
      if v.payload.Object? {
        WriteName(v.payload.items[index].key.text);
      }
      assert document == old(document) + FastName(options, SlotAt(v, index), index);
      if v.payload.Array? {
        WriteValue(Get(v.payload.items, Index(index)));
      } else {
        WriteValue(v.payload.items[index].value);
      }
    }

    method WriteName(name: string)
      modifies this`document
      ensures document == old(document) + (Quoted(name) + (if options.yaml then ": " else ":"))
    {
      var quoted := ValueToQuotedStringN(name + [NUL], |name|);
      assert (name + [NUL])[..|name|] == name;
      document := document + quoted;
      document := document + (if options.yaml then ": " else ":");
    }
  }

  lemma Regroup(a: string, b: string, c: string, d: string)
    ensures a + b + c + d == a + (b + c + d)
  {
  }

  lemma ChildWellFormed(v: Value, i: nat)
    requires WellFormed(v) && v.payload.Container() && i < Size(v)
    ensures WellFormed(SlotAt(v, i).value)
    ensures v.payload.Object? ==> v.payload.items[i].key.Name?
  {
    var items := v.payload.items;
    if v.payload.Object? {
      ItemWellFormed(items, i);
      assert items[i] in items;
    } else if Has(items, Index(i)) {
      ItemWellFormed(items, LowerBound(items, Index(i)));
    }
  }

  lemma {:induction false} ItemWellFormed(items: seq<Entry>, i: nat)
    requires AllWellFormed(items) && i < |items|
    ensures WellFormed(items[i].value)
  {
    if i > 0 { ItemWellFormed(items[1..], i - 1); }
  }

  // FastWriter spells the tree's words.

  lemma WordToken(kind: TokenType, text: string, rest: string)
    requires (kind, text) in {(NullWord, "null"), (True, "true"), (False, "false"), (ArrayBegin, "["), (ArrayEnd, "]"),
                              (ObjectBegin, "{"), (ObjectEnd, "}"), (ArraySeparator, ","), (MemberSeparator, ":")}
    ensures Tokens(text + rest) == [Word(kind, text)] + Tokens(rest)
  {
    if |text| > 1 {
      assert (text + rest)[1..] == text[1..] + rest;
      assert (text + rest)[1..][..|text| - 1] == text[1..];
    }
    assert IsToken(kind, text, rest);
    TokenInFront(kind, text, rest);
  }

  lemma ScalarTokens(o: FastOptions, v: Value, rest: string)
    requires !v.payload.Container() && !v.payload.Real? && !o.dropNulls && EndsNumber(rest)
    ensures Tokens(FastText(o, v) + rest) == Words(false, v) + Tokens(rest)
  {
    hide Tokens;
    match v.payload
    case Null => WordToken(NullWord, "null", rest);
    case Bool(b) => WordToken(if b then True else False, BoolText(b), rest);
    case Int(i) =>
      SignedDecimalIsToken(i, rest);
      TokenInFront(Number, SignedDecimal(i), rest);
    case UInt(u) =>
      SignedDecimalIsToken(u, rest);
      TokenInFront(Number, SignedDecimal(u), rest);
    case Str(s) =>
      QuotedIsToken(s, rest);
      TokenInFront(StringText, Quoted(s), rest);
  }

  /** Reading a name, a colon with or without a blank after it, and onwards. */
  lemma NameTokens(c: bool, s: Slot, gap: string, after: string, rest: string)
    requires s.named
    requires forall ch :: ch in gap + after ==> IsSpace(ch)
    ensures Tokens(Quoted(Printed(c, s.name)) + gap + ":" + after + rest) == NameWords(c, s) + Tokens(rest)
  {
    hide Tokens, Quoted, Printed, IsToken, IsSpace;
    var q := Quoted(Printed(c, s.name));
    var tail := after + rest;
    var colon := ":" + tail;
    var behind := gap + colon;
    assert q + gap + ":" + after + rest == q + behind;
    QuotedIsToken(Printed(c, s.name), behind);
    TokenInFront(StringText, q, behind);
    SpacesVanish(gap, colon);
    WordToken(MemberSeparator, ":", tail);
    SpacesVanish(after, rest);
  }

  /** FastWriter's text of a tree lexes as the tree's words. */
  lemma {:induction false} FastTokens(o: FastOptions, v: Value, rest: string)
    requires RealFree(v) && !o.dropNulls && EndsNumber(rest)
    ensures Tokens(FastText(o, v) + rest) == Words(false, v) + Tokens(rest)
    decreases Levels(v), 1, 0
  {
    hide Tokens, FastSlots, SlotWords;
    if !v.payload.Container() {
      ScalarTokens(o, v, rest);
    } else {
      var (open, close) := if v.payload.Array? then ("[", "]") else ("{", "}");
      var slots := FastSlots(o, v, 0);
      assert FastText(o, v) + rest == open + (slots + (close + rest));
      WordToken(if v.payload.Array? then ArrayBegin else ObjectBegin, open, slots + (close + rest));
      FastSlotsTokens(o, v, 0, close + rest);
      WordToken(if v.payload.Array? then ArrayEnd else ObjectEnd, close, rest);
    }
  }

  lemma {:induction false} FastSlotsTokens(o: FastOptions, v: Value, i: nat, rest: string)
    requires v.payload.Container() && i <= Size(v) && SlotsRealFree(v, i) && !o.dropNulls && EndsNumber(rest)
    ensures Tokens(FastSlots(o, v, i) + rest) == SlotWords(false, v, i) + Tokens(rest)
    decreases Levels(v), 0, Size(v) - i
  {
    hide Tokens, FastText, Words, RealFree;
    if i == Size(v) {
      assert FastSlots(o, v, i) + rest == rest;
    } else {
      var s := SlotAt(v, i);
      var tail := FastSlots(o, v, i + 1) + rest;
      var text := FastText(o, s.value) + tail;
      FastSlotsTokens(o, v, i + 1, rest);
      FastTailEndsNumber(o, v, i + 1, rest);
      FastTokens(o, s.value, tail);
      FastNameTokens(o, s, i, text);
      assert FastSlots(o, v, i) + rest == FastName(o, s, i) + text;
    }
  }

  lemma FastTailEndsNumber(o: FastOptions, v: Value, i: nat, rest: string)
    requires v.payload.Container() && 0 < i <= Size(v) && EndsNumber(rest)
    ensures EndsNumber(FastSlots(o, v, i) + rest)
  {
    hide FastText;
    if i == Size(v) {
      assert FastSlots(o, v, i) + rest == rest;
    } else {
      assert (FastSlots(o, v, i) + rest)[0] == ',';
    }
  }

  lemma FastNameTokens(o: FastOptions, s: Slot, i: nat, text: string)
    ensures Tokens(FastName(o, s, i) + text) == (if i > 0 then [COMMA] else []) + NameWords(false, s) + Tokens(text)
  {
    hide Tokens, NameWords, Quoted;
    var name := FastName(o, s, 0);
    assert Tokens(name + text) == NameWords(false, s) + Tokens(text) by {
      if s.named {
        var after := if o.yaml then " " else "";
        NameTokens(false, s, "", after, text);
        assert name == Quoted(s.name) + "" + ":" + after;
      } else {
        UnnamedTokens(false, s, name, text);
      }
    }
    if i > 0 {
      WordToken(ArraySeparator, ",", name + text);
      assert FastName(o, s, i) + text == "," + (name + text);
    }
  }

  lemma UnnamedTokens(c: bool, s: Slot, name: string, text: string)
    requires !s.named && name == ""
    ensures Tokens(name + text) == NameWords(c, s) + Tokens(text)
  {
    assert name + text == text;
  }

  lemma FastDocumentTokens(o: FastOptions, v: Value)
    requires RealFree(v) && !o.dropNulls
    ensures Tokens(FastDocument(o, v)) == Words(false, v)
  {
    hide Words, FastText;
    var rest := if o.omitLineFeed then "" else "\n";
    FastTokens(o, v, rest);
    SpacesVanish(rest, "");
    assert rest + "" == rest;
  }
}
