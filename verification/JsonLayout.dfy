/** The texts the two writers print, given as JSON texts with their blanks: FastWriter on one
    line, StyledWriter one child to a line unless a short array fits the margin. */
module JsonLayout {
  import opened JsonGrammar
  import opened JsonNumber
  import JsonParse
  import opened JsonScanner
  import opened JsonSpelling
  import opened JsonString
  import opened JsonValue
  import opened JsonWriter
  import opened Options
  import Writer = JsonStyledWriter

  // --------------------------------------------------------------- scalars

  function IntegerText(i: int): Json { NumberOf(i < 0, Decimal(if i < 0 then -i else i), "", "") }

  function StringJson(s: string): Json { StringOf(Pieces(s), Singles(s)) }

  function Titled(s: Slot, name: string, before: string, after: string): Option<Title> {
    if s.named then Some(Title(Pieces(name), Singles(name), before, after)) else None
  }

  function List(v: Value, parts: seq<Part>): Json
    requires v.payload.Container()
  {
    if v.payload.Array? then ArrayOf("", parts) else ObjectOf("", parts)
  }

  function Scalar(v: Value, dropNulls: bool, showReal: real -> string): Json
    requires !v.payload.Container()
  {
    match v.payload
    case Null => if dropNulls then Raw("") else NullText
    case Int(i) => IntegerText(i)
    case UInt(u) => IntegerText(u)
    case Real(r) => Raw(showReal(r))
    case Str(s) => StringJson(s)
    case Bool(b) => if b then TrueText else FalseText
  }

  // ------------------------------------------------------------ FastWriter

  /** No blanks at all, but one behind the colons for YAML. */
  function Compact(o: FastOptions, v: Value): Json
    decreases Levels(v)
  {
    if !v.payload.Container() then Scalar(v, o.dropNulls, o.showReal)
    else
      List(v, seq(Size(v), k requires 0 <= k < Size(v) =>
        Part("", Titled(SlotAt(v, k), SlotAt(v, k).name, "", if o.yaml then " " else ""), Compact(o, SlotAt(v, k).value), "")))
  }

  lemma {:induction false} QuotedSpelled(s: string)
    ensures Quoted(s) == InQuotes(Pieces(s))
  {
    EscapesAreSpellings(s);
  }

  lemma {:induction false} ScalarSpelled(v: Value, dropNulls: bool, showReal: real -> string)
    requires !v.payload.Container()
    ensures Spelled(Scalar(v, dropNulls, showReal)) ==
            match v.payload
            case Null => if dropNulls then "" else "null"
            case Int(i) => SignedDecimal(i)
            case UInt(u) => SignedDecimal(u)
            case Real(r) => showReal(r)
            case Str(s) => Quoted(s)
            case Bool(b) => if b then "true" else "false"
  {
    match v.payload
    case Int(i) => IntegerSpelled(i);
    case UInt(u) => IntegerSpelled(u);
    case Str(s) => QuotedSpelled(s);
    case _ =>
  }

  lemma IntegerSpelled(i: int)
    ensures Spelled(IntegerText(i)) == SignedDecimal(i)
  {
    hide Decimal;
  }

  /** FastWriter prints exactly this text. */
  lemma {:induction false} FastIsCompact(o: FastOptions, v: Value)
    ensures FastText(o, v) == Spelled(Compact(o, v))
    decreases Levels(v), 1, 0
  {
    hide *;
    if v.payload.Container() {
      FastSlotsAreParts(o, v, 0);
      FastSlotsStep(o, v, 0);
      ListSpelled(o, v);
    } else {
      FastScalar(o, v);
    }
  }

  lemma FastScalar(o: FastOptions, v: Value)
    requires !v.payload.Container()
    ensures FastText(o, v) == Spelled(Compact(o, v))
  {
    ScalarSpelled(v, o.dropNulls, o.showReal);
    hide Scalar, Quoted, Spelled, SignedDecimal;
  }

  lemma ListSpelled(o: FastOptions, v: Value)
    requires v.payload.Container()
    ensures Compact(o, v).ArrayOf? || Compact(o, v).ObjectOf?
    ensures var parts := Compact(o, v).parts;
            var body := if parts == [] then "" else Parts(parts, 0);
            Spelled(Compact(o, v)) == if v.payload.Array? then "[" + body + "]" else "{" + body + "}"
    ensures FastText(o, v) == if v.payload.Array? then "[" + FastSlots(o, v, 0) + "]" else "{" + FastSlots(o, v, 0) + "}"
  {
    hide Parts, FastSlots, SlotAt, Titled;
  }

  lemma {:induction false} FastSlotsAreParts(o: FastOptions, v: Value, i: nat)
    requires v.payload.Container() && i <= Size(v)
    ensures Compact(o, v).ArrayOf? || Compact(o, v).ObjectOf?
    ensures var parts := Compact(o, v).parts;
            |parts| == Size(v) && FastSlots(o, v, i) == (if 0 < i < Size(v) then "," else "") + Parts(parts, i)
    decreases Levels(v), 0, Size(v) - i
  {
    hide *;
    CompactParts(o, v);
    var parts := Compact(o, v).parts;
    FastSlotsStep(o, v, i);
    PartsStep(parts, i);
    if i < Size(v) {
      var s := SlotAt(v, i);
      FastSlotsAreParts(o, v, i + 1);
      FastIsCompact(o, s.value);
      FastLead(o, s, i);
      Shuffle(if i > 0 then "," else "", Lead(parts[i]), FastText(o, s.value), if i + 1 < Size(v) then "," else "", Parts(parts, i + 1));
    }
  }

  lemma FastSlotsStep(o: FastOptions, v: Value, i: nat)
    requires v.payload.Container() && i <= Size(v)
    ensures FastSlots(o, v, i) ==
            if i == Size(v) then ""
            else FastName(o, SlotAt(v, i), i) + FastText(o, SlotAt(v, i).value) + FastSlots(o, v, i + 1)
  {
  }

  lemma PartsStep(parts: seq<Part>, i: nat)
    requires i <= |parts|
    ensures Parts(parts, i) ==
            if i == |parts| then ""
            else Lead(parts[i]) + Spelled(parts[i].value) + parts[i].after + (if i + 1 < |parts| then "," else "") + Parts(parts, i + 1)
  {
  }

  lemma {:induction false} CompactParts(o: FastOptions, v: Value)
    requires v.payload.Container()
    ensures Compact(o, v).ArrayOf? || Compact(o, v).ObjectOf?
    ensures var parts := Compact(o, v).parts;
            && |parts| == Size(v)
            && forall k :: 0 <= k < Size(v) ==>
                 parts[k] == Part("", Titled(SlotAt(v, k), SlotAt(v, k).name, "", if o.yaml then " " else ""), Compact(o, SlotAt(v, k).value), "")
  {
    hide SlotAt, Titled;
  }

  lemma Shuffle(a: string, b: string, c: string, d: string, e: string)
    ensures a + b + c + (d + e) == a + (b + c + "" + d + e)
  {
  }

  lemma {:induction false} FastLead(o: FastOptions, s: Slot, i: nat)
    ensures FastName(o, s, i) ==
            (if i > 0 then "," else "") + Lead(Part("", Titled(s, s.name, "", if o.yaml then " " else ""), Compact(o, s.value), ""))
  {
    hide Compact, Quoted, InQuotes;
    QuotedSpelled(s.name);
    var q := Quoted(s.name);
    assert q + "" == q;
    assert "" + (q + "" + ":" + (if o.yaml then " " else "")) == q + (if o.yaml then ": " else ":");
  }

  /** The document of FastWriter is that text and a line feed. */
  lemma FastDocumentIsCompact(o: FastOptions, v: Value)
    ensures FastDocument(o, v) == Spelled(Compact(o, v)) + (if o.omitLineFeed then "" else "\n")
  {
    FastIsCompact(o, v);
  }

  // ---------------------------------------------------- what is JSON of it

  lemma {:induction false} ScalarIsJson(src: JsonParse.Source, v: Value, dropNulls: bool, showReal: real -> string)
    requires !v.payload.Container() && WellFormed(v) && !v.payload.Real? && (dropNulls ==> !v.payload.Null?)
    ensures Grammatical(Scalar(v, dropNulls, showReal)) && Fits(src, Scalar(v, dropNulls, showReal))
  {
    match v.payload
    case Int(i) => IntegerIsJson(src, i);
    case UInt(u) => IntegerIsJson(src, u);
    case Str(s) => EscapesAreSpellings(s);
    case _ =>
  }

  lemma {:induction false} IntegerIsJson(src: JsonParse.Source, i: int)
    requires -TWO_63 <= i < TWO_64
    ensures Grammatical(IntegerText(i)) && Fits(src, IntegerText(i))
  {
    var n := if i < 0 then -i else i;
    var s := Decimal(n);
    assert Digits(s) by { assert forall k :: 0 <= k < |s| ==> s[k] in s; }
    WholeWrites(s);
    DecimalValue(n);
    hide Decimal, DigitsValue;
  }

  /** Without doubles and with its nulls FastWriter's text is JSON. */
  lemma {:induction false} CompactIsJson(o: FastOptions, src: JsonParse.Source, v: Value)
    requires WellFormed(v) && RealFree(v) && !o.dropNulls
    ensures Grammatical(Compact(o, v)) && Fits(src, Compact(o, v))
    decreases Levels(v)
  {
    hide Scalar, WellFormed;
    if !v.payload.Container() {
      ScalarIsJson(src, v, o.dropNulls, o.showReal);
    } else {
      var parts := Compact(o, v).parts;
      forall k | 0 <= k < |parts|
        ensures parts[k].title.Some? == v.payload.Object? && Spaced(parts[k]) && Grammatical(parts[k].value) && Fits(src, parts[k].value)
                && |NameOf(parts[k])| < 0x4000_0000
      {
        var s := SlotAt(v, k);
        EscapesAreSpellings(s.name);
        SlotRealFree(v, 0, k);
        ChildWellFormed(v, k);
        ShortName(v, k);
        CompactIsJson(o, src, s.value);
      }
      hide Spaced, NameOf, SlotAt;
      assert Blanks("");
    }
  }

  lemma {:induction false} SlotRealFree(v: Value, i: nat, k: nat)
    requires v.payload.Container() && i <= k < Size(v) && SlotsRealFree(v, i)
    ensures RealFree(SlotAt(v, k).value)
    decreases k - i
  {
    if i < k { SlotRealFree(v, i + 1, k); }
  }

  lemma ShortName(v: Value, k: nat)
    requires v.payload.Container() && k < Size(v) && WellFormed(v)
    ensures |SlotAt(v, k).name| < 0x4000_0000
  {
    if v.payload.Object? { assert v.payload.items[k] in v.payload.items; }
  }

  // ---------------------------------------------------------- StyledWriter

  function Spaces(n: nat): string { seq(n, _ => ' ') }

  function NewLine(o: Writer.StyleOptions, level: nat): string { "\n" + Spaces(level * o.indentSize) }

  /** A scalar or an empty container. */
  predicate InOnePiece(v: Value) { v.payload.Container() ==> Size(v) == 0 }

  function Piece(o: Writer.StyleOptions, v: Value): Json
    requires InOnePiece(v)
  {
    if v.payload.Container() then List(v, []) else Scalar(v, false, o.showReal)
  }

  predicate AllInOnePiece(v: Value)
    requires v.payload.Container()
  {
    forall k :: 0 <= k < Size(v) ==> InOnePiece(SlotAt(v, k).value)
  }

  /** An array on one line: a blank in front of every element and behind the last. */
  function OneLine(o: Writer.StyleOptions, v: Value): Json
    requires v.payload.Array? && AllInOnePiece(v)
  {
    ArrayOf("", seq(Size(v), k requires 0 <= k < Size(v) =>
      Part(" ", None, Piece(o, SlotAt(v, k).value), if k + 1 == Size(v) then " " else "")))
  }

  /** That line is shorter than the margin; the lengths are taken modulo 2^32, and three
      characters to an element are counted first. */
  predicate FitsMargin(o: Writer.StyleOptions, v: Value)
    requires v.payload.Array?
  {
    && Size(v) * 3 % 0x1_0000_0000 < o.rightMargin && AllInOnePiece(v)
    && |Spelled(OneLine(o, v))| % 0x1_0000_0000 < o.rightMargin
  }

  /** Every child on a line of its own, one step further in than the brackets. */
  function Pretty(o: Writer.StyleOptions, v: Value, level: nat): Json
    decreases Levels(v)
  {
    if InOnePiece(v) then Piece(o, v)
    else if v.payload.Array? && FitsMargin(o, v) then OneLine(o, v)
    else
      List(v, seq(Size(v), k requires 0 <= k < Size(v) =>
        Part(NewLine(o, level + 1), Titled(SlotAt(v, k), CText(SlotAt(v, k).name + [NUL]), " ", " "),
             Pretty(o, SlotAt(v, k).value, level + 1), if k + 1 == Size(v) then NewLine(o, level) else "")))
  }

  lemma {:induction false} PieceSpelled(o: Writer.StyleOptions, v: Value)
    requires InOnePiece(v)
    ensures Writer.Flat(v) && Writer.FlatText(o, v) == Spelled(Piece(o, v))
  {
    if !v.payload.Container() { ScalarSpelled(v, false, o.showReal); }
  }

  lemma {:induction false} OneByOne(v: Value, i: nat)
    requires v.payload.Container() && i <= Size(v)
    ensures Writer.AllFlat(v, i) <==> forall k :: i <= k < Size(v) ==> InOnePiece(SlotAt(v, k).value)
    decreases Size(v) - i
  {
    hide SlotAt;
    if i < Size(v) { OneByOne(v, i + 1); }
  }

  /** The children of a single-line array. */
  lemma {:induction false} JoinedIsOneLine(o: Writer.StyleOptions, v: Value, i: nat)
    requires v.payload.Array? && AllInOnePiece(v) && i < Size(v) && Writer.AllFlat(v, i)
    ensures var parts := OneLine(o, v).parts;
            |parts| == Size(v) && Parts(parts, i) == " " + Writer.FlatText(o, SlotAt(v, i).value) + Writer.Joined(o, v, i + 1) + " "
    decreases Size(v) - i
  {
    hide Writer.FlatText, Piece, SlotAt, Spelled;
    var parts := OneLine(o, v).parts;
    var text := Writer.FlatText(o, SlotAt(v, i).value);
    PieceSpelled(o, SlotAt(v, i).value);
    assert parts[i] == Part(" ", None, Piece(o, SlotAt(v, i).value), if i + 1 == Size(v) then " " else "");
    assert Lead(parts[i]) == " ";
    hide Lead, OneLine, AllInOnePiece;
    if i + 1 < Size(v) {
      JoinedIsOneLine(o, v, i + 1);
      var next := Writer.FlatText(o, SlotAt(v, i + 1).value);
      Commas(text, next, Writer.Joined(o, v, i + 2));
    } else {
      NoParts(parts);
      assert Writer.Joined(o, v, i + 1) == "";
    }
  }

  lemma Commas(a: string, b: string, c: string)
    ensures " " + a + "" + "," + (" " + b + c + " ") == " " + a + (", " + b + c) + " "
  {
  }

  lemma {:induction false} OneLineSpelled(o: Writer.StyleOptions, v: Value)
    requires v.payload.Array? && AllInOnePiece(v) && Size(v) > 0 && Writer.AllFlat(v, 0)
    ensures Spelled(OneLine(o, v)) == "[ " + Writer.Joined(o, v, 0) + " ]"
  {
    JoinedIsOneLine(o, v, 0);
    hide Writer.FlatText, Piece, SlotAt, Parts;
    var text, later := Writer.FlatText(o, SlotAt(v, 0).value), Writer.Joined(o, v, 1);
    assert Writer.Joined(o, v, 0) == "" + text + later;
    var j := OneLine(o, v);
    assert Spelled(j) == "[" + Body(j.gap, j.parts) + "]";
    hide Spelled, OneLine, Writer.Joined;
    Bracketed(text, later);
  }

  lemma Bracketed(a: string, b: string)
    ensures "[" + (" " + a + b + " ") + "]" == "[ " + ("" + a + b) + " ]"
  {
  }

  /** Its length. */
  lemma {:induction false} JoinedLength(o: Writer.StyleOptions, v: Value, i: nat)
    requires v.payload.Array? && i <= Size(v) && Writer.AllFlat(v, 0) && Writer.AllFlat(v, i)
    ensures |Writer.Joined(o, v, i)| + Writer.TextLength(o, v, i) ==
            Writer.TextLength(o, v, Size(v)) + 2 * (if i == 0 then Size(v) - (if Size(v) > 0 then 1 else 0) else Size(v) - i)
    decreases Size(v) - i
  {
    hide Writer.FlatText, SlotAt;
    if i < Size(v) { JoinedLength(o, v, i + 1); }
  }

  lemma {:induction false} FitsIff(o: Writer.StyleOptions, v: Value)
    requires v.payload.Array? && Size(v) > 0
    ensures FitsMargin(o, v) <==> !Writer.MultiLine(o, v)
  {
    OneByOne(v, 0);
    if AllInOnePiece(v) { OneLineLength(o, v); }
    hide OneLine, Spelled, Writer.TextLength, Writer.AllFlat, Size, SlotAt, Writer.Flat, InOnePiece;
  }

  lemma {:induction false} OneLineLength(o: Writer.StyleOptions, v: Value)
    requires v.payload.Array? && Size(v) > 0 && AllInOnePiece(v) && Writer.AllFlat(v, 0)
    ensures |Spelled(OneLine(o, v))| == 4 + (Size(v) - 1) * 2 + Writer.TextLength(o, v, Size(v))
  {
    hide *;
    OneLineSpelled(o, v);
    JoinedLength(o, v, 0);
    NothingCounted(o, v);
  }

  lemma NothingCounted(o: Writer.StyleOptions, v: Value)
    requires v.payload.Container() && Writer.AllFlat(v, 0)
    ensures Writer.TextLength(o, v, 0) == 0
  {
  }

  // ---------------------------------------------------------------- blocks

  /** A text that ends in neither a blank nor a line feed. */
  predicate Solid(s: string) { s != "" && s[|s| - 1] != ' ' && s[|s| - 1] != '\n' }

  /** Nothing is to be put in front of a bracket. */
  predicate Ready(doc: string, indent: string) { Writer.IndentText(doc, indent) == "" }

  predicate PrintsReals(o: Writer.StyleOptions, v: Value)
    decreases Levels(v)
  {
    match v.payload
    case Real(r) => Solid(o.showReal(r))
    case Array(_) => forall k :: 0 <= k < Size(v) ==> PrintsReals(o, SlotAt(v, k).value)
    case Object(_) => forall k :: 0 <= k < Size(v) ==> PrintsReals(o, SlotAt(v, k).value)
    case _ => true
  }

  lemma IndentBehind(doc: string, indent: string)
    requires Solid(doc)
    ensures Writer.IndentText(doc, indent) == "\n" + indent
  {
  }

  lemma ReadyBehind(doc: string, n: nat, name: string)
    requires name == "" || name[|name| - 1] == ' '
    ensures Ready(doc + ("\n" + Spaces(n) + name), Spaces(n))
  {
    var d := doc + ("\n" + Spaces(n) + name);
    if name != "" {
      assert d[|d| - 1] == ' ';
    } else if n > 0 {
      assert d[|d| - 1] == Spaces(n)[n - 1] == ' ';
    } else {
      assert d[|d| - 1] == '\n' && Spaces(n) == "";
    }
  }

  lemma OneStepIn(o: Writer.StyleOptions, level: nat)
    ensures Spaces(level * o.indentSize) + Writer.Blanks(o.indentSize) == Spaces((level + 1) * o.indentSize)
  {
    assert (level + 1) * o.indentSize == level * o.indentSize + o.indentSize;
  }

  lemma {:induction false} SolidFlat(o: Writer.StyleOptions, v: Value)
    requires InOnePiece(v) && PrintsReals(o, v)
    ensures Solid(Writer.FlatText(o, v))
  {
    match v.payload
    case Int(i) => SolidInteger(i);
    case UInt(u) => SolidInteger(u);
    case _ =>
  }

  lemma SolidInteger(i: int)
    ensures Solid(SignedDecimal(i))
  {
    var s := Decimal(if i < 0 then -i else i);
    assert s[|s| - 1] in s;
  }

  /** Where nothing is to be put in front, StyledWriter prints exactly that text. */
  lemma {:induction false} StyledIsPretty(o: Writer.StyleOptions, doc: string, level: nat, v: Value)
    requires Ready(doc, Spaces(level * o.indentSize)) && PrintsReals(o, v)
    ensures var text := Writer.Styled(o, doc, Spaces(level * o.indentSize), v);
            text == Spelled(Pretty(o, v, level)) && Solid(text)
    decreases Levels(v), 1, 0
  {
    hide Spelled, Writer.StyledSlots, Writer.MultiLine, FitsMargin, OneLine, Piece, PrintsReals;
    if InOnePiece(v) {
      PieceSpelled(o, v);
      SolidFlat(o, v);
    } else if v.payload.Array? && FitsMargin(o, v) {
      FitsIff(o, v);
      OneByOne(v, 0);
      FitsInPieces(o, v);
      OneLineSpelled(o, v);
    } else {
      if v.payload.Array? { FitsIff(o, v); }
      BlockIsPretty(o, doc, level, v);
    }
  }

  lemma FitsInPieces(o: Writer.StyleOptions, v: Value)
    requires v.payload.Array? && FitsMargin(o, v)
    ensures AllInOnePiece(v)
  {
  }

  lemma {:induction false} BlockIsPretty(o: Writer.StyleOptions, doc: string, level: nat, v: Value)
    requires Ready(doc, Spaces(level * o.indentSize)) && PrintsReals(o, v)
    requires !InOnePiece(v) && (v.payload.Array? ==> Writer.MultiLine(o, v) && !FitsMargin(o, v))
    ensures var text := Writer.Styled(o, doc, Spaces(level * o.indentSize), v);
            text == Spelled(Pretty(o, v, level)) && Solid(text)
    decreases Levels(v), 0, Size(v) + 1
  {
    hide Spaces, Writer.IndentText, Writer.StyledSlots, Writer.MultiLine, FitsMargin, Parts, Titled, PrintsReals, SlotAt;
    var indent, inner := Spaces(level * o.indentSize), Spaces((level + 1) * o.indentSize);
    OneStepIn(o, level);
    var open := Writer.Open(v);
    assert "" + open == open;
    assert Solid(doc + open);
    var body := Writer.StyledSlots(o, doc + open, inner, v, 0);
    SlotsArePretty(o, doc + open, level, v, 0);
    IndentBehind(doc + open + body, indent);
    var parts := Pretty(o, v, level).parts;
    assert parts != [];
    Enclosed(open, body, "\n" + indent, Writer.Shut(v));
  }

  lemma Enclosed(a: string, b: string, c: string, d: string)
    ensures a + b + (c + d) == a + (b + c) + d
  {
  }

  /** The parts of a block. */
  lemma {:induction false} BlockParts(o: Writer.StyleOptions, level: nat, v: Value, i: nat)
    requires !InOnePiece(v) && i < Size(v) && (v.payload.Array? ==> !FitsMargin(o, v))
    ensures Pretty(o, v, level).ArrayOf? || Pretty(o, v, level).ObjectOf?
    ensures var parts := Pretty(o, v, level).parts;
            && |parts| == Size(v)
            && parts[i] == Part(NewLine(o, level + 1), Titled(SlotAt(v, i), CText(SlotAt(v, i).name + [NUL]), " ", " "),
                                Pretty(o, SlotAt(v, i).value, level + 1), if i + 1 == Size(v) then NewLine(o, level) else "")
  {
    hide FitsMargin, SlotAt, Titled;
  }

  lemma {:induction false} SlotIsPretty(o: Writer.StyleOptions, doc: string, level: nat, v: Value, i: nat)
    requires Solid(doc) && PrintsReals(o, v) && !InOnePiece(v) && i < Size(v) && (v.payload.Array? ==> !FitsMargin(o, v))
    ensures Pretty(o, v, level).ArrayOf? || Pretty(o, v, level).ObjectOf?
    ensures var parts := Pretty(o, v, level).parts;
            var one := Writer.StyledSlot(o, doc, Spaces((level + 1) * o.indentSize), v, i);
            && |parts| == Size(v) && one == Lead(parts[i]) + Spelled(parts[i].value) + (if i + 1 < Size(v) then "," else "")
            && parts[i].after == (if i + 1 == Size(v) then NewLine(o, level) else "") && Solid(doc + one)
    decreases Levels(v), 0, 0
  {
    hide *;
    NotInOnePiece(v);
    BlockParts(o, level, v, i);
    var n := (level + 1) * o.indentSize;
    var inner, s, p := Spaces(n), SlotAt(v, i), Pretty(o, v, level).parts[i];
    var name := Writer.StyledName(s);
    IndentBehind(doc, inner);
    NewLineIs(o, level + 1);
    NameSpelled(s, inner, p.value, p.after);
    ReadyBehind(doc, n, name);
    var head := "\n" + inner + name;
    ChildPrints(o, v, i);
    StyledIsPretty(o, doc + head, level + 1, s.value);
    StyledSlotIs(o, doc, inner, v, i);
    SolidEnd(head, Writer.Styled(o, doc + head, inner, s.value), if i + 1 < Size(v) then "," else "", doc);
  }

  lemma NotInOnePiece(v: Value)
    requires !InOnePiece(v)
    ensures v.payload.Container()
  {
  }

  lemma NewLineIs(o: Writer.StyleOptions, level: nat)
    ensures NewLine(o, level) == "\n" + Spaces(level * o.indentSize)
  {
  }

  lemma StyledSlotIs(o: Writer.StyleOptions, doc: string, indent: string, v: Value, i: nat)
    requires v.payload.Container() && i < Size(v)
    ensures var head := Writer.IndentText(doc, indent) + Writer.StyledName(SlotAt(v, i));
            Writer.StyledSlot(o, doc, indent, v, i) ==
            head + Writer.Styled(o, doc + head, indent, SlotAt(v, i).value) + (if i + 1 < Size(v) then "," else "")
  {
  }

  lemma {:induction false} SlotsArePretty(o: Writer.StyleOptions, doc: string, level: nat, v: Value, i: nat)
    requires Solid(doc) && PrintsReals(o, v) && !InOnePiece(v) && i < Size(v) && (v.payload.Array? ==> !FitsMargin(o, v))
    ensures Pretty(o, v, level).ArrayOf? || Pretty(o, v, level).ObjectOf?
    ensures var parts := Pretty(o, v, level).parts;
            var body := Writer.StyledSlots(o, doc, Spaces((level + 1) * o.indentSize), v, i);
            |parts| == Size(v) && body + NewLine(o, level) == Parts(parts, i) && Solid(doc + body)
    decreases Levels(v), 0, Size(v) - i
  {
    hide Spaces, FitsMargin, PrintsReals, Spelled, Writer.StyledSlot, Lead, Pretty, NewLine, Solid, InOnePiece;
    SlotIsPretty(o, doc, level, v, i);
    var inner := Spaces((level + 1) * o.indentSize);
    var parts := Pretty(o, v, level).parts;
    var one := Writer.StyledSlot(o, doc, inner, v, i);
    var later := Writer.StyledSlots(o, doc + one, inner, v, i + 1);
    var p := parts[i];
    if i + 1 < Size(v) {
      SlotsArePretty(o, doc + one, level, v, i + 1);
      Onward(Lead(p), Spelled(p.value), ",", later, NewLine(o, level), Parts(parts, i + 1), doc);
    } else {
      NoParts(parts);
      NoStyledSlots(o, doc + one, inner, v);
      assert one + "" == one;
      Onward(Lead(p), Spelled(p.value), "", "", NewLine(o, level), NewLine(o, level), doc);
      LastPart(Lead(p), Spelled(p.value), NewLine(o, level));
    }
  }

  lemma NoStyledSlots(o: Writer.StyleOptions, doc: string, indent: string, v: Value)
    requires v.payload.Container()
    ensures Writer.StyledSlots(o, doc, indent, v, Size(v)) == ""
  {
  }

  lemma LastPart(a: string, b: string, e: string)
    ensures a + b + "" + "" + e == a + b + e + "" + ""
  {
  }

  lemma SolidEnd(head: string, text: string, comma: string, doc: string)
    requires Solid(text) && comma in {"", ","}
    ensures Solid(doc + (head + text + comma))
  {
    var s := doc + (head + text + comma);
    assert s[|s| - 1] == if comma == "" then text[|text| - 1] else ',';
  }

  lemma Onward(a: string, b: string, c: string, d: string, e: string, f: string, doc: string)
    requires d + e == f
    ensures a + b + c + d + e == a + b + "" + c + f
    ensures doc + (a + b + c) + d == doc + (a + b + c + d)
  {
  }

  lemma ChildPrints(o: Writer.StyleOptions, v: Value, i: nat)
    requires v.payload.Container() && i < Size(v) && PrintsReals(o, v)
    ensures PrintsReals(o, SlotAt(v, i).value)
  {
    hide SlotAt;
  }

  lemma {:induction false} NameSpelled(s: Slot, inner: string, value: Json, after: string)
    ensures var name := Writer.StyledName(s); name == "" || name[|name| - 1] == ' '
    ensures Lead(Part("\n" + inner, Titled(s, CText(s.name + [NUL]), " ", " "), value, after)) == "\n" + inner + Writer.StyledName(s)
  {
    hide Quoted, CText;
    QuotedSpelled(CText(s.name + [NUL]));
  }

  lemma BlankLayout(o: Writer.StyleOptions, level: nat)
    ensures Blanks(NewLine(o, level)) && Blanks("") && Blanks(" ")
  {
  }

  lemma {:induction false} PieceIsJson(o: Writer.StyleOptions, src: JsonParse.Source, v: Value)
    requires WellFormed(v) && RealFree(v) && InOnePiece(v)
    ensures Grammatical(Piece(o, v)) && Fits(src, Piece(o, v))
  {
    if !v.payload.Container() { ScalarIsJson(src, v, false, o.showReal); }
    hide Scalar, WellFormed;
  }

  /** Without doubles StyledWriter's text is JSON too. */
  lemma {:induction false} PrettyIsJson(o: Writer.StyleOptions, src: JsonParse.Source, v: Value, level: nat)
    requires WellFormed(v) && RealFree(v)
    ensures Grammatical(Pretty(o, v, level)) && Fits(src, Pretty(o, v, level))
    decreases Levels(v)
  {
    hide Piece, WellFormed, OneLine, FitsMargin, NewLine, RealFree;
    if InOnePiece(v) {
      PieceIsJson(o, src, v);
    } else if v.payload.Array? && FitsMargin(o, v) {
      FitsInPieces(o, v);
      OneLineIsJson(o, src, v);
    } else {
      forall k | 0 <= k < Size(v)
        ensures Grammatical(Pretty(o, SlotAt(v, k).value, level + 1)) && Fits(src, Pretty(o, SlotAt(v, k).value, level + 1))
      {
        ChildIsPrintable(v, k);
        PrettyIsJson(o, src, SlotAt(v, k).value, level + 1);
      }
      BlockIsJson(o, src, v, level);
    }
  }

  lemma ChildIsPrintable(v: Value, k: nat)
    requires v.payload.Container() && k < Size(v) && WellFormed(v) && RealFree(v)
    ensures WellFormed(SlotAt(v, k).value) && RealFree(SlotAt(v, k).value)
  {
    SlotRealFree(v, 0, k);
    ChildWellFormed(v, k);
  }

  lemma {:induction false} OneLineIsJson(o: Writer.StyleOptions, src: JsonParse.Source, v: Value)
    requires WellFormed(v) && RealFree(v) && v.payload.Array? && AllInOnePiece(v)
    ensures Grammatical(OneLine(o, v)) && Fits(src, OneLine(o, v))
  {
    var parts := OneLine(o, v).parts;
    forall k | 0 <= k < |parts|
      ensures parts[k].title == None && Spaced(parts[k]) && Grammatical(parts[k].value) && Fits(src, parts[k].value)
    {
      ChildIsPrintable(v, k);
      PieceIsJson(o, src, SlotAt(v, k).value);
      BlankLayout(o, 0);
    }
    hide Spaced, SlotAt, Piece, WellFormed, RealFree;
    BlankLayout(o, 0);
  }

  lemma {:induction false} BlockIsJson(o: Writer.StyleOptions, src: JsonParse.Source, v: Value, level: nat)
    requires WellFormed(v) && !InOnePiece(v) && (v.payload.Array? ==> !FitsMargin(o, v))
    requires forall k :: 0 <= k < Size(v) ==>
               Grammatical(Pretty(o, SlotAt(v, k).value, level + 1)) && Fits(src, Pretty(o, SlotAt(v, k).value, level + 1))
    ensures Grammatical(Pretty(o, v, level)) && Fits(src, Pretty(o, v, level))
  {
    hide FitsMargin, NewLine, Blanks, WellFormed;
    BlockParts(o, level, v, 0);
    var parts := Pretty(o, v, level).parts;
    forall k | 0 <= k < |parts|
      ensures parts[k].title.Some? == v.payload.Object? && Spaced(parts[k]) && Grammatical(parts[k].value) && Fits(src, parts[k].value)
              && |NameOf(parts[k])| < 0x4000_0000
    {
      BlockParts(o, level, v, k);
      EscapesAreSpellings(CText(SlotAt(v, k).name + [NUL]));
      ShortName(v, k);
      BlankLayout(o, level);
      BlankLayout(o, level + 1);
    }
    hide Spaced, NameOf, SlotAt;
    BlankLayout(o, level);
    BlockList(o, v, level);
  }

  lemma BlockList(o: Writer.StyleOptions, v: Value, level: nat)
    requires !InOnePiece(v) && (v.payload.Array? ==> !FitsMargin(o, v))
    ensures var j := Pretty(o, v, level); if v.payload.Array? then j.ArrayOf? && j.gap == "" else j.ObjectOf? && j.gap == ""
  {
    hide FitsMargin, SlotAt, Titled;
  }

  /** The document of StyledWriter. */
  lemma {:induction false} StyledDocumentIsPretty(o: Writer.StyleOptions, v: Value)
    requires PrintsReals(o, v)
    ensures Writer.StyledDocument(o, v) == Spelled(Pretty(o, v, 0)) + "\n"
  {
    assert Spaces(0 * o.indentSize) == "";
    StyledIsPretty(o, "", 0, v);
  }
}
