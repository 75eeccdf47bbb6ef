/** StyledWriter on comment-free values: the layout it chooses, the buffered
    child texts, and the proof that no layout choice changes the tokens. */
module JsonStyledWriter {
  import opened JsonNumber
  import opened JsonScanner
  import opened JsonString
  import opened JsonValue
  import opened JsonWriter

  datatype StyleOptions = StyleOptions(rightMargin: nat, indentSize: nat, showReal: real -> string)

  // ------------------------------------------------------------- layout

  /** Values pushValue prints in one piece: scalars and empty containers. */
  predicate Flat(v: Value) { !v.payload.Container() || Size(v) == 0 }

  function FlatText(o: StyleOptions, v: Value): string
    requires Flat(v)
  {
    match v.payload
    case Null => "null"
    case Int(i) => SignedDecimal(i)
    case UInt(u) => SignedDecimal(u)
    case Real(r) => o.showReal(r)
    case Str(s) => Quoted(s)
    case Bool(b) => BoolText(b)
    case Array(_) => "[]"
    case Object(_) => "{}"
  }

  predicate AllFlat(v: Value, i: nat)
    requires v.payload.Container() && i <= Size(v)
    decreases Size(v) - i
  {
    i == Size(v) || (Flat(SlotAt(v, i).value) && AllFlat(v, i + 1))
  }

  /** Total length of the first i child texts. */
  function TextLength(o: StyleOptions, v: Value, i: nat): nat
    requires v.payload.Container() && i <= Size(v) && AllFlat(v, 0)
  {
    if i == 0 then 0
    else FlatAt(v, i - 1); TextLength(o, v, i - 1) + |FlatText(o, SlotAt(v, i - 1).value)|
  }

  lemma FlatAt(v: Value, i: nat)
    requires v.payload.Container() && i < Size(v) && AllFlat(v, 0)
    ensures Flat(SlotAt(v, i).value)
  {
    FlatFrom(v, 0, i);
  }

  lemma {:induction false} FlatFrom(v: Value, j: nat, i: nat)
    requires v.payload.Container() && j <= i < Size(v) && AllFlat(v, j)
    ensures Flat(SlotAt(v, i).value)
    decreases i - j
  {
    if j < i { FlatFrom(v, j + 1, i); }
  }

  /** isMultineArray, with its 32-bit unsigned arithmetic. */
  predicate MultiLine(o: StyleOptions, v: Value)
    requires v.payload.Container() && Size(v) > 0
  {
    || Size(v) * 3 % TWO_32 >= o.rightMargin
    || !AllFlat(v, 0)
    || (4 + (Size(v) - 1) * 2 + TextLength(o, v, Size(v))) % TWO_32 >= o.rightMargin
  }

  /** What writeIndent appends, given how the document ends. */
  function IndentText(doc: string, indent: string): string {
    if doc == "" then indent
    else if doc[|doc| - 1] == ' ' then ""
    else if doc[|doc| - 1] == '\n' then indent
    else "\n" + indent
  }

  function Blanks(n: nat): (s: string)
    ensures |s| == n && forall c :: c in s ==> c == ' '
  {
    seq(n, _ => ' ')
  }

  /** Member name of the styled layout: it passes through a C string. */
  function StyledName(s: Slot): string {
    if s.named then Quoted(Printed(true, s.name)) + " : " else ""
  }

  /** The children of a single-line array. */
  function Joined(o: StyleOptions, v: Value, i: nat): string
    requires v.payload.Container() && i <= Size(v) && AllFlat(v, i)
    decreases Size(v) - i
  {
    if i == Size(v) then ""
    else (if i > 0 then ", " else "") + FlatText(o, SlotAt(v, i).value) + Joined(o, v, i + 1)
  }

  /** What writing `v` appends to `doc` under the given indentation. */
  function Styled(o: StyleOptions, doc: string, indent: string, v: Value): string
    decreases Levels(v), 1, 0
  {
    if Flat(v) then FlatText(o, v)
    else if v.payload.Array? && !MultiLine(o, v) then "[ " + Joined(o, v, 0) + " ]"
    else
      var head := IndentText(doc, indent) + Open(v);
      var body := StyledSlots(o, doc + head, indent + Blanks(o.indentSize), v, 0);
      head + body + (IndentText(doc + head + body, indent) + Shut(v))
  }

  function Open(v: Value): string { if v.payload.Array? then "[" else "{" }
  function Shut(v: Value): string { if v.payload.Array? then "]" else "}" }

  function StyledSlots(o: StyleOptions, doc: string, indent: string, v: Value, i: nat): string
    requires v.payload.Container() && i <= Size(v)
    decreases Levels(v), 0, Size(v) - i
  {
    if i == Size(v) then ""
    else
      var one := StyledSlot(o, doc, indent, v, i);
      one + StyledSlots(o, doc + one, indent, v, i + 1)
  }

  function StyledSlot(o: StyleOptions, doc: string, indent: string, v: Value, i: nat): string
    requires v.payload.Container() && i < Size(v)
    decreases Levels(v), 0, 0
  {
    var head := IndentText(doc, indent) + StyledName(SlotAt(v, i));
    head + Styled(o, doc + head, indent, SlotAt(v, i).value) + (if i + 1 < Size(v) then "," else "")
  }

  function StyledDocument(o: StyleOptions, v: Value): string { Styled(o, "", "", v) + "\n" }

  // -------------------------------------------------------------- tokens

  lemma {:induction false} FlatTokens(o: StyleOptions, v: Value, rest: string)
    requires Flat(v) && RealFree(v) && EndsNumber(rest)
    ensures Tokens(FlatText(o, v) + rest) == Words(true, v) + Tokens(rest)
  {
    hide Tokens;
    if v.payload.Container() {
      var open, shut := Open(v), Shut(v);
      assert FlatText(o, v) + rest == open + (shut + rest);
      WordToken(if v.payload.Array? then ArrayBegin else ObjectBegin, open, shut + rest);
      WordToken(if v.payload.Array? then ArrayEnd else ObjectEnd, shut, rest);
    } else {
      var f := FastOptions(false, false, false, o.showReal);
      ScalarTokens(f, v, rest);
    }
  }

  lemma {:induction false} JoinedTokens(o: StyleOptions, v: Value, i: nat, rest: string)
    requires v.payload.Array? && i <= Size(v) && AllFlat(v, i) && SlotsRealFree(v, i) && EndsNumber(rest)
    ensures Tokens(Joined(o, v, i) + rest) == SlotWords(true, v, i) + Tokens(rest)
    ensures i > 0 ==> EndsNumber(Joined(o, v, i) + rest)
    decreases Size(v) - i
  {
    hide Tokens, FlatText, Words, RealFree, SlotAt, NameWords;
    if i == Size(v) {
      assert Joined(o, v, i) + rest == rest;
    } else {
      var child := SlotAt(v, i).value;
      var tail := Joined(o, v, i + 1) + rest;
      JoinedTokens(o, v, i + 1, rest);
      FlatTokens(o, child, tail);
      var text := FlatText(o, child) + tail;
      ArraySlotWords(v, i);
      var sep := if i > 0 then ", " else "";
      assert Joined(o, v, i) + rest == sep + text;
      CommaTokens(i, text);
    }
  }

  lemma CommaTokens(i: nat, text: string)
    ensures Tokens((if i > 0 then ", " else "") + text) == (if i > 0 then [COMMA] else []) + Tokens(text)
    ensures i > 0 ==> EndsNumber((if i > 0 then ", " else "") + text)
  {
    hide Tokens;
    if i > 0 {
      SpacesVanish(" ", text);
      WordToken(ArraySeparator, ",", " " + text);
      assert ", " + text == "," + (" " + text);
    } else {
      assert "" + text == text;
    }
  }

  lemma ArraySlotWords(v: Value, i: nat)
    requires v.payload.Array? && i < Size(v)
    ensures SlotWords(true, v, i) ==
      (if i > 0 then [COMMA] else []) + Words(true, SlotAt(v, i).value) + SlotWords(true, v, i + 1)
  {
    hide Words;
    assert NameWords(true, SlotAt(v, i)) == [];
  }

  predicate Blank(s: string) { forall c :: c in s ==> c == ' ' }

  lemma IndentVanishes(doc: string, indent: string, text: string)
    requires Blank(indent)
    ensures Tokens(IndentText(doc, indent) + text) == Tokens(text)
    ensures EndsNumber(text) ==> EndsNumber(IndentText(doc, indent) + text)
  {
    hide Tokens;
    var w := IndentText(doc, indent);
    SpacesVanish(w, text);
    if w == "" {
      assert w + text == text;
    } else {
      assert w[0] in w && (w + text)[0] == w[0] && IsSpace(w[0]);
    }
  }

  /** Whatever the document ends with, whatever the indentation and margin, the
      styled text of a tree lexes as the tree's words. */
  lemma {:induction false} StyledTokens(o: StyleOptions, doc: string, indent: string, v: Value, rest: string)
    requires Blank(indent) && RealFree(v) && EndsNumber(rest)
    ensures Tokens(Styled(o, doc, indent, v) + rest) == Words(true, v) + Tokens(rest)
    decreases Levels(v), 1, 0
  {
    hide Tokens, StyledSlots, SlotWords, FlatText, Joined, MultiLine, LaterWords;
    if Flat(v) {
      FlatTokens(o, v, rest);
    } else if v.payload.Array? && !MultiLine(o, v) {
      SingleLineTokens(o, doc, indent, v, rest);
    } else {
      BlockTokens(o, doc, indent, v, rest);
    }
  }

  lemma SingleLineTokens(o: StyleOptions, doc: string, indent: string, v: Value, rest: string)
    requires v.payload.Array? && RealFree(v) && EndsNumber(rest) && !Flat(v) && !MultiLine(o, v)
    ensures Tokens(Styled(o, doc, indent, v) + rest) == Words(true, v) + Tokens(rest)
  {
    hide Tokens, SlotWords, Joined, TextLength;
    var joined := Joined(o, v, 0);
    var tail := " " + ("]" + rest);
    assert Styled(o, doc, indent, v) + rest == "[" + (" " + (joined + tail));
    WordToken(ArrayBegin, "[", " " + (joined + tail));
    SpacesVanish(" ", joined + tail);
    JoinedTokens(o, v, 0, tail);
    SpacesVanish(" ", "]" + rest);
    WordToken(ArrayEnd, "]", rest);
  }

  lemma {:induction false} BlockTokens(o: StyleOptions, doc: string, indent: string, v: Value, rest: string)
    requires Blank(indent) && RealFree(v) && EndsNumber(rest)
    requires !Flat(v) && (v.payload.Array? ==> MultiLine(o, v))
    ensures Tokens(Styled(o, doc, indent, v) + rest) == Words(true, v) + Tokens(rest)
    decreases Levels(v), 0, Size(v) + 1
  {
    hide Tokens, StyledSlots, SlotWords, MultiLine, IndentText, LaterWords, SlotAt, Words;
    var open, shut := Open(v), Shut(v);
    var head := IndentText(doc, indent) + open;
    var inner := indent + Blanks(o.indentSize);
    var body := StyledSlots(o, doc + head, inner, v, 0);
    var pad := IndentText(doc + head + body, indent);
    var end := pad + (shut + rest);
    assert Styled(o, doc, indent, v) + rest == IndentText(doc, indent) + (open + (body + end));
    IndentVanishes(doc, indent, open + (body + end));
    WordToken(if v.payload.Array? then ArrayBegin else ObjectBegin, open, body + end);
    IndentVanishes(doc + head + body, indent, shut + rest);
    StyledSlotsTokens(o, doc + head, inner, v, 0, end);
    WordToken(if v.payload.Array? then ArrayEnd else ObjectEnd, shut, rest);
    BlockWords(v);
  }

  lemma BlockWords(v: Value)
    requires v.payload.Container() && Size(v) > 0
    ensures Words(true, v) ==
      [Word(if v.payload.Array? then ArrayBegin else ObjectBegin, Open(v))] + LaterWords(true, v, 0)
      + [Word(if v.payload.Array? then ArrayEnd else ObjectEnd, Shut(v))]
  {
    assert SlotWords(true, v, 0) == LaterWords(true, v, 0);
  }

  lemma {:induction false} StyledSlotsTokens(o: StyleOptions, doc: string, indent: string, v: Value, i: nat, rest: string)
    requires Blank(indent) && v.payload.Container() && i <= Size(v) && SlotsRealFree(v, i) && EndsNumber(rest)
    ensures Tokens(StyledSlots(o, doc, indent, v, i) + rest) == LaterWords(true, v, i) + Tokens(rest)
    decreases Levels(v), 0, Size(v) - i
  {
    hide Tokens, Styled, Words, RealFree, SlotWords, SlotAt, IndentText, StyledName;
    if i == Size(v) {
      assert StyledSlots(o, doc, indent, v, i) + rest == rest;
    } else {
      var s := SlotAt(v, i);
      var pad := IndentText(doc, indent);
      var head := pad + StyledName(s);
      var text := Styled(o, doc + head, indent, s.value);
      var one := StyledSlot(o, doc, indent, v, i);
      var more := StyledSlots(o, doc + one, indent, v, i + 1) + rest;
      var comma := if i + 1 < Size(v) then "," else "";
      StyledSlotsTokens(o, doc + one, indent, v, i + 1, rest);
      AfterSlot(v, i, more, rest);
      StyledTokens(o, doc + head, indent, s.value, comma + more);
      StyledNameTokens(s, text + (comma + more));
      IndentVanishes(doc, indent, StyledName(s) + (text + (comma + more)));
      SlotSplits(pad, StyledName(s), text, comma, StyledSlots(o, doc + one, indent, v, i + 1), rest);
      hide EndsNumber, Blank, AllFlat;
    }
  }

  lemma SlotSplits(pad: string, name: string, text: string, comma: string, later: string, rest: string)
    ensures pad + name + text + comma + later + rest == pad + (name + (text + (comma + (later + rest))))
  {
  }

  /** The comma after a child that is not the last. */
  lemma AfterSlot(v: Value, i: nat, more: string, rest: string)
    requires v.payload.Container() && i < Size(v) && EndsNumber(rest)
    requires Tokens(more) == LaterWords(true, v, i + 1) + Tokens(rest)
    requires i + 1 == Size(v) ==> more == rest
    ensures Tokens((if i + 1 < Size(v) then "," else "") + more) == SlotWords(true, v, i + 1) + Tokens(rest)
    ensures EndsNumber((if i + 1 < Size(v) then "," else "") + more)
  {
    hide Tokens, LaterWords, SlotWords;
    CommaWords(true, v, i + 1);
    if i + 1 < Size(v) {
      WordToken(ArraySeparator, ",", more);
    } else {
      assert "" + more == more;
    }
  }

  lemma StyledNameTokens(s: Slot, text: string)
    ensures Tokens(StyledName(s) + text) == NameWords(true, s) + Tokens(text)
  {
    hide Tokens, NameWords, Quoted, Printed;
    if s.named {
      NameTokens(true, s, " ", " ", text);
      assert StyledName(s) == Quoted(Printed(true, s.name)) + " " + ":" + " ";
    } else {
      UnnamedTokens(true, s, StyledName(s), text);
    }
  }

  lemma StyledDocumentTokens(o: StyleOptions, v: Value)
    requires RealFree(v)
    ensures Tokens(StyledDocument(o, v)) == Words(true, v)
  {
    hide Words, Styled;
    StyledTokens(o, "", "", v, "\n");
    SpacesVanish("\n", "");
    assert "\n" + "" == "\n";
  }

  // --------------------------------------------- when the layouts agree

  /** Passing names through C strings leaves the words alone exactly when no
      name in the tree contains a NUL. */
  lemma {:induction false} CutNamesIff(v: Value)
    ensures |Words(true, v)| == |Words(false, v)|
    ensures Words(true, v) == Words(false, v) <==> NulFreeNames(v)
    decreases Levels(v), 1, 0
  {
    if v.payload.Container() {
      CutSlotsIff(v, 0);
      var a, b := SlotWords(true, v, 0), SlotWords(false, v, 0);
      assert Words(true, v)[1..1 + |a|] == a && Words(false, v)[1..1 + |b|] == b;
    }
  }

  lemma {:induction false} CutSlotsIff(v: Value, i: nat)
    requires v.payload.Container() && i <= Size(v)
    ensures |SlotWords(true, v, i)| == |SlotWords(false, v, i)|
    ensures SlotWords(true, v, i) == SlotWords(false, v, i) <==> SlotsNulFree(v, i)
    decreases Levels(v), 0, Size(v) - i
  {
    hide Words, NulFreeNames, Quoted;
    if i < Size(v) {
      var s := SlotAt(v, i);
      CutNamesIff(s.value);
      CutSlotsIff(v, i + 1);
      CutName(s);
      var comma := if i > 0 then [COMMA] else [];
      ConcatEqual(comma, comma, NameWords(true, s), NameWords(false, s), Words(true, s.value), Words(false, s.value),
                  SlotWords(true, v, i + 1), SlotWords(false, v, i + 1));
    }
  }

  lemma CutName(s: Slot)
    ensures |NameWords(true, s)| == |NameWords(false, s)|
    ensures s.named ==> (NameWords(true, s) == NameWords(false, s) <==> NUL !in s.name)
  {
    hide Quoted;
    if s.named {
      var cut := Printed(true, s.name);
      if NUL !in s.name {
        CTextStops(s.name, s.name + [NUL]);
      } else {
        assert NUL !in cut;
        assert cut != s.name;
      }
      if Quoted(cut) == Quoted(s.name) { QuotedInjective(cut, s.name); }
      assert NameWords(true, s)[0].text == Quoted(cut) && NameWords(false, s)[0].text == Quoted(s.name);
    }
  }

  lemma ConcatEqual<T>(a: seq<T>, a': seq<T>, b: seq<T>, b': seq<T>, c: seq<T>, c': seq<T>, d: seq<T>, d': seq<T>)
    requires |a| == |a'| && |b| == |b'| && |c| == |c'| && |d| == |d'|
    ensures a + b + c + d == a' + b' + c' + d' <==> a == a' && b == b' && c == c' && d == d'
  {
    var x, y := a + b + c + d, a' + b' + c' + d';
    if x == y {
      var i, j, k := |a|, |a| + |b|, |a| + |b| + |c|;
      assert x[..i] == a && x[i..j] == b && x[j..k] == c && x[k..] == d;
      assert y[..i] == a' && y[i..j] == b' && y[j..k] == c' && y[k..] == d';
    }
  }

  /** The layout theorem: for every comment-free, real-free tree, margin, indent
      width and FastWriter option, the two writers emit the same tokens if and
      only if no member name contains a NUL. */
  lemma LayoutKeepsTokens(f: FastOptions, o: StyleOptions, v: Value)
    requires RealFree(v) && !f.dropNulls
    ensures Tokens(StyledDocument(o, v)) == Tokens(FastDocument(f, v)) <==> NulFreeNames(v)
  {
    hide Tokens, Words, NulFreeNames;
    StyledDocumentTokens(o, v);
    FastDocumentTokens(f, v);
    CutNamesIff(v);
  }

  /** An object with the one name "a" NUL "b" shows the difference. */
  lemma NulNameDiffers(f: FastOptions, o: StyleOptions)
    requires !f.dropNulls
    ensures var v := Value(Object([Entry(Name("a" + [NUL] + "b"), NULL_VALUE)]), 0, 0);
            Tokens(StyledDocument(o, v)) != Tokens(FastDocument(f, v))
  {
    hide Tokens;
    var v := Value(Object([Entry(Name("a" + [NUL] + "b"), NULL_VALUE)]), 0, 0);
    assert SlotAt(v, 0) == Slot(true, "a" + [NUL] + "b", NULL_VALUE);
    assert ("a" + [NUL] + "b")[1] == NUL;
    assert RealFree(NULL_VALUE) && SlotsRealFree(v, 1);
    LayoutKeepsTokens(f, o, v);
  }

  // --------------------------------------------------------- the writer

  /** The first n buffered strings are the texts of the first n children. */
  predicate Buffered(o: StyleOptions, v: Value, childValues: seq<string>, n: nat)
    requires v.payload.Container() && n <= Size(v) && AllFlat(v, 0)
  {
    |childValues| == n &&
    forall i :: 0 <= i < n ==> (FlatAt(v, i); childValues[i] == FlatText(o, SlotAt(v, i).value))
  }

  class StyledWriter {
    const options: StyleOptions
    var document: string
    var childValues: seq<string>
    var indentString: string
    var addChildValues: bool

    constructor (options: StyleOptions)
      ensures this.options == options
    {
      this.options := options;
      document, childValues, indentString, addChildValues := "", [], "", false;
    }

    method Write(root: Value) returns (text: string)
      requires WellFormed(root)
      modifies this
      ensures text == StyledDocument(options, root)
    {
      document := "";
      addChildValues := false;
      indentString := "";
      WriteValue(root);
      document := document + "\n";
      text := document;
      assert "" + Styled(options, "", "", root) == Styled(options, "", "", root);
    }

    method PushValue(value: string)
      modifies this`document, this`childValues
      ensures addChildValues ==> document == old(document) && childValues == old(childValues) + [value]
      ensures !addChildValues ==> document == old(document) + value && childValues == old(childValues)
    {
      if addChildValues {
        childValues := childValues + [value];
      } else {
        document := document + value;
      }
    }

    method WriteIndent()
      modifies this`document
      ensures document == old(document) + IndentText(old(document), indentString)
    {
      if document != "" {
        var last := document[|document| - 1];
        if last == ' ' { return; }
        if last != '\n' { document := document + "\n"; }
      }
      document := document + indentString;
    }

    method WriteWithIndent(value: string)
      modifies this`document
      ensures document == old(document) + IndentText(old(document), indentString) + value
    {
      WriteIndent();
      document := document + value;
    }

    method Indent()
      modifies this`indentString
      ensures indentString == old(indentString) + Blanks(options.indentSize)
    {
      indentString := indentString + Blanks(options.indentSize);
    }

    method Unindent()
      requires |indentString| >= options.indentSize
      modifies this`indentString
      ensures indentString == old(indentString)[..|old(indentString)| - options.indentSize]
    {
      indentString := indentString[..|indentString| - options.indentSize];
    }

    /** The cases of writeValue that end in pushValue. */
    method WriteFlat(v: Value)
      requires WellFormed(v) && Flat(v)
      modifies this`document, this`childValues
      ensures addChildValues ==> document == old(document) && childValues == old(childValues) + [FlatText(options, v)]
      ensures !addChildValues ==> document == old(document) + FlatText(options, v) && childValues == old(childValues)
    {
      var text := "";
      match v.payload {
      case Null => text := "null";
      case Int(i) => text := ValueToString(i);
      case UInt(u) => text := ValueToString(u);
      case Real(r) => text := options.showReal(r);
      case Str(s) =>
        text := ValueToQuotedStringN(s + [NUL], |s|);
        assert (s + [NUL])[..|s|] == s;
      case Bool(b) => text := BoolText(b);
      case Array(_) => text := "[]";
      case Object(_) => text := "{}";
      }
      PushValue(text);
    }

    /** writeValue.  While isMultineArray is buffering, only flat values reach
        it, and each adds exactly one string. */
    method WriteValue(v: Value)
      requires WellFormed(v)
      requires addChildValues ==> Flat(v)
      modifies this`document, this`childValues, this`indentString, this`addChildValues
      ensures indentString == old(indentString) && addChildValues == old(addChildValues)
      ensures old(addChildValues) ==> document == old(document) && childValues == old(childValues) + [FlatText(options, v)]
      ensures !old(addChildValues) ==> document == old(document) + Styled(options, old(document), indentString, v)
      decreases Levels(v), 2, 0
    {
      if Flat(v) {
        WriteFlat(v);
      } else if v.payload.Array? {
        WriteArrayValue(v);
      } else {
        WriteBlock(v, false);
      }
    }

    method WriteArrayValue(v: Value)
      requires WellFormed(v) && v.payload.Array? && Size(v) > 0 && !addChildValues
      modifies this`document, this`childValues, this`indentString, this`addChildValues
      ensures indentString == old(indentString) && !addChildValues
      ensures document == old(document) + Styled(options, old(document), indentString, v)
      decreases Levels(v), 1, 0
    {
      hide StyledSlots, Joined;
      var isArrayMultiLine := IsMultilineArray(v);
      if isArrayMultiLine {
        WriteBlock(v, childValues != []);
      } else {
        WriteSingleLine(v);
      }
    }

    /** The single-line branch: the buffer holds one string per child. */
    method WriteSingleLine(v: Value)
      requires v.payload.Array? && Size(v) > 0 && AllFlat(v, 0) && Buffered(options, v, childValues, Size(v))
      modifies this`document
      ensures document == old(document) + ("[ " + Joined(options, v, 0) + " ]")
    {
      hide FlatText, SlotAt;
      document := document + "[ ";
      ghost var before := document;
      for index := 0 to Size(v)
        invariant AllFlat(v, index)
        invariant document + Joined(options, v, index) == before + Joined(options, v, 0)
      {
        ghost var start := document;
        if index > 0 { document := document + ", "; }
        document := document + childValues[index];
        Regroup(start, if index > 0 then ", " else "", childValues[index], Joined(options, v, index + 1));
        assert start + (if index > 0 then ", " else "") + childValues[index] == document;
      }
      assert document + "" == document;
      document := document + " ]";
      Regroup(old(document), "[ ", Joined(options, v, 0), " ]");
    }

    /** isMultineArray: when it answers false the buffer is exactly this
        array's child texts; when it answers true the buffer is either empty or
        complete, never left over from another array. */
    method IsMultilineArray(v: Value) returns (isMultiLine: bool)
      requires WellFormed(v) && v.payload.Array? && Size(v) > 0 && !addChildValues
      modifies this`childValues, this`addChildValues, this`document, this`indentString
      ensures document == old(document) && indentString == old(indentString) && !addChildValues
      ensures isMultiLine == MultiLine(options, v)
      ensures !isMultiLine ==> AllFlat(v, 0) && Buffered(options, v, childValues, Size(v))
      ensures isMultiLine ==> childValues == [] || (AllFlat(v, 0) && Buffered(options, v, childValues, Size(v)))
      decreases Levels(v), 0, 1
    {
      hide AllFlat, Buffered, TextLength, WellFormed;
      var size := Size(v);
      isMultiLine := size * 3 % TWO_32 >= options.rightMargin;
      childValues := [];
      if isMultiLine { return; }
      var flat := CheckFlat(v);
      if !flat { return true; }
      var lineLength := BufferChildren(v);
      isMultiLine := lineLength % TWO_32 >= options.rightMargin;
    }

    method BufferChildren(v: Value) returns (lineLength: nat)
      requires WellFormed(v) && v.payload.Array? && Size(v) > 0 && AllFlat(v, 0) && !addChildValues && childValues == []
      modifies this`childValues, this`addChildValues, this`document, this`indentString
      ensures document == old(document) && indentString == old(indentString) && !addChildValues
      ensures Buffered(options, v, childValues, Size(v))
      ensures lineLength == 4 + (Size(v) - 1) * 2 + TextLength(options, v, Size(v))
      decreases Levels(v), 0, 0
    {
      hide AllFlat, SlotAt, FlatText, WellFormed, Styled;
      addChildValues := true;
      lineLength := 4 + (Size(v) - 1) * 2;
      for index := 0 to Size(v)
        invariant addChildValues && document == old(document) && indentString == old(indentString)
        invariant Buffered(options, v, childValues, index)
        invariant lineLength == 4 + (Size(v) - 1) * 2 + TextLength(options, v, index)
      {
        FlatAt(v, index);
        ChildWellFormed(v, index);
        WriteValue(SlotAt(v, index).value);
        lineLength := lineLength + |childValues[index]|;
      }
      addChildValues := false;
    }

    /** The scan for a non-empty container among the children. */
    method CheckFlat(v: Value) returns (flat: bool)
      requires v.payload.Array?
      ensures flat == AllFlat(v, 0)
    {
      for index := 0 to Size(v)
        invariant AllFlat(v, 0) == AllFlat(v, index)
      {
        if !Flat(SlotAt(v, index).value) { return false; }
      }
      return true;
    }

    /** The multi-line layouts of arrays and objects. */
    method WriteBlock(v: Value, hasChildValue: bool)
      requires WellFormed(v) && v.payload.Container() && Size(v) > 0 && !addChildValues
      requires v.payload.Array? ==> MultiLine(options, v)
      requires hasChildValue ==> v.payload.Array? && AllFlat(v, 0) && Buffered(options, v, childValues, Size(v))
      modifies this`document, this`childValues, this`indentString, this`addChildValues
      ensures indentString == old(indentString) && !addChildValues
      ensures document == old(document) + Styled(options, old(document), indentString, v)
      decreases Levels(v), 0, 3
    {
      hide MultiLine, StyledSlots, IndentText, Buffered;
      WriteWithIndent(if v.payload.Array? then "[" else "{");
      ghost var head := IndentText(old(document), indentString) + Open(v);
      assert document == old(document) + head;
      Indent();
      ghost var body := StyledSlots(options, document, indentString, v, 0);
      WriteSlots(v, hasChildValue);
      Unindent();
      assert indentString == old(indentString);
      WriteWithIndent(if v.payload.Array? then "]" else "}");
      assert document == old(document) + (head + body + (IndentText(old(document) + head + body, indentString) + Shut(v)));
    }

    method WriteSlots(v: Value, hasChildValue: bool)
      requires WellFormed(v) && v.payload.Container() && !addChildValues
      requires hasChildValue ==> v.payload.Array? && AllFlat(v, 0) && Buffered(options, v, childValues, Size(v))
      modifies this`document, this`childValues, this`indentString, this`addChildValues
      ensures indentString == old(indentString) && !addChildValues
      ensures document == old(document) + StyledSlots(options, old(document), indentString, v, 0)
      decreases Levels(v), 0, 2
    {
      hide StyledSlot, Buffered, WellFormed;
      ghost var start := document;
      for index := 0 to Size(v)
        invariant indentString == old(indentString) && !addChildValues
        invariant hasChildValue ==> Buffered(options, v, childValues, Size(v))
        invariant document + StyledSlots(options, document, indentString, v, index)
               == start + StyledSlots(options, start, indentString, v, 0)
      {
        ghost var before := document;
        WriteSlot(v, index, hasChildValue);
        assert before + StyledSlots(options, before, indentString, v, index)
            == document + StyledSlots(options, document, indentString, v, index + 1);
      }
      assert document + "" == document;
    }

    method WriteSlot(v: Value, index: nat, hasChildValue: bool)
      requires WellFormed(v) && v.payload.Container() && index < Size(v) && !addChildValues
      requires hasChildValue ==> v.payload.Array? && AllFlat(v, 0) && Buffered(options, v, childValues, Size(v))
      modifies this`document, this`childValues, this`indentString, this`addChildValues
      ensures indentString == old(indentString) && !addChildValues
      ensures hasChildValue ==> childValues == old(childValues)
      ensures document == old(document) + StyledSlot(options, old(document), indentString, v, index)
      decreases Levels(v), 0, 1
    {
      hide IndentText, WellFormed, Quoted, StyledName, Styled, SlotAt;
      ghost var head := IndentText(document, indentString) + StyledName(SlotAt(v, index));
      if hasChildValue {
        WriteBuffered(v, index);
      } else if v.payload.Array? {
        WriteElement(v, index);
      } else {
        WriteMember(v, index);
      }
      assert document == old(document) + head + Styled(options, old(document) + head, indentString, SlotAt(v, index).value);
      if index + 1 < Size(v) { document := document + ","; }
    }

    /** Name and value of the i-th child, as an addition to `doc`. */
    ghost function ChildText(doc: string, v: Value, i: nat): string
      requires v.payload.Container() && i < Size(v)
      reads this`indentString
    {
      var head := IndentText(doc, indentString) + StyledName(SlotAt(v, i));
      doc + head + Styled(options, doc + head, indentString, SlotAt(v, i).value)
    }

    method WriteBuffered(v: Value, index: nat)
      requires v.payload.Array? && index < Size(v) && AllFlat(v, 0) && Buffered(options, v, childValues, Size(v))
      modifies this`document
      ensures document == ChildText(old(document), v, index)
    {
      hide IndentText, FlatText, AllFlat;
      FlatAt(v, index);
      WriteWithIndent(childValues[index]);
      ghost var pad := IndentText(old(document), indentString);
      assert pad + "" == pad;
    }

    method WriteElement(v: Value, index: nat)
      requires WellFormed(v) && v.payload.Array? && index < Size(v) && !addChildValues
      modifies this`document, this`childValues, this`indentString, this`addChildValues
      ensures indentString == old(indentString) && !addChildValues
      ensures document == ChildText(old(document), v, index)
      decreases Levels(v), 0, 0
    {
      hide IndentText, WellFormed, Styled, Levels;
      ChildWellFormed(v, index);
      assert SlotAt(v, index).value == Get(v.payload.items, Index(index));
      WriteIndent();
      ghost var pad := IndentText(old(document), indentString);
      assert pad + "" == pad;
      WriteValue(Get(v.payload.items, Index(index)));
    }

    method WriteMember(v: Value, index: nat)
      requires WellFormed(v) && v.payload.Object? && index < Size(v) && !addChildValues
      modifies this`document, this`childValues, this`indentString, this`addChildValues
      ensures indentString == old(indentString) && !addChildValues
      ensures document == ChildText(old(document), v, index)
      decreases Levels(v), 0, 0
    {
      hide IndentText, WellFormed, Styled, Quoted, CText, Levels;
      ChildWellFormed(v, index);
      var name := v.payload.items[index].key.text;
      var quoted := ValueToQuotedString(name + [NUL]);
      WriteWithIndent(quoted);
      document := document + " : ";
      assert document == old(document) + (IndentText(old(document), indentString) + StyledName(SlotAt(v, index)));
      WriteValue(v.payload.items[index].value);
    }
  }
}
