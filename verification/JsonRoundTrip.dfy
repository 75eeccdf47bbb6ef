/** Reading back what the writers print. */
module JsonRoundTrip {
  import opened JsonNormalForm
  import opened JsonNumber
  import opened JsonParse
  import opened JsonScanner
  import opened JsonString
  import opened JsonStyledWriter
  import opened JsonValue
  import opened JsonWriter
  import opened Options
  import opened Slices

  // -------------------------------------------------------------- depth

  /** Some child from the i-th on needs more levels than are left. */
  predicate TooDeep(v: Value, i: nat, depth: int)
    requires v.payload.Container() && i <= Size(v)
    decreases Size(v) - i
  {
    i < Size(v) && (depth + Levels(SlotAt(v, i).value) > STACK_LIMIT || TooDeep(v, i + 1, depth))
  }

  lemma {:induction false} TooDeepAt(v: Value, i: nat, j: nat, depth: int)
    requires v.payload.Container() && i <= j < Size(v)
    requires depth + Levels(SlotAt(v, j).value) > STACK_LIMIT
    ensures TooDeep(v, i, depth)
    decreases j - i
  {
    if i < j { TooDeepAt(v, i + 1, j, depth); }
  }

  lemma {:induction false} NotTooDeep(v: Value, i: nat, depth: int)
    requires v.payload.Container() && i <= Size(v) && depth - 1 + Levels(v) <= STACK_LIMIT
    ensures !TooDeep(v, i, depth)
    decreases Size(v) - i
  {
    if i < Size(v) { NotTooDeep(v, i + 1, depth); }
  }

  lemma {:induction false} DeepestItem(items: seq<Entry>) returns (p: nat)
    requires items != []
    ensures p < |items| && Levels(items[p].value) == MaxLevels(items)
  {
    if |items| == 1 || Levels(items[0].value) == MaxLevels(items) {
      assert |items| == 1 ==> items[1..] == [];
      p := 0;
    } else {
      var q := DeepestItem(items[1..]);
      p := q + 1;
    }
  }

  /** Every stored entry is one of the children. */
  lemma ItemSlot(v: Value, p: nat) returns (j: nat)
    requires v.payload.Container() && WellFormed(v) && p < |v.payload.items|
    ensures j < Size(v) && SlotAt(v, j).value == v.payload.items[p].value
  {
    hide Levels;
    var items := v.payload.items;
    assert items[p] in items && items[|items| - 1] in items;
    if v.payload.Array? {
      j := items[p].key.index;
      GetIffPresent(items, Index(j), items[p].value);
      assert p == |items| - 1 || KeyLess(items[p].key, items[|items| - 1].key);
    } else {
      j := p;
    }
  }

  lemma TooDeepIff(v: Value, depth: int)
    requires v.payload.Container() && WellFormed(v) && depth < STACK_LIMIT
    ensures TooDeep(v, 0, depth + 1) <==> depth + Levels(v) > STACK_LIMIT
  {
    hide WellFormed, TooDeep, SlotAt;
    var items := v.payload.items;
    if depth + Levels(v) > STACK_LIMIT {
      assert items == [] ==> MaxLevels(items) == 0;
      var p := DeepestItem(items);
      var j := ItemSlot(v, p);
      TooDeepAt(v, 0, j, depth + 1);
    } else {
      NotTooDeep(v, 0, depth + 1);
    }
  }

  // -------------------------------------------------------------- tokens

  /** The next token, when the stream is known and does not start with a
      comment: every reading routine agrees on it. */
  lemma Head(src: Source, cur: nat, w: Word, tail: seq<Word>)
    requires cur <= |src.doc| && Tokens(src.doc[cur..]) == [w] + tail && w.kind != Comment && w.kind != EndOfStream
    ensures var t := ReadToken(src.doc, cur);
            && t.kind == w.kind && TokenText(src.doc, t) == w.text && Tokens(src.doc[t.end..]) == tail
            && NonComment(src.doc, cur) == t && ValueToken(src, cur) == t
  {
    hide Tokens;
    ReadTokenIsHead(src.doc, cur);
    var t := ReadToken(src.doc, cur);
    assert ([w] + tail)[0] == w && ([w] + tail)[1..] == tail;
    var w' := Word(t.kind, src.doc[t.start..t.end]);
    assert t.kind != EndOfStream;
    assert ([w'] + Tokens(src.doc[t.end..]))[0] == w' && ([w'] + Tokens(src.doc[t.end..]))[1..] == Tokens(src.doc[t.end..]);
  }

  lemma {:induction false} SpaceRunIsSpace(s: string)
    ensures forall c :: c in s[..SpaceRun(s)] ==> IsSpace(c)
    ensures SpaceRun(s) < |s| ==> !IsSpace(s[SpaceRun(s)])
  {
    if s != "" && IsSpace(s[0]) {
      SpaceRunIsSpace(s[1..]);
      assert s[..SpaceRun(s)] == [s[0]] + s[1..][..SpaceRun(s[1..])];
    }
  }

  lemma TokensAfterSpaces(doc: string, cur: nat)
    requires cur <= |doc|
    ensures Tokens(doc[cur + SpaceRun(doc[cur..])..]) == Tokens(doc[cur..])
  {
    hide Tokens;
    var s := doc[cur..];
    var k := SpaceRun(s);
    SpaceRunIsSpace(s);
    DropDrop(doc, cur, k);
    SpacesVanish(s[..k], s[k..]);
    assert s[..k] + s[k..] == s;
  }

  /** readArray's look at the next character sees the closing bracket exactly
      when the next token is one. */
  lemma BracketIsToken(doc: string, cur: nat)
    requires cur <= |doc|
    ensures var k := cur + SpaceRun(doc[cur..]);
            (k < |doc| && doc[k] == ']') <==> ReadToken(doc, cur).kind == ArrayEnd
    ensures var k := cur + SpaceRun(doc[cur..]);
            k < |doc| && doc[k] == ']' ==> ReadToken(doc, k) == ReadToken(doc, cur)
  {
    hide StringRun, CommentRun, NumberRun, WordRun;
    var k := cur + SpaceRun(doc[cur..]);
    if k < |doc| {
      assert doc[k..][0] == doc[k];
      if doc[k] == ']' { assert SpaceRun(doc[k..]) == 0; }
    }
  }

  // ---------------------------------------------------------- round trip

  predicate ReadsBack(c: bool, o: Outcome, src: Source, v: Value, rest: seq<Word>) {
    o.Done? && o.ok && o.cur <= |src.doc| && Erase(o.value) == Reread(c, v) && Tokens(src.doc[o.cur..]) == rest
  }

  /** On any document whose unread tokens begin with the words of `v`, at any
      depth and into any slot, readValue rebuilds the normal form of `v` and
      stops right behind it; or it throws, exactly when the levels do not fit. */
  lemma {:induction false} ReadValueBack(c: bool, src: Source, cur: nat, depth: int, slot: Value, v: Value, rest: seq<Word>)
    requires cur <= |src.doc| && WellFormed(v) && RealFree(v)
    requires Tokens(src.doc[cur..]) == Words(c, v) + rest
    ensures var o := ReadValue(src, cur, depth, slot);
            if depth + Levels(v) > STACK_LIMIT then o == Thrown(StackLimitExceeded)
            else ReadsBack(c, o, src, v, rest)
    decreases Levels(v), 1, 0
  {
    hide Tokens, ReadMembers, ReadArray, SlotWords, RereadItems, DecodeNumber, Unescape, NonComment, ReadToken, RealFree, WellFormed;
    if depth < STACK_LIMIT {
      if v.payload.Array? {
        ReadArrayBack(c, src, cur, depth, slot, v, rest);
      } else if v.payload.Object? {
        ReadObjectBack(c, src, cur, depth, slot, v, rest);
      } else {
        ReadScalarBack(c, src, cur, depth, slot, v, rest);
      }
    }
  }

  lemma ReadScalarBack(c: bool, src: Source, cur: nat, depth: int, slot: Value, v: Value, rest: seq<Word>)
    requires cur <= |src.doc| && WellFormed(v) && RealFree(v) && !v.payload.Container() && depth < STACK_LIMIT
    requires Tokens(src.doc[cur..]) == Words(c, v) + rest
    ensures ReadsBack(c, ReadValue(src, cur, depth, slot), src, v, rest)
  {
    hide Tokens, ReadMembers, ReadArray, ReadNumber, ReadString, NonComment, ReadToken, Quoted, SignedDecimal, TokenText;
    var w := Words(c, v)[0];
    Head(src, cur, w, rest);
    var t := ReadToken(src.doc, cur);
    match v.payload
    case Int(i) => ReadIntegerText(src, t, depth, slot, i);
    case UInt(u) => ReadIntegerText(src, t, depth, slot, u);
    case Str(s) => ReadQuotedText(src, t, depth, slot, s);
    case _ =>
  }

  lemma ReadIntegerText(src: Source, t: Token, depth: int, slot: Value, i: int)
    requires t.start <= t.end <= |src.doc| && TokenText(src.doc, t) == SignedDecimal(i) && -TWO_63 <= i < TWO_64
    ensures ReadNumber(src, t, depth, slot) == Done(true, t.end, depth, [], Value(NormalInteger(i), t.start, t.end))
  {
    hide DecodeNumber, SignedDecimal, TokenText;
    DecodeInvertsWrite(i);
  }

  lemma ReadQuotedText(src: Source, t: Token, depth: int, slot: Value, s: string)
    requires t.start <= t.end <= |src.doc| && TokenText(src.doc, t) == Quoted(s) && |s| <= TEXT_LIMIT
    ensures ReadString(src, t, depth, slot) == Done(true, t.end, depth, [], Value(Str(s), t.start, t.end))
  {
    hide Unescape, Quoted, Inner, TokenText;
    UnquoteToken(src.doc, t, s);
    assert s[..|s|] == s;
  }

  /** The text between the quotes of a quoted token decodes to the original. */
  lemma UnquoteToken(doc: string, t: Token, s: string)
    requires t.start <= t.end <= |doc| && TokenText(doc, t) == Quoted(s)
    ensures Unescape(Inner(doc, t)) == JsonString.Text(s)
  {
    hide Unescape, EscapeAll;
    QuotedIsToken(s, "");
    DropSlice(doc[..t.end], t.start, 1, t.end - t.start - 1);
    assert doc[..t.end][t.start..] == doc[t.start..t.end];
    assert doc[..t.end][t.start + 1..t.end - 1] == doc[t.start + 1..t.end - 1];
    UnescapeInvertsEscape(s);
  }

  lemma {:induction false} ReadArrayBack(c: bool, src: Source, cur: nat, depth: int, slot: Value, v: Value, rest: seq<Word>)
    requires cur <= |src.doc| && WellFormed(v) && RealFree(v) && v.payload.Array? && depth < STACK_LIMIT
    requires Tokens(src.doc[cur..]) == Words(c, v) + rest
    ensures var o := ReadValue(src, cur, depth, slot);
            if depth + Levels(v) > STACK_LIMIT then o == Thrown(StackLimitExceeded)
            else ReadsBack(c, o, src, v, rest)
    decreases Levels(v), 0, Size(v) + 2
  {
    hide Tokens, ReadElements, SlotWords, LaterWords, RereadItems, NonComment, ReadToken, TooDeep, WellFormed, Levels;
    assert SlotsRealFree(v, 0);
    var body := SlotWords(c, v, 0) + ([Word(ArrayEnd, "]")] + rest);
    assert Words(c, v) + rest == [Word(ArrayBegin, "[")] + body;
    Head(src, cur, Word(ArrayBegin, "["), body);
    var t := ReadToken(src.doc, cur);
    var arr := Value(Array([]), t.start, slot.limit);
    ArrayOpens(src, cur, depth, slot);
    hide ReadArray, ReadValue, Words, RealFree;
    TooDeepIff(v, depth);
    ArrayBodyBack(c, src, t.end, depth + 1, v, arr, rest);
  }

  lemma ArrayOpens(src: Source, cur: nat, depth: int, slot: Value)
    requires cur <= |src.doc| && depth < STACK_LIMIT && ValueToken(src, cur).kind == ArrayBegin
    ensures var t := ValueToken(src, cur);
            ReadValue(src, cur, depth, slot) == Close(ReadArray(src, t.end, depth + 1, Value(Array([]), t.start, slot.limit)))
  {
    hide ReadArray, NonComment, ReadToken;
  }

  lemma {:induction false} ArrayBodyBack(c: bool, src: Source, cur: nat, depth: int, v: Value, arr: Value, rest: seq<Word>)
    requires cur <= |src.doc| && WellFormed(v) && v.payload.Array? && SlotsRealFree(v, 0) && arr.payload == Array([])
    requires Tokens(src.doc[cur..]) == SlotWords(c, v, 0) + ([Word(ArrayEnd, "]")] + rest)
    ensures BodyBack(c, ReadArray(src, cur, depth, arr), src, depth, v, 0, rest)
    decreases Levels(v), 0, Size(v) + 1
  {
    hide Tokens, ReadElements, Words, NonComment, ReadToken, WellFormed, Levels, SlotAt, NameWords, RereadItems;
    RereadStarts(c, v);
    BracketIsToken(src.doc, cur);
    if Size(v) == 0 {
      assert Tokens(src.doc[cur..]) == [Word(ArrayEnd, "]")] + rest;
      Head(src, cur, Word(ArrayEnd, "]"), rest);
      assert arr.payload.items == [];
    } else {
      FirstWord(c, v, 0);
      var later := LaterWords(c, v, 0) + ([Word(ArrayEnd, "]")] + rest);
      assert Tokens(src.doc[cur..]) == [later[0]] + later[1..];
      Head(src, cur, later[0], later[1..]);
      TokensAfterSpaces(src.doc, cur);
      ReadElementsBack(c, src, cur + SpaceRun(src.doc[cur..]), depth, v, 0, arr, rest);
    }
  }

  /** How a container's loop ends: a throw if some child is too deep, otherwise
      the whole container in normal form. */
  predicate BodyBack(c: bool, o: Outcome, src: Source, depth: int, v: Value, i: nat, rest: seq<Word>)
    requires v.payload.Container() && i <= Size(v)
  {
    if TooDeep(v, i, depth) then o == Thrown(StackLimitExceeded)
    else
      && o.Done? && o.ok && o.cur <= |src.doc| && Tokens(src.doc[o.cur..]) == rest
      && o.value.payload.Tag() == v.payload.Tag()
      && EraseItems(o.value.payload.items) == RereadItems(c, v, Size(v))
  }

  /** An array's children start with a value's first word. */
  lemma FirstWord(c: bool, v: Value, i: nat)
    requires v.payload.Array? && i < Size(v) && SlotsRealFree(v, i)
    ensures LaterWords(c, v, i) != []
    ensures LaterWords(c, v, i)[0].kind !in {ArrayEnd, Comment, EndOfStream}
    ensures i == 0 ==> SlotWords(c, v, 0) == LaterWords(c, v, 0)
  {
    var child := SlotAt(v, i).value;
    assert NameWords(c, SlotAt(v, i)) == [];
    assert Words(c, child) != [] && Words(c, child)[0].kind !in {ArrayEnd, Comment, EndOfStream};
    assert LaterWords(c, v, i)[0] == Words(c, child)[0];
  }

  lemma {:induction false} ReadElementsBack(c: bool, src: Source, cur: nat, depth: int, v: Value, i: nat, arr: Value, rest: seq<Word>)
    requires cur <= |src.doc| && WellFormed(v) && v.payload.Array? && i < Size(v) && SlotsRealFree(v, i)
    requires arr.payload.Array? && EraseItems(arr.payload.items) == RereadItems(c, v, i)
    requires Tokens(src.doc[cur..]) == LaterWords(c, v, i) + ([Word(ArrayEnd, "]")] + rest)
    ensures BodyBack(c, ReadElements(src, cur, depth, arr, i), src, depth, v, i, rest)
    decreases Levels(v), 0, Size(v) - i
  {
    hide Tokens, ReadElement, LaterWords, WellFormed, Levels, SlotAt, RereadItems, EraseItems, SlotsRealFree;
    ReadElementBack(c, src, cur, depth, v, i, arr, rest);
    var m := ReadElement(src, cur, depth, arr, i);
    if depth + Levels(SlotAt(v, i).value) <= STACK_LIMIT && i + 1 < Size(v) {
      assert SlotsRealFree(v, i + 1) by { LaterRealFree(v, i); }
      ReadElementsBack(c, src, m.cur, depth, v, i + 1, m.value, rest);
    }
  }

  lemma LaterRealFree(v: Value, i: nat)
    requires v.payload.Container() && i < Size(v) && SlotsRealFree(v, i)
    ensures SlotsRealFree(v, i + 1) && RealFree(SlotAt(v, i).value)
  {
  }

  lemma {:induction false} ReadElementBack(c: bool, src: Source, cur: nat, depth: int, v: Value, i: nat, arr: Value, rest: seq<Word>)
    requires cur <= |src.doc| && WellFormed(v) && v.payload.Array? && i < Size(v) && SlotsRealFree(v, i)
    requires arr.payload.Array? && EraseItems(arr.payload.items) == RereadItems(c, v, i)
    requires Tokens(src.doc[cur..]) == LaterWords(c, v, i) + ([Word(ArrayEnd, "]")] + rest)
    ensures StepBack(c, ReadElement(src, cur, depth, arr, i), src, depth, v, i, Word(ArrayEnd, "]"), rest)
    decreases Levels(v), 0, 0
  {
    hide Tokens, ReadValue, Words, NonComment, ReadToken, WellFormed, Levels, SlotAt, NameWords, SlotWords, RereadItems, EraseItems, Put, Get, SlotsRealFree;
    var child := SlotAt(v, i).value;
    var close := [Word(ArrayEnd, "]")] + rest;
    var more := SlotWords(c, v, i + 1) + close;
    ArrayNameless(c, v, i);
    assert LaterWords(c, v, i) == [] + Words(c, child) + SlotWords(c, v, i + 1);
    hide LaterWords;
    Associate([], Words(c, child), SlotWords(c, v, i + 1), close);
    assert [] + (Words(c, child) + more) == Words(c, child) + more;
    ChildWellFormed(v, i);
    LaterRealFree(v, i);
    var slot := Get(arr.payload.items, Index(i));
    ReadValueBack(c, src, cur, depth, slot, child, more);
    if depth + Levels(child) <= STACK_LIMIT {
      var o := ReadValue(src, cur, depth, slot);
      PutNext(c, v, i, arr.payload.items, o.value);
      assert ReadElement(src, cur, depth, arr, i) == ElementEnd(src, o.cur, depth, WithItem(arr, Index(i), o.value));
      hide ReadElement;
      ElementEndBack(c, src, o.cur, depth, v, i, WithItem(arr, Index(i), o.value), rest);
    }
  }

  /** The end of one turn of the element loop. */
  lemma {:induction false} ElementEndBack(c: bool, src: Source, cur: nat, depth: int, v: Value, i: nat, arr: Value, rest: seq<Word>)
    requires cur <= |src.doc| && v.payload.Array? && i < Size(v) && depth + Levels(SlotAt(v, i).value) <= STACK_LIMIT
    requires arr.payload.Array? && EraseItems(arr.payload.items) == RereadItems(c, v, i + 1)
    requires Tokens(src.doc[cur..]) == SlotWords(c, v, i + 1) + ([Word(ArrayEnd, "]")] + rest)
    ensures StepBack(c, ElementEnd(src, cur, depth, arr), src, depth, v, i, Word(ArrayEnd, "]"), rest)
  {
    hide Tokens, NonComment, ReadToken, Levels, SlotAt, SlotWords, LaterWords, RereadItems, EraseItems, Size;
    SeparatorBack(c, src, cur, v, i, Word(ArrayEnd, "]"), rest);
  }

  /** One pass through a container's loop: a throw if the child is too deep, the
      finished container after the last child, and otherwise another pass over
      the remaining children. */
  predicate StepBack(c: bool, m: Step, src: Source, depth: int, v: Value, i: nat, end: Word, rest: seq<Word>)
    requires v.payload.Container() && i < Size(v)
  {
    if depth + Levels(SlotAt(v, i).value) > STACK_LIMIT then m == Return(Thrown(StackLimitExceeded))
    else if i + 1 == Size(v) then m.Return? && BodyBack(c, m.outcome, src, depth, v, i + 1, rest)
    else
      && m.Again? && m.cur <= |src.doc| && m.value.payload.Tag() == v.payload.Tag()
      && EraseItems(m.value.payload.items) == RereadItems(c, v, i + 1)
      && Tokens(src.doc[m.cur..]) == LaterWords(c, v, i + 1) + ([end] + rest)
  }

  /** The token after a child: the end of the container, or a comma. */
  lemma SeparatorBack(c: bool, src: Source, cur: nat, v: Value, i: nat, end: Word, rest: seq<Word>)
    requires v.payload.Container() && i < Size(v) && cur <= |src.doc| && (end.kind == ArrayEnd || end.kind == ObjectEnd)
    requires Tokens(src.doc[cur..]) == SlotWords(c, v, i + 1) + ([end] + rest)
    ensures var t := ReadToken(src.doc, cur);
            && NonComment(src.doc, cur) == t && t.kind == (if i + 1 == Size(v) then end.kind else ArraySeparator)
            && Tokens(src.doc[t.end..]) == if i + 1 == Size(v) then rest else LaterWords(c, v, i + 1) + ([end] + rest)
  {
    hide Tokens, NonComment, ReadToken, SlotWords, LaterWords;
    CommaWords(c, v, i + 1);
    if i + 1 == Size(v) {
      assert [] + ([end] + rest) == [end] + rest;
      Head(src, cur, end, rest);
    } else {
      var later := LaterWords(c, v, i + 1) + ([end] + rest);
      assert [COMMA] + LaterWords(c, v, i + 1) + ([end] + rest) == [COMMA] + later;
      Head(src, cur, COMMA, later);
    }
  }

  lemma ArrayNameless(c: bool, v: Value, i: nat)
    requires v.payload.Array? && i < Size(v)
    ensures NameWords(c, SlotAt(v, i)) == []
  {
  }

  lemma {:induction false} ReadObjectBack(c: bool, src: Source, cur: nat, depth: int, slot: Value, v: Value, rest: seq<Word>)
    requires cur <= |src.doc| && WellFormed(v) && RealFree(v) && v.payload.Object? && depth < STACK_LIMIT
    requires Tokens(src.doc[cur..]) == Words(c, v) + rest
    ensures var o := ReadValue(src, cur, depth, slot);
            if depth + Levels(v) > STACK_LIMIT then o == Thrown(StackLimitExceeded)
            else ReadsBack(c, o, src, v, rest)
    decreases Levels(v), 0, Size(v) + 1
  {
    hide Tokens, ReadMembers, SlotWords, LaterWords, RereadItems, NonComment, ReadToken, TooDeep, WellFormed, Levels;
    var close := [Word(ObjectEnd, "}")] + rest;
    var body := SlotWords(c, v, 0) + close;
    assert Words(c, v) + rest == [Word(ObjectBegin, "{")] + body;
    Head(src, cur, Word(ObjectBegin, "{"), body);
    var t := ReadToken(src.doc, cur);
    var obj := Value(Object([]), t.start, slot.limit);
    assert ReadValue(src, cur, depth, slot) == Close(ReadMembers(src, t.end, depth + 1, obj, ""));
    TooDeepIff(v, depth);
    assert SlotWords(c, v, 0) == LaterWords(c, v, 0) by { ZeroWords(c, v); }
    RereadStarts(c, v);
    ReadMembersBack(c, src, t.end, depth + 1, v, 0, obj, "", rest);
  }

  lemma ZeroWords(c: bool, v: Value)
    requires v.payload.Container()
    ensures SlotWords(c, v, 0) == LaterWords(c, v, 0)
  {
    hide Words, NameWords;
  }

  lemma {:induction false} ReadMembersBack(c: bool, src: Source, cur: nat, depth: int, v: Value, i: nat, obj: Value, name: string, rest: seq<Word>)
    requires cur <= |src.doc| && WellFormed(v) && v.payload.Object? && i <= Size(v) && SlotsRealFree(v, i)
    requires i < Size(v) || name == ""
    requires obj.payload.Object? && EraseItems(obj.payload.items) == RereadItems(c, v, i)
    requires Tokens(src.doc[cur..]) == LaterWords(c, v, i) + ([Word(ObjectEnd, "}")] + rest)
    ensures BodyBack(c, ReadMembers(src, cur, depth, obj, name), src, depth, v, i, rest)
    decreases Levels(v), 0, Size(v) - i
  {
    hide Tokens, ReadValue, Words, NonComment, ReadToken, WellFormed, Levels, SlotAt, NameWords, SlotWords, RereadItems, EraseItems, Put, Get, Unescape, LaterWords;
    var close := [Word(ObjectEnd, "}")] + rest;
    if i == Size(v) {
      assert LaterWords(c, v, i) == [] by { NoLaterWords(c, v); }
      assert Tokens(src.doc[cur..]) == close;
      Head(src, cur, Word(ObjectEnd, "}"), rest);
    } else {
      var s := SlotAt(v, i);
      var more := SlotWords(c, v, i + 1) + close;
      ReadNameBack(c, src, cur, depth, v, i, obj, name, rest);
      var n := ReadName(src, cur, depth, obj, name);
      ReadMemberBack(c, src, n.cur, depth, v, i, obj, rest);
      var m := ReadMember(src, n.cur, depth, obj, Printed(c, s.name));
      if depth + Levels(s.value) <= STACK_LIMIT && i + 1 < Size(v) {
        ReadMembersBack(c, src, m.cur, depth, v, i + 1, m.value, Printed(c, s.name), rest);
      }
    }
  }

  lemma NoLaterWords(c: bool, v: Value)
    requires v.payload.Container()
    ensures LaterWords(c, v, Size(v)) == []
  {
  }

  /** A name in front of any tokens is read. */
  lemma {:induction false} NameRead(src: Source, cur: nat, depth: int, obj: Value, previous: string, name: string, tail: seq<Word>)
    requires cur <= |src.doc| && Tokens(src.doc[cur..]) == [Word(StringText, Quoted(name))] + tail
    ensures var n := ReadName(src, cur, depth, obj, previous);
            n.Named? && n.name == name && Tokens(src.doc[n.cur..]) == tail
  {
    hide Tokens, NonComment, ReadToken, Unescape, Quoted, Inner, TokenText;
    Head(src, cur, Word(StringText, Quoted(name)), tail);
    UnquoteToken(src.doc, ReadToken(src.doc, cur), name);
  }

  lemma {:induction false} ReadNameBack(c: bool, src: Source, cur: nat, depth: int, v: Value, i: nat, obj: Value, name: string, rest: seq<Word>)
    requires cur <= |src.doc| && WellFormed(v) && v.payload.Object? && i < Size(v)
    requires Tokens(src.doc[cur..]) == LaterWords(c, v, i) + ([Word(ObjectEnd, "}")] + rest)
    ensures var n := ReadName(src, cur, depth, obj, name);
            && n.Named? && n.name == Printed(c, SlotAt(v, i).name)
            && Tokens(src.doc[n.cur..]) ==
               [COLON] + (Words(c, SlotAt(v, i).value) + (SlotWords(c, v, i + 1) + ([Word(ObjectEnd, "}")] + rest)))
  {
    hide Tokens, Words, ReadName, SlotWords, WellFormed, SlotAt, Quoted;
    var s, close := SlotAt(v, i), [Word(ObjectEnd, "}")] + rest;
    var q := Word(StringText, Quoted(Printed(c, s.name)));
    var tail := Words(c, s.value) + (SlotWords(c, v, i + 1) + close);
    assert s.named && NameWords(c, s) == [q, COLON];
    assert LaterWords(c, v, i) == [q, COLON] + Words(c, s.value) + SlotWords(c, v, i + 1);
    hide LaterWords, NameWords;
    Associate([q, COLON], Words(c, s.value), SlotWords(c, v, i + 1), close);
    assert [q, COLON] + tail == [q] + ([COLON] + tail);
    NameRead(src, cur, depth, obj, name, Printed(c, s.name), [COLON] + tail);
  }

  lemma Associate(a: seq<Word>, b: seq<Word>, c: seq<Word>, d: seq<Word>)
    ensures a + b + c + d == a + (b + (c + d))
  {
  }

  lemma {:induction false} ReadMemberBack(c: bool, src: Source, cur: nat, depth: int, v: Value, i: nat, obj: Value, rest: seq<Word>)
    requires cur <= |src.doc| && WellFormed(v) && v.payload.Object? && i < Size(v) && SlotsRealFree(v, i)
    requires obj.payload.Object? && EraseItems(obj.payload.items) == RereadItems(c, v, i)
    requires Tokens(src.doc[cur..]) ==
             [COLON] + (Words(c, SlotAt(v, i).value) + (SlotWords(c, v, i + 1) + ([Word(ObjectEnd, "}")] + rest)))
    ensures StepBack(c, ReadMember(src, cur, depth, obj, Printed(c, SlotAt(v, i).name)), src, depth, v, i, Word(ObjectEnd, "}"), rest)
    decreases Levels(v), 0, 0
  {
    hide Tokens, ReadValue, Words, NonComment, ReadToken, WellFormed, Levels, SlotAt, NameWords, SlotWords, RereadItems, EraseItems, Put, Get, LaterWords, SlotsRealFree;
    var s := SlotAt(v, i);
    var more := SlotWords(c, v, i + 1) + ([Word(ObjectEnd, "}")] + rest);
    Head(src, cur, COLON, Words(c, s.value) + more);
    var colon := ReadToken(src.doc, cur);
    ChildWellFormed(v, i);
    LaterRealFree(v, i);
    var key := MemberKey(Printed(c, s.name));
    var slot := Get(obj.payload.items, key);
    ReadValueBack(c, src, colon.end, depth, slot, s.value, more);
    if depth + Levels(s.value) <= STACK_LIMIT {
      var o := ReadValue(src, colon.end, depth, slot);
      PutNext(c, v, i, obj.payload.items, o.value);
      SeparatorBack(c, src, o.cur, v, i, Word(ObjectEnd, "}"), rest);
    }
  }

  // ----------------------------------------------------------- theorems

  /** Parsing any text that spells the words of a real-free tree gives the tree
      as it is read back, unless it needs more than 1000 levels: then the depth
      limit is thrown. */
  lemma ParseWords(c: bool, src: Source, root: Value, v: Value)
    requires WellFormed(v) && RealFree(v) && Tokens(src.doc) == Words(c, v)
    requires src.features.strictRoot ==> v.payload.Container()
    ensures var o := Parse(src, root);
            if Levels(v) > STACK_LIMIT then o == Thrown(StackLimitExceeded)
            else o.Done? && o.ok && o.errors == [] && Erase(o.value) == Reread(c, v)
  {
    hide Tokens, Words, ReadValue, ValueToken, Reread, Erase, RealFree, WellFormed;
    assert src.doc[0..] == src.doc;
    assert Words(c, v) + [] == Words(c, v);
    ReadValueBack(c, src, 0, 0, root, v, []);
    var o := ReadValue(src, 0, 0, root);
    if o.Done? { SameKind(c, o.value, v); }
  }

  lemma {:induction false} SameKind(c: bool, read: Value, v: Value)
    requires Erase(read) == Reread(c, v)
    ensures read.payload.Container() == v.payload.Container()
  {
    hide EraseItems, Reread;
    assert Erase(read).payload.Container() == read.payload.Container();
    RereadKind(c, v);
  }

  /** FastWriter and Reader: every well-formed real-free tree is read back,
      equal under operator== to its normal form, if and only if it needs at
      most 1000 levels. */
  lemma FastRoundTrip(f: FastOptions, features: Features, toDouble: string -> Option<real>, root: Value, v: Value)
    requires WellFormed(v) && RealFree(v) && !f.dropNulls && (features.strictRoot ==> v.payload.Container())
    ensures var o := Parse(Source(FastDocument(f, v), features, toDouble), root);
            if Levels(v) > STACK_LIMIT then o == Thrown(StackLimitExceeded)
            else o.Done? && o.ok && o.errors == [] && Equal(o.value, Normal(v))
  {
    hide Tokens, Words, Parse, Normal, Reread, Erase, Equal, RealFree, WellFormed, FastDocument;
    FastDocumentTokens(f, v);
    ParseWords(false, Source(FastDocument(f, v), features, toDouble), root, v);
    RereadIff(false, v);
    NormalErased(v);
    var o := Parse(Source(FastDocument(f, v), features, toDouble), root);
    if o.Done? { EqualIffErased(o.value, Normal(v)); }
  }

  /** StyledWriter and Reader, for any margin and indent width: what is read back is the
      tree with its names cut at NUL, the last of the members whose names are then the
      same staying; it equals the normal form if and only if no name holds a NUL. */
  lemma StyledRoundTrip(o: StyleOptions, features: Features, toDouble: string -> Option<real>, root: Value, v: Value)
    requires WellFormed(v) && RealFree(v) && (features.strictRoot ==> v.payload.Container())
    ensures var p := Parse(Source(StyledDocument(o, v), features, toDouble), root);
            if Levels(v) > STACK_LIMIT then p == Thrown(StackLimitExceeded)
            else
              && p.Done? && p.ok && p.errors == [] && Erase(p.value) == Reread(true, v)
              && (Equal(p.value, Normal(v)) <==> NulFreeNames(v))
  {
    hide Tokens, Words, Parse, Normal, Reread, Erase, Equal, RealFree, WellFormed, StyledDocument, NulFreeNames;
    StyledDocumentTokens(o, v);
    ParseWords(true, Source(StyledDocument(o, v), features, toDouble), root, v);
    RereadIff(true, v);
    NormalErased(v);
    var p := Parse(Source(StyledDocument(o, v), features, toDouble), root);
    if p.Done? { EqualIffErased(p.value, Normal(v)); }
  }
}
