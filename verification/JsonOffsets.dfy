/** Whole-parse facts about arbitrary documents: the source ranges stamped on
    the values nest, and the only exception an ordinary document can raise is
    the depth limit. */
module JsonOffsets {
  import opened JsonNumber
  import opened JsonParse
  import opened JsonScanner
  import opened JsonString
  import opened JsonValue
  import opened JsonWriter
  import opened Options

  /** A non-empty range inside [lo, hi), with the children's ranges inside it
      and pairwise disjoint. */
  predicate Nested(v: Value, lo: int, hi: int)
    decreases Levels(v), 0
  {
    && lo <= v.start < v.limit <= hi
    && (v.payload.Container() ==> AllNested(v, v.start, v.limit) && Disjoint(v.payload.items))
  }

  predicate AllNested(v: Value, lo: int, hi: int)
    requires v.payload.Container()
    decreases Levels(v), 0, 0
  {
    forall i :: 0 <= i < |v.payload.items| ==>
      (MaxLevelsBounds(v.payload.items, i); Nested(v.payload.items[i].value, lo, hi))
  }

  predicate Apart(a: Value, b: Value) { a.limit <= b.start || b.limit <= a.start }

  predicate Disjoint(items: seq<Entry>) {
    forall i, j :: 0 <= i < j < |items| ==> Apart(items[i].value, items[j].value)
  }

  /** A container filled so far with children that were read in [lo, hi). */
  predicate Filled(v: Value, lo: int, hi: int) {
    v.payload.Container() && AllNested(v, lo, hi) && Disjoint(v.payload.items)
  }

  lemma FilledGrows(v: Value, key: Key, item: Value, lo: int, mid: int, hi: int)
    requires Filled(v, lo, mid) && lo <= mid <= hi && Nested(item, mid, hi)
    ensures Filled(WithItem(v, key, item), lo, hi)
  {
    var items, w := v.payload.items, WithItem(v, key, item);
    var put, p := w.payload.items, LowerBound(items, key);
    forall i | 0 <= i < |put|
      ensures Nested(put[i].value, if i == p then mid else lo, if i == p then hi else mid)
    {
      PutAt(items, key, item, i);
    }
    AllWithin(w, p, lo, mid, hi);
    hide AllNested, Put, LowerBound, Has;
    forall i, j | 0 <= i < j < |put| ensures Apart(put[i].value, put[j].value) {
      PutAt(items, key, item, i);
      PutAt(items, key, item, j);
    }
  }

  lemma AllWithin(w: Value, p: nat, lo: int, mid: int, hi: int)
    requires w.payload.Container() && lo <= mid <= hi
    requires forall i {:trigger w.payload.items[i]} :: 0 <= i < |w.payload.items| ==>
               Nested(w.payload.items[i].value, if i == p then mid else lo, if i == p then hi else mid)
    ensures AllNested(w, lo, hi)
  {
    forall i | 0 <= i < |w.payload.items| ensures Nested(w.payload.items[i].value, lo, hi) { }
  }

  /** A decoded string is no longer than its spelling. */
  lemma {:induction false} UnescapeShrinks(s: string)
    ensures Unescape(s).Text? ==> |Unescape(s).text| <= |s|
    decreases |s|
  {
    hide CodePoint;
    if s != "" && s[0] != '"' {
      if s[0] != '\\' {
        UnescapeShrinks(s[1..]);
      } else if |s| > 1 {
        if s[1] == 'u' {
          var c := CodePoint(s[2..]);
          if c.Code? { UnescapeShrinks(s[2 + c.length..]); }
        } else {
          UnescapeShrinks(s[2..]);
        }
      }
    }
  }

  /** Below the longest string a value can hold, and without numeric keys, the
      depth limit is the only fault. */
  predicate OnlyDepthLimit(src: Source, o: Outcome) {
    o.Thrown? && |src.doc| <= TEXT_LIMIT && !src.features.allowNumericKeys ==> o.fault == StackLimitExceeded
  }

  /** The placeholder of a dropped null covers the character in front of the token that
      is read again, which may be the one before the cursor. */
  function Front(src: Source, cur: nat): int
    requires cur <= |src.doc|
  {
    if DropsNull(src, ValueToken(src, cur)) then ValueToken(src, cur).start - 1 else cur
  }

  lemma {:induction false} ReadValueNests(src: Source, cur: nat, depth: int, slot: Value)
    requires cur <= |src.doc|
    ensures var o := ReadValue(src, cur, depth, slot);
            OnlyDepthLimit(src, o) && (o.Done? && o.ok ==> cur - 1 <= Front(src, cur) && Nested(o.value, Front(src, cur), o.cur))
    decreases |src.doc| - cur, 1
  {
    hide ReadMembers, ReadArray, ReadNumber, ReadString, ReadToken, NonComment;
    if depth < STACK_LIMIT {
      var t := ValueToken(src, cur);
      if DropsNull(src, t) {
      } else if t.kind == ObjectBegin {
        hide Nested;
        var obj := Value(Object([]), t.start, slot.limit);
        EmptyFilled(obj, t.start, t.end);
        ReadMembersNests(src, t.end, depth + 1, obj, "", t.start);
        CloseNests(ReadMembers(src, t.end, depth + 1, obj, ""), cur, t);
      } else if t.kind == ArrayBegin {
        hide Nested;
        var arr := Value(Array([]), t.start, slot.limit);
        ReadArrayNests(src, t.end, depth + 1, arr, t.start);
        CloseNests(ReadArray(src, t.end, depth + 1, arr), cur, t);
      } else {
        hide Nested;
        ScalarNests(src, t, cur, depth, slot);
      }
    }
  }

  lemma EmptyFilled(v: Value, lo: int, hi: int)
    requires v.payload.Container() && v.payload.items == []
    ensures Filled(v, lo, hi)
  {
  }

  lemma CloseNests(o: Outcome, cur: nat, t: Token)
    requires cur <= t.start < t.end
    requires o.Done? && o.ok ==> t.end <= o.cur && o.value.start == t.start && Filled(o.value, t.start, o.cur)
    ensures Close(o).Done? && Close(o).ok ==> Nested(Close(o).value, cur, Close(o).cur)
  {
    if o.Done? && o.ok {
      var v := Close(o).value;
      forall i | 0 <= i < |v.payload.items| ensures Nested(v.payload.items[i].value, v.start, v.limit) {
        assert Nested(o.value.payload.items[i].value, t.start, o.cur);
      }
    }
  }

  lemma ScalarNests(src: Source, t: Token, cur: nat, depth: int, slot: Value)
    requires cur <= t.start <= t.end <= |src.doc| && (t.kind != EndOfStream ==> t.start < t.end)
    requires t.kind != ObjectBegin && t.kind != ArrayBegin
    ensures var o := ReadAt(src, t, depth, slot);
            OnlyDepthLimit(src, o) && (o.Done? && o.ok ==> Nested(o.value, cur, o.cur))
  {
    hide Unescape;
    UnescapeShrinks(Inner(src.doc, t));
  }

  lemma {:induction false} ReadMembersNests(src: Source, cur: nat, depth: int, obj: Value, name: string, lo: int)
    requires cur <= |src.doc| && lo <= cur && obj.payload.Object? && Filled(obj, lo, cur)
    ensures var o := ReadMembers(src, cur, depth, obj, name);
            && OnlyDepthLimit(src, o)
            && (o.Done? && o.ok ==> o.value.start == obj.start && Filled(o.value, lo, o.cur))
    decreases |src.doc| - cur, 1
  {
    hide ReadMember, Filled, Nested, NonComment, ReadToken, Unescape, DecodeNumber;
    var n := ReadName(src, cur, depth, obj, name);
    if n.Refused? {
      if n.outcome.Done? && n.outcome.ok { FilledWidens(obj, lo, cur, n.outcome.cur); }
    } else {
      FilledWidens(obj, lo, cur, n.cur);
      ReadMemberNests(src, n.cur, depth, obj, n.name, lo);
      var m := ReadMember(src, n.cur, depth, obj, n.name);
      if m.Again? {
        FilledWidens(m.value, lo, m.cur - 1, m.cur);
        ReadMembersNests(src, m.cur, depth, m.value, n.name, lo);
      }
    }
  }

  lemma FilledWidens(v: Value, lo: int, hi: int, hi': int)
    requires Filled(v, lo, hi) && hi <= hi'
    ensures Filled(v, lo, hi')
  {
    forall i | 0 <= i < |v.payload.items| ensures Nested(v.payload.items[i].value, lo, hi') {
      assert Nested(v.payload.items[i].value, lo, hi);
    }
  }

  /** A pass through a container's loop keeps the ranges nested, and the separator behind
      them free. */
  predicate StepNests(src: Source, s: Step, v: Value, lo: int) {
    match s
    case Return(o) => OnlyDepthLimit(src, o) && (o.Done? && o.ok ==> o.value.start == v.start && Filled(o.value, lo, o.cur))
    case Again(cur, w) => w.start == v.start && lo <= cur - 1 && Filled(w, lo, cur - 1)
  }

  lemma {:induction false} ReadMemberNests(src: Source, cur: nat, depth: int, obj: Value, name: string, lo: int)
    requires cur <= |src.doc| && lo <= cur && obj.payload.Object? && Filled(obj, lo, cur)
    ensures StepNests(src, ReadMember(src, cur, depth, obj, name), obj, lo)
    decreases |src.doc| - cur, 0
  {
    hide ReadValue, Filled, Nested, NonComment, ReadToken, Put, Get, MemberEnd, Front;
    var colon := ReadToken(src.doc, cur);
    if colon.kind == MemberSeparator {
      var key := MemberKey(name);
      var slot := Get(obj.payload.items, key);
      ReadValueNests(src, colon.end, depth, slot);
      var o := ReadValue(src, colon.end, depth, slot);
      if o.Done? && o.ok {
        FilledWidens(obj, lo, cur, colon.end - 1);
        NestedWidens(o.value, Front(src, colon.end), colon.end - 1, o.cur);
        FilledGrows(obj, key, o.value, lo, colon.end - 1, o.cur);
        var filled := WithItem(obj, key, o.value);
        MemberEndMoves(src, o.cur, depth, filled);
        var m := ReadMember(src, cur, depth, obj, name);
        assert m == MemberEnd(src, o.cur, depth, filled);
        if m.Again? || m.outcome.ok { FilledWidens(filled, lo, o.cur, Stop(m)); }
      }
    }
  }

  /** Where the values read so far must have ended: in front of a separator, or at the end. */
  function Stop(s: Step): int {
    match s
    case Return(o) => if o.Done? then o.cur else 0
    case Again(cur, _) => cur - 1
  }

  lemma MemberEndMoves(src: Source, cur: nat, depth: int, obj: Value)
    requires cur <= |src.doc|
    ensures var m := MemberEnd(src, cur, depth, obj);
            && (m.Again? ==> m.value == obj && cur <= Stop(m))
            && (m.Return? ==> m.outcome.Done? && (m.outcome.ok ==> m.outcome.value == obj && cur <= Stop(m)))
  {
    hide ReadToken, Recover;
    var first := ReadToken(src.doc, cur);
    assert NonComment(src.doc, cur).end >= first.end;
    hide NonComment;
  }

  lemma NestedWidens(v: Value, lo': int, lo: int, hi: int)
    requires Nested(v, lo', hi) && lo <= lo'
    ensures Nested(v, lo, hi)
  {
  }

  lemma {:induction false} ReadArrayNests(src: Source, cur: nat, depth: int, arr: Value, lo: int)
    requires cur <= |src.doc| && lo < cur && arr.payload == Array([])
    ensures var o := ReadArray(src, cur, depth, arr);
            && OnlyDepthLimit(src, o)
            && (o.Done? && o.ok ==> o.value.start == arr.start && Filled(o.value, lo, o.cur))
    decreases |src.doc| - cur, 4
  {
    hide ReadElements, ReadToken, Filled;
    var k := cur + SpaceRun(src.doc[cur..]);
    EmptyFilled(arr, lo, k - 1);
    if k < |src.doc| && src.doc[k] == ']' {
      EmptyFilled(arr, lo, ReadToken(src.doc, k).end);
    } else {
      ReadElementsNests(src, k, depth, arr, 0, lo);
    }
  }

  lemma {:induction false} ReadElementsNests(src: Source, cur: nat, depth: int, arr: Value, index: nat, lo: int)
    requires cur <= |src.doc| && lo < cur && arr.payload.Array? && Filled(arr, lo, cur - 1)
    ensures var o := ReadElements(src, cur, depth, arr, index);
            && OnlyDepthLimit(src, o)
            && (o.Done? && o.ok ==> o.value.start == arr.start && Filled(o.value, lo, o.cur))
    decreases |src.doc| - cur, 3
  {
    hide ReadElement, Filled, Nested;
    ReadElementNests(src, cur, depth, arr, index, lo);
    var m := ReadElement(src, cur, depth, arr, index);
    if m.Again? { ReadElementsNests(src, m.cur, depth, m.value, index + 1, lo); }
  }

  lemma {:induction false} ReadElementNests(src: Source, cur: nat, depth: int, arr: Value, index: nat, lo: int)
    requires cur <= |src.doc| && lo < cur && arr.payload.Array? && Filled(arr, lo, cur - 1)
    ensures StepNests(src, ReadElement(src, cur, depth, arr, index), arr, lo)
    decreases |src.doc| - cur, 2
  {
    hide ReadValue, Filled, Nested, NonComment, Put, Get, ElementEnd, Front;
    var slot := Get(arr.payload.items, Index(index));
    ReadValueNests(src, cur, depth, slot);
    var o := ReadValue(src, cur, depth, slot);
    if o.Done? && o.ok {
      NestedWidens(o.value, Front(src, cur), cur - 1, o.cur);
      FilledGrows(arr, Index(index), o.value, lo, cur - 1, o.cur);
      var filled := WithItem(arr, Index(index), o.value);
      ElementEndMoves(src, o.cur, depth, filled);
      var m := ReadElement(src, cur, depth, arr, index);
      assert m == ElementEnd(src, o.cur, depth, filled);
      if m.Again? || m.outcome.ok { FilledWidens(filled, lo, o.cur, Stop(m)); }
    }
  }

  lemma ElementEndMoves(src: Source, cur: nat, depth: int, arr: Value)
    requires cur <= |src.doc|
    ensures var m := ElementEnd(src, cur, depth, arr);
            && (m.Again? ==> m.value == arr && cur <= Stop(m))
            && (m.Return? ==> m.outcome.Done? && (m.outcome.ok ==> m.outcome.value == arr && cur <= Stop(m)))
  {
    hide NonComment, Recover;
  }

  /** The whole document is a dropped null whose token is its first character. */
  predicate DropsAtOnce(src: Source) {
    DropsNull(src, ValueToken(src, 0)) && ValueToken(src, 0).start == 0
  }

  /** After a successful parse every value's range lies in the document and in
      its parent's range, and sibling ranges are disjoint, whatever keys were
      repeated, exactly unless the document is a dropped null at its very start, which is
      given a range in front of it; and nothing but the depth limit can be thrown. */
  lemma OffsetsNest(src: Source, root: Value)
    ensures var o := Parse(src, root);
            OnlyDepthLimit(src, o) && (o.Done? && o.ok ==> (Nested(o.value, 0, |src.doc|) <==> !DropsAtOnce(src)))
  {
    hide ReadValue, NonComment, ReadToken;
    ReadValueNests(src, 0, 0, root);
    if DropsNull(src, ValueToken(src, 0)) { DroppedRoot(src, root); }
  }

  lemma DroppedRoot(src: Source, root: Value)
    requires DropsNull(src, ValueToken(src, 0))
    ensures var o := ReadValue(src, 0, 0, root); o.Done? && o.value.start == ValueToken(src, 0).start - 1
  {
    hide NonComment, ReadToken;
  }

  /** With dropped nulls allowed the document "," is a null whose range starts before it. */
  lemma CommaStartsBefore(toDouble: string -> Option<real>, root: Value)
    ensures var src := Source(",", Features(true, false, true, false), toDouble);
            DropsAtOnce(src) && Parse(src, root).Done? && Parse(src, root).ok && Parse(src, root).value == Value(Null, -1, 0)
  {
    var src := Source(",", Features(true, false, true, false), toDouble);
    assert ","[0..] == ",";
    assert ReadToken(src.doc, 0) == Token(ArraySeparator, 0, 1);
    assert NonComment(src.doc, 0) == Token(ArraySeparator, 0, 1);
    DroppedRoot(src, root);
  }
}
