/** Every tree the reader leaves, after an error too, is one that Value can hold: integers in
    range, texts and names within their length fields, maps in order. */
module JsonParsedTrees {
  import opened JsonNumber
  import opened JsonParse
  import opened JsonScanner
  import opened JsonString
  import opened JsonValue
  import opened JsonWriter
  import opened Options

  predicate Holds(o: Outcome) { o.Done? ==> WellFormed(o.value) }

  lemma {:induction false} AllWellFormedIff(items: seq<Entry>)
    ensures AllWellFormed(items) <==> forall e :: e in items ==> WellFormed(e.value)
  {
    hide WellFormed;
    if items != [] {
      AllWellFormedIff(items[1..]);
      assert items == [items[0]] + items[1..];
    }
  }

  /** Storing a tree that Value can hold under a key that fits. */
  lemma {:induction false} StoredHolds(v: Value, key: Key, item: Value)
    requires v.payload.Container() && WellFormed(v) && WellFormed(item)
    requires if v.payload.Array? then key.Index? && key.index < INDEX_LIMIT else key.Name? && |key.text| < KEY_LIMIT
    ensures WellFormed(WithItem(v, key, item))
  {
    var items := v.payload.items;
    var put := Put(items, key, item);
    PutSorted(items, key, item);
    AllWellFormedIff(items);
    AllWellFormedIff(put);
    forall e | e in put ensures WellFormed(e.value) && (e == Entry(key, item) || e in items) { PutEntries(items, key, item, e); }
    hide Put, AllWellFormed, Sorted;
  }

  lemma {:induction false} SlotHolds(v: Value, key: Key)
    requires v.payload.Container() && WellFormed(v)
    ensures WellFormed(Get(v.payload.items, key))
  {
    var items := v.payload.items;
    if Has(items, key) { ItemWellFormed(items, LowerBound(items, key)); }
    hide LowerBound;
  }

  /** readValue, into any slot that holds such a tree, with fewer characters in the document
      than an int can count. */
  lemma {:induction false} ValueHolds(src: Source, cur: nat, depth: int, slot: Value)
    requires cur <= |src.doc| < INDEX_LIMIT && WellFormed(slot)
    ensures Holds(ReadValue(src, cur, depth, slot))
    decreases |src.doc| - cur, 1
  {
    hide ReadAt, ValueToken;
    if depth < STACK_LIMIT {
      var t := ValueToken(src, cur);
      if !DropsNull(src, t) { AtHolds(src, t, depth, slot); }
    }
  }

  lemma {:induction false} AtHolds(src: Source, t: Token, depth: int, slot: Value)
    requires t.start <= t.end <= |src.doc| < INDEX_LIMIT && (t.kind != EndOfStream ==> t.start < t.end) && WellFormed(slot)
    ensures Holds(ReadAt(src, t, depth, slot))
    decreases |src.doc| - t.start, 0
  {
    hide ReadArray, ReadMembers, ReadNumber, ReadString, WellFormed;
    if t.kind == ArrayBegin {
      var arr := Value(Array([]), t.start, slot.limit);
      EmptyHolds(t.start, slot.limit);
      ArrayHolds(src, t.end, depth + 1, arr);
      CloseHolds(ReadArray(src, t.end, depth + 1, arr));
    } else if t.kind == ObjectBegin {
      var obj := Value(Object([]), t.start, slot.limit);
      EmptyHolds(t.start, slot.limit);
      MembersHold(src, t.end, depth + 1, obj, "");
      CloseHolds(ReadMembers(src, t.end, depth + 1, obj, ""));
    } else {
      ScalarHolds(src, t, depth, slot);
    }
  }

  lemma EmptyHolds(start: int, limit: int)
    ensures WellFormed(Value(Array([]), start, limit)) && WellFormed(Value(Object([]), start, limit))
  {
  }

  lemma CloseHolds(o: Outcome)
    requires Holds(o)
    ensures Holds(Close(o))
  {
  }

  lemma ScalarHolds(src: Source, t: Token, depth: int, slot: Value)
    requires t.start <= t.end <= |src.doc| && t.kind != ArrayBegin && t.kind != ObjectBegin && (t.kind != EndOfStream ==> t.start < t.end)
    requires WellFormed(slot)
    ensures Holds(ReadAt(src, t, depth, slot))
  {
    hide Unescape, TokenText, Inner, AllDigits, DigitsValue;
    match slot.payload
    case Array(_) => assert WellFormed(slot.(start := t.start, limit := t.end));
    case Object(_) => assert WellFormed(slot.(start := t.start, limit := t.end));
    case _ =>
  }

  lemma {:induction false} ArrayHolds(src: Source, cur: nat, depth: int, arr: Value)
    requires cur <= |src.doc| < INDEX_LIMIT && arr.payload.Array? && WellFormed(arr)
    ensures Holds(ReadArray(src, cur, depth, arr))
    decreases |src.doc| - cur, 4
  {
    hide ReadElements, ReadToken, WellFormed;
    var k := cur + SpaceRun(src.doc[cur..]);
    if !(k < |src.doc| && src.doc[k] == ']') { ElementsHold(src, k, depth, arr, 0); }
  }

  lemma {:induction false} ElementsHold(src: Source, cur: nat, depth: int, arr: Value, i: nat)
    requires cur <= |src.doc| < INDEX_LIMIT && i <= cur && arr.payload.Array? && WellFormed(arr)
    ensures Holds(ReadElements(src, cur, depth, arr, i))
    decreases |src.doc| - cur, 3
  {
    hide ReadValue, ReadToken, NonComment, WellFormed, Put, Get, Recover;
    SlotHolds(arr, Index(i));
    var slot := Get(arr.payload.items, Index(i));
    var o := ReadValue(src, cur, depth, slot);
    ValueHolds(src, cur, depth, slot);
    if o.Done? {
      StoredHolds(arr, Index(i), o.value);
      var m := ReadElement(src, cur, depth, arr, i);
      if m.Again? { ElementsHold(src, m.cur, depth, m.value, i + 1); }
    }
  }

  lemma {:induction false} MembersHold(src: Source, cur: nat, depth: int, obj: Value, name: string)
    requires cur <= |src.doc| < INDEX_LIMIT && obj.payload.Object? && WellFormed(obj)
    ensures Holds(ReadMembers(src, cur, depth, obj, name))
    decreases |src.doc| - cur, 1
  {
    hide ReadMember, NonComment, WellFormed, Unescape, Recover, DecodeNumber;
    var n := ReadName(src, cur, depth, obj, name);
    if n.Named? {
      MemberHolds(src, n.cur, depth, obj, n.name);
      var m := ReadMember(src, n.cur, depth, obj, n.name);
      if m.Again? { MembersHold(src, m.cur, depth, m.value, n.name); }
    }
  }

  lemma {:induction false} MemberHolds(src: Source, cur: nat, depth: int, obj: Value, name: string)
    requires cur <= |src.doc| < INDEX_LIMIT && obj.payload.Object? && WellFormed(obj)
    ensures var m := ReadMember(src, cur, depth, obj, name);
            if m.Again? then WellFormed(m.value) else Holds(m.outcome)
    decreases |src.doc| - cur, 0
  {
    hide ReadValue, ReadToken, NonComment, WellFormed, Put, Get, Recover, MemberKey;
    var colon := ReadToken(src.doc, cur);
    if colon.kind == MemberSeparator {
      var key := MemberKey(name);
      ShortKey(name);
      SlotHolds(obj, key);
      var slot := Get(obj.payload.items, key);
      ValueHolds(src, colon.end, depth, slot);
      var o := ReadValue(src, colon.end, depth, slot);
      assert ReadMember(src, cur, depth, obj, name) == ReadMemberValue(src, colon.end, depth, obj, key);
      assert ReadMemberValue(src, colon.end, depth, obj, key) == MemberRead(src, colon.end, depth, obj, key, o);
      if o.Done? { StoredHolds(obj, key, o.value); }
    }
  }

  lemma ShortKey(name: string)
    ensures MemberKey(name).Name? && |MemberKey(name).text| < KEY_LIMIT
  {
  }

  /** Whatever the document and the features. */
  lemma ParseHolds(src: Source, root: Value)
    requires |src.doc| < INDEX_LIMIT && WellFormed(root)
    ensures Holds(Parse(src, root))
  {
    hide ReadValue, ValueToken, WellFormed;
    ValueHolds(src, 0, 0, root);
  }
}
