/** The trees that a reader can build: the normal form of a tree, and what a tree whose
    names went through C strings becomes. */
module JsonNormalForm {
  import opened JsonNumber
  import opened JsonParse
  import opened JsonScanner
  import opened JsonString
  import opened JsonValue
  import opened JsonWriter

  function KeyAt(v: Value, i: nat): Key
    requires v.payload.Container() && i < Size(v)
  {
    if v.payload.Array? then Index(i) else v.payload.items[i].key
  }

  /** Holes filled with null, integers signed up to 2^31-1 and unsigned above, no
      offsets. */
  function Normal(v: Value): Value
    decreases Levels(v), 1, 0
  {
    var p := match v.payload
             case Int(i) => NormalInteger(i)
             case UInt(u) => NormalInteger(u)
             case Array(_) => Array(NormalItems(v, Size(v)))
             case Object(_) => Object(NormalItems(v, Size(v)))
             case other => other;
    Value(p, 0, 0)
  }

  /** The first n children in normal form. */
  function NormalItems(v: Value, n: nat): (items: seq<Entry>)
    requires v.payload.Container() && n <= Size(v)
    ensures |items| == n && forall i :: 0 <= i < n ==> items[i].key == KeyAt(v, i)
    decreases Levels(v), 0, n
  {
    if n == 0 then []
    else NormalItems(v, n - 1) + [Entry(KeyAt(v, n - 1), Normal(SlotAt(v, n - 1).value))]
  }

  /** The key under which the i-th child is filed when its printed name is read. */
  function PrintedKey(c: bool, v: Value, i: nat): Key
    requires v.payload.Container() && i < Size(v)
  {
    if v.payload.Array? then Index(i) else MemberKey(Printed(c, SlotAt(v, i).name))
  }

  /** The tree as it is read back: each child is filed in turn under its printed name,
      in the place of an earlier one with the same. */
  function Reread(c: bool, v: Value): Value
    decreases Levels(v), 1, 0
  {
    var p := match v.payload
             case Int(i) => NormalInteger(i)
             case UInt(u) => NormalInteger(u)
             case Array(_) => Array(RereadItems(c, v, Size(v)))
             case Object(_) => Object(RereadItems(c, v, Size(v)))
             case other => other;
    Value(p, 0, 0)
  }

  function RereadItems(c: bool, v: Value, n: nat): seq<Entry>
    requires v.payload.Container() && n <= Size(v)
    decreases Levels(v), 0, n
  {
    if n == 0 then []
    else Put(RereadItems(c, v, n - 1), PrintedKey(c, v, n - 1), Reread(c, SlotAt(v, n - 1).value))
  }

  lemma RereadStarts(c: bool, v: Value)
    requires v.payload.Container()
    ensures RereadItems(c, v, 0) == []
  {
  }

  lemma RereadKind(c: bool, v: Value)
    ensures Reread(c, v).payload.Container() == v.payload.Container()
  {
    hide RereadItems;
  }

  // ------------------------------------------------------ without offsets

  lemma {:induction false} EraseAt(items: seq<Entry>, i: nat)
    requires i < |items|
    ensures EraseItems(items)[i] == Entry(items[i].key, Erase(items[i].value))
  {
    if i > 0 { EraseAt(items[1..], i - 1); }
  }

  lemma {:induction false} EraseBound(items: seq<Entry>, key: Key)
    ensures LowerBound(EraseItems(items), key) == LowerBound(items, key)
  {
    if items != [] {
      var e := EraseItems(items);
      assert e[0].key == items[0].key && e[1..] == EraseItems(items[1..]);
      EraseBound(items[1..], key);
    }
  }

  /** Filing a child and dropping the offsets commute. */
  lemma ErasePut(items: seq<Entry>, key: Key, child: Value)
    ensures EraseItems(Put(items, key, child)) == Put(EraseItems(items), key, Erase(child))
  {
    EraseBound(items, key);
    hide Erase, LowerBound, EraseItems;
    var p, put := LowerBound(items, key), Put(items, key, child);
    if p < |items| { EraseAt(items, p); }
    assert Has(EraseItems(items), key) == Has(items, key);
    forall i | 0 <= i < |put| ensures EraseItems(put)[i] == Put(EraseItems(items), key, Erase(child))[i] {
      EraseAt(put, i);
      if i != p { EraseAt(items, if i < p || Has(items, key) then i else i - 1); }
    }
  }

  lemma {:induction false} NormalErased(v: Value)
    ensures Erase(Normal(v)) == Normal(v)
    decreases Levels(v), 1, 0
  {
    if v.payload.Container() { NormalItemsErased(v, Size(v)); }
  }

  lemma {:induction false} NormalItemsErased(v: Value, n: nat)
    requires v.payload.Container() && n <= Size(v)
    ensures EraseItems(NormalItems(v, n)) == NormalItems(v, n)
    decreases Levels(v), 0, n
  {
    if n > 0 {
      NormalItemsErased(v, n - 1);
      NormalErased(SlotAt(v, n - 1).value);
      hide Normal, Erase;
      var items := NormalItems(v, n);
      forall i | 0 <= i < n ensures EraseItems(items)[i] == items[i] {
        EraseAt(items, i);
        if i < n - 1 { EraseAt(NormalItems(v, n - 1), i); }
      }
    }
  }

  // ------------------------------------------- when nothing is cut or lost

  /** The names of the first n children are read back as they were. */
  predicate KeptNames(c: bool, v: Value, n: nat)
    requires v.payload.Container() && n <= Size(v)
  {
    forall i :: 0 <= i < n ==> !c || NUL !in SlotAt(v, i).name
  }

  lemma KeptKey(c: bool, v: Value, i: nat)
    requires WellFormed(v) && v.payload.Container() && i < Size(v) && (!c || NUL !in SlotAt(v, i).name)
    ensures PrintedKey(c, v, i) == KeyAt(v, i)
  {
    var name := SlotAt(v, i).name;
    if v.payload.Object? {
      assert v.payload.items[i] in v.payload.items;
      if c { CTextStops(name, name + [NUL]); }
      assert name[..|name|] == name;
    }
  }

  /** A cut name holds no NUL. */
  lemma CutKey(v: Value, i: nat)
    requires v.payload.Object? && i < Size(v)
    ensures PrintedKey(true, v, i).Name? && NUL !in PrintedKey(true, v, i).text
  {
    var cut := Printed(true, SlotAt(v, i).name);
    assert NUL !in cut;
    assert forall x :: x in cut[..|cut| % KEY_LIMIT] ==> x in cut;
  }

  lemma KeysAscend(v: Value, i: nat, j: nat)
    requires WellFormed(v) && v.payload.Container() && i < j < Size(v)
    ensures KeyLess(KeyAt(v, i), KeyAt(v, j))
  {
  }

  /** With names kept the children are filed one behind the other. */
  lemma {:induction false} RereadInOrder(c: bool, v: Value, n: nat)
    requires WellFormed(v) && v.payload.Container() && n <= Size(v) && KeptNames(c, v, n)
    ensures |RereadItems(c, v, n)| == n
    ensures forall i {:trigger RereadItems(c, v, n)[i]} :: 0 <= i < n ==>
              RereadItems(c, v, n)[i] == Entry(KeyAt(v, i), Reread(c, SlotAt(v, i).value))
    decreases n
  {
    hide *;
    if n == 0 {
      RereadStarts(c, v);
    } else {
      KeptBefore(c, v, n);
      RereadInOrder(c, v, n - 1);
      KeptKey(c, v, n - 1);
      RereadNext(c, v, n - 1);
      var items := RereadItems(c, v, n);
      forall i | 0 <= i < n ensures items[i] == Entry(KeyAt(v, i), Reread(c, SlotAt(v, i).value)) {
        if i < n - 1 { assert items[i] == RereadItems(c, v, n - 1)[i]; }
      }
    }
  }

  lemma KeptBefore(c: bool, v: Value, n: nat)
    requires v.payload.Container() && 0 < n <= Size(v) && KeptNames(c, v, n)
    ensures KeptNames(c, v, n - 1) && (!c || NUL !in SlotAt(v, n - 1).name)
  {
    hide SlotAt;
  }

  lemma RereadNext(c: bool, v: Value, n: nat)
    requires WellFormed(v) && v.payload.Container() && n < Size(v) && PrintedKey(c, v, n) == KeyAt(v, n)
    requires |RereadItems(c, v, n)| == n
    requires forall i {:trigger RereadItems(c, v, n)[i]} :: 0 <= i < n ==> RereadItems(c, v, n)[i].key == KeyAt(v, i)
    ensures RereadItems(c, v, n + 1) == RereadItems(c, v, n) + [Entry(KeyAt(v, n), Reread(c, SlotAt(v, n).value))]
  {
    hide Reread, SlotAt, WellFormed, PrintedKey, KeyAt, Put, Size;
    var items := RereadItems(c, v, n);
    forall i | 0 <= i < n ensures KeyLess(items[i].key, KeyAt(v, n)) { KeysAscend(v, i, n); }
    PutAppends(items, KeyAt(v, n), Reread(c, SlotAt(v, n).value));
  }

  lemma {:induction false} NormalAt(v: Value, n: nat, i: nat)
    requires v.payload.Container() && i < n <= Size(v)
    ensures NormalItems(v, n)[i] == Entry(KeyAt(v, i), Normal(SlotAt(v, i).value))
    decreases n
  {
    hide Normal;
    if i < n - 1 { NormalAt(v, n - 1, i); }
  }

  /** No key that is read back from cut names holds a NUL. */
  predicate NulFreeKeys(items: seq<Entry>) { forall e :: e in items ==> e.key.Name? && NUL !in e.key.text }

  lemma {:induction false} RereadKeysCut(v: Value, n: nat)
    requires v.payload.Object? && n <= Size(v)
    ensures NulFreeKeys(RereadItems(true, v, n))
    decreases n
  {
    hide Reread, PrintedKey, SlotAt;
    if n > 0 {
      RereadKeysCut(v, n - 1);
      CutKey(v, n - 1);
      var key, child := PrintedKey(true, v, n - 1), Reread(true, SlotAt(v, n - 1).value);
      var items := RereadItems(true, v, n - 1);
      assert RereadItems(true, v, n) == Put(items, key, child);
      PutHolds(items, key, child);
      hide RereadItems, Put;
    }
  }

  lemma PutHolds(items: seq<Entry>, key: Key, value: Value)
    ensures forall e :: e in Put(items, key, value) ==> e == Entry(key, value) || e in items
  {
    var put := Put(items, key, value);
    hide Put, LowerBound;
    forall e | e in put ensures e == Entry(key, value) || e in items {
      var i :| 0 <= i < |put| && put[i] == e;
      PutAt(items, key, value, i);
    }
  }

  /** No NUL from the i-th child on. */
  lemma {:induction false} NulFreeAll(v: Value, i: nat)
    requires v.payload.Container() && i <= Size(v)
    ensures SlotsNulFree(v, i) <==>
            forall j :: i <= j < Size(v) ==> NUL !in SlotAt(v, j).name && NulFreeNames(SlotAt(v, j).value)
    decreases Size(v) - i
  {
    hide NulFreeNames, SlotAt;
    if i < Size(v) { NulFreeAll(v, i + 1); }
  }

  /** A tree is read back in normal form exactly when its names are printed whole or none
      of them holds a NUL. */
  lemma {:induction false} RereadIff(c: bool, v: Value)
    requires WellFormed(v)
    ensures Reread(c, v) == Normal(v) <==> !c || NulFreeNames(v)
    decreases Levels(v)
  {
    if v.payload.Container() {
      hide WellFormed, RereadItems, NormalItems, SlotAt, Size, Levels;
      NulFreeAll(v, 0);
      if KeptNames(c, v, Size(v)) {
        ChildrenRereadIff(c, v);
      } else {
        var i :| 0 <= i < Size(v) && c && NUL in SlotAt(v, i).name;
        NamesLost(v, i);
      }
    }
  }

  lemma NamesLost(v: Value, i: nat)
    requires WellFormed(v) && v.payload.Container() && i < Size(v) && NUL in SlotAt(v, i).name
    ensures v.payload.Object? && RereadItems(true, v, Size(v)) != NormalItems(v, Size(v))
  {
    hide WellFormed, RereadItems, NormalItems;
    RereadKeysCut(v, Size(v));
    var e := NormalItems(v, Size(v))[i];
    assert e in NormalItems(v, Size(v)) && e.key == v.payload.items[i].key;
  }

  lemma {:induction false} ChildrenRereadIff(c: bool, v: Value)
    requires WellFormed(v) && v.payload.Container() && KeptNames(c, v, Size(v))
    ensures RereadItems(c, v, Size(v)) == NormalItems(v, Size(v)) <==>
            forall j :: 0 <= j < Size(v) ==> !c || NulFreeNames(SlotAt(v, j).value)
    decreases Levels(v), 0
  {
    var n := Size(v);
    var xs, ys := RereadItems(c, v, n), NormalItems(v, n);
    RereadInOrder(c, v, n);
    forall j | 0 <= j < n ensures xs[j] == ys[j] <==> !c || NulFreeNames(SlotAt(v, j).value) {
      NormalAt(v, n, j);
      ChildWellFormed(v, j);
      RereadIff(c, SlotAt(v, j).value);
      hide *;
    }
    hide *;
    if xs == ys { assert forall j :: 0 <= j < n ==> xs[j] == ys[j]; }
  }

  /** Two names that are the same up to their NULs: only the later member is read back. */
  lemma CutNamesCollide(x: int, y: int)
    ensures var v := Value(Object([Entry(Name("a" + [NUL] + "x"), Value(Int(x), 0, 0)), Entry(Name("a" + [NUL] + "y"), Value(Int(y), 0, 0))]), 0, 0);
            Reread(true, v) == Value(Object([Entry(Name("a"), Value(NormalInteger(y), 0, 0))]), 0, 0)
  {
    hide NormalInteger;
    var a, b := "a" + [NUL] + "x", "a" + [NUL] + "y";
    var v := Value(Object([Entry(Name(a), Value(Int(x), 0, 0)), Entry(Name(b), Value(Int(y), 0, 0))]), 0, 0);
    CTextStops("a", a + [NUL]);
    CTextStops("a", b + [NUL]);
    KeyTrichotomy(Name("a"), Name("a"));
    assert "a"[..1] == "a";
    assert PrintedKey(true, v, 0) == Name("a") && PrintedKey(true, v, 1) == Name("a");
    var first := Put([], Name("a"), Value(NormalInteger(x), 0, 0));
    assert first == [Entry(Name("a"), Value(NormalInteger(x), 0, 0))];
    assert SlotAt(v, 0).value == Value(Int(x), 0, 0) && SlotAt(v, 1).value == Value(Int(y), 0, 0);
    assert RereadItems(true, v, 0) == [];
    assert RereadItems(true, v, 1) == first;
    assert RereadItems(true, v, 2) == Put(first, Name("a"), Reread(true, SlotAt(v, 1).value));
    assert Reread(true, SlotAt(v, 1).value) == Value(NormalInteger(y), 0, 0);
    assert Put(first, Name("a"), Value(NormalInteger(y), 0, 0)) == [Entry(Name("a"), Value(NormalInteger(y), 0, 0))];
  }

  /** Filing the next child read. */
  lemma PutNext(c: bool, v: Value, n: nat, items: seq<Entry>, child: Value)
    requires v.payload.Container() && n < Size(v)
    requires EraseItems(items) == RereadItems(c, v, n)
    requires Erase(child) == Reread(c, SlotAt(v, n).value)
    ensures EraseItems(Put(items, PrintedKey(c, v, n), child)) == RereadItems(c, v, n + 1)
  {
    hide Reread, Erase, SlotAt;
    ErasePut(items, PrintedKey(c, v, n), child);
  }
}
