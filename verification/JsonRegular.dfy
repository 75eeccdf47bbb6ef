/** Which trees are their own normal form, and what the children are that the writers see. */
module JsonRegular {
  import opened JsonNormalForm
  import opened JsonNumber
  import opened JsonValue
  import opened JsonWriter

  // ------------------------------------------------ what the children are

  /** The size of an array is one more than its highest slot. */
  lemma SizeIsBound(v: Value)
    requires WellFormed(v) && v.payload.Array?
    ensures forall e :: e in v.payload.items ==> e.key.Index? && e.key.index < Size(v)
    ensures Size(v) > 0 ==> exists e :: e in v.payload.items && e.key.Index? && e.key.index == Size(v) - 1
  {
    var items := v.payload.items;
    if items != [] {
      var last := items[|items| - 1];
      assert last in items;
      forall e | e in items ensures e.key.Index? && e.key.index < Size(v) {
        var i :| 0 <= i < |items| && items[i] == e;
        assert i < |items| - 1 ==> KeyLess(items[i].key, last.key);
      }
    }
  }

  /** A child is what is stored under its number, or null in a hole; a member is the one at
      its place, with its name. */
  lemma ChildIsStored(v: Value, i: nat)
    requires WellFormed(v) && v.payload.Container() && i < Size(v)
    ensures v.payload.Array? ==> forall x :: Entry(Index(i), x) in v.payload.items ==> SlotAt(v, i).value == x
    ensures v.payload.Array? && (forall e :: e in v.payload.items ==> e.key != Index(i)) ==> SlotAt(v, i).value.payload == Null
    ensures v.payload.Object? ==> |v.payload.items| == Size(v) && v.payload.items[i] == Entry(Name(SlotAt(v, i).name), SlotAt(v, i).value)
  {
    var items := v.payload.items;
    if v.payload.Array? {
      forall x | Entry(Index(i), x) in items ensures SlotAt(v, i).value == x { GetIffPresent(items, Index(i), x); }
      HasIffPresent(items, Index(i));
    } else {
      assert items[i] in items;
    }
  }

  predicate InPlace(items: seq<Entry>) { forall i :: 0 <= i < |items| ==> items[i].key == Index(i) }

  /** A tree without holes whose integers are signed up to 2^31 - 1 and unsigned above. */
  predicate Regular(v: Value) {
    match v.payload
    case Int(i) => i <= 2147483647
    case UInt(u) => u > 2147483647
    case Array(items) => InPlace(items) && forall i :: 0 <= i < |items| ==> Regular(items[i].value)
    case Object(items) => forall i :: 0 <= i < |items| ==> Regular(items[i].value)
    case _ => true
  }

  /** Such trees, and only they, are their own normal form. */
  lemma {:induction false} NormalIff(v: Value)
    requires WellFormed(v)
    ensures Normal(v) == Erase(v) <==> Regular(v)
    decreases Levels(v)
  {
    hide NormalItems, EraseItems, WellFormed, SlotAt, Size, Levels;
    if v.payload.Container() {
      var items := v.payload.items;
      forall i | 0 <= i < |items| ensures Normal(items[i].value) == Erase(items[i].value) <==> Regular(items[i].value) {
        ItemBelow(v, i);
        NormalIff(items[i].value);
      }
      hide Normal, Erase, Regular;
      ItemsIff(v);
      ContainerIff(v);
    }
  }

  lemma ItemBelow(v: Value, i: nat)
    requires v.payload.Container() && WellFormed(v) && i < |v.payload.items|
    ensures WellFormed(v.payload.items[i].value) && Levels(v.payload.items[i].value) < Levels(v)
  {
    ItemWellFormed(v.payload.items, i);
    MaxLevelsBounds(v.payload.items, i);
  }

  predicate ItemsNormal(items: seq<Entry>) {
    forall i :: 0 <= i < |items| ==> Normal(items[i].value) == Erase(items[i].value)
  }

  lemma ContainerIff(v: Value)
    requires v.payload.Container()
    requires NormalItems(v, Size(v)) == EraseItems(v.payload.items) <==> (v.payload.Array? ==> InPlace(v.payload.items)) && ItemsNormal(v.payload.items)
    requires forall i :: 0 <= i < |v.payload.items| ==>
               (Normal(v.payload.items[i].value) == Erase(v.payload.items[i].value) <==> Regular(v.payload.items[i].value))
    ensures Normal(v) == Erase(v) <==> Regular(v)
  {
    hide NormalItems, EraseItems, Size, SlotAt;
  }

  lemma {:induction false} ItemsIff(v: Value)
    requires WellFormed(v) && v.payload.Container()
    ensures NormalItems(v, Size(v)) == EraseItems(v.payload.items) <==>
            (v.payload.Array? ==> InPlace(v.payload.items)) && ItemsNormal(v.payload.items)
  {
    hide Normal, Erase, EraseItems, NormalItems, WellFormed, SlotAt, Size, Levels;
    var items, n := v.payload.items, Size(v);
    var xs, ys := NormalItems(v, n), EraseItems(items);
    if v.payload.Array? && !InPlace(items) {
      var i :| 0 <= i < |items| && items[i].key != Index(i);
      EraseAt(items, i);
      if i < n {
        NormalAt(v, n, i);
        KeyOfArray(v, i);
        assert xs[i].key != ys[i].key;
      }
    } else {
      SameSize(v);
      forall i | 0 <= i < n ensures xs[i] == ys[i] <==> Normal(items[i].value) == Erase(items[i].value) {
        NormalAt(v, n, i);
        EraseAt(items, i);
        ChildInPlace(v, i);
      }
      assert xs == ys <==> forall i :: 0 <= i < n ==> xs[i] == ys[i];
    }
  }

  lemma KeyOfArray(v: Value, i: nat)
    requires v.payload.Array? && i < Size(v)
    ensures KeyAt(v, i) == Index(i)
  {
  }

  lemma SameSize(v: Value)
    requires v.payload.Container() && (v.payload.Array? ==> InPlace(v.payload.items))
    ensures Size(v) == |v.payload.items|
  {
  }

  lemma ChildInPlace(v: Value, i: nat)
    requires WellFormed(v) && v.payload.Container() && (v.payload.Array? ==> InPlace(v.payload.items))
    requires i < |v.payload.items| && i < Size(v)
    ensures KeyAt(v, i) == v.payload.items[i].key && SlotAt(v, i).value == v.payload.items[i].value
  {
    ChildIsStored(v, i);
    assert v.payload.items[i] in v.payload.items;
    assert v.payload.Array? ==> v.payload.items[i] == Entry(Index(i), v.payload.items[i].value);
  }
}
