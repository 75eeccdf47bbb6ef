/** Which order operator< is: types first, then numbers by value, texts by their first
    difference, containers by their number of entries and then by their first difference. */
module JsonOrder {
  import opened JsonValue

  /** At the first position where two texts differ, one is over or has the smaller character. */
  ghost predicate TextBefore(s: string, t: string) {
    exists k: nat :: k <= |s| && k < |t| && s[..k] == t[..k] && (k == |s| || s[k] < t[k])
  }

  lemma {:induction false} LexIsTextBefore(s: string, t: string)
    ensures LexLess(s, t) <==> TextBefore(s, t)
  {
    if s != "" && t != "" && s[0] == t[0] {
      LexIsTextBefore(s[1..], t[1..]);
      hide LexLess, TextBefore;
      SameFirst(s, t);
      LexStep(s, t);
    } else if s != "" && t != "" {
      FirstDecides(s, t);
    } else if t != "" {
      assert s[..0] == t[..0];
    }
  }

  lemma LexStep(s: string, t: string)
    requires s != "" && t != "" && s[0] == t[0]
    ensures LexLess(s, t) <==> LexLess(s[1..], t[1..])
  {
  }

  lemma {:induction false} FirstDecides(s: string, t: string)
    requires s != "" && t != "" && s[0] != t[0]
    ensures TextBefore(s, t) <==> s[0] < t[0]
  {
    assert s[..0] == t[..0];
    forall k: nat ensures 0 < k <= |s| && k < |t| && s[..k] == t[..k] ==> s[0] == t[0] { SharedFirst(s, t, k); }
  }

  lemma SharedFirst(s: string, t: string, k: nat)
    ensures 0 < k <= |s| && k <= |t| && s[..k] == t[..k] ==> s[0] == t[0]
  {
    if 0 < k <= |s| && k <= |t| { assert s[..k][0] == s[0] && t[..k][0] == t[0]; }
  }

  lemma {:induction false} SameFirst(s: string, t: string)
    requires s != "" && t != "" && s[0] == t[0]
    ensures TextBefore(s, t) <==> TextBefore(s[1..], t[1..])
  {
    var x, y := s[1..], t[1..];
    if TextBefore(x, y) {
      var k: nat :| k <= |x| && k < |y| && x[..k] == y[..k] && (k == |x| || x[k] < y[k]);
      assert s[..k + 1] == [s[0]] + x[..k] && t[..k + 1] == [t[0]] + y[..k];
      assert k < |x| ==> s[k + 1] == x[k] && t[k + 1] == y[k];
    }
    if TextBefore(s, t) {
      var k: nat :| k <= |s| && k < |t| && s[..k] == t[..k] && (k == |s| || s[k] < t[k]);
      if k > 0 {
        assert x[..k - 1] == s[..k][1..] && y[..k - 1] == t[..k][1..];
        assert k < |s| ==> s[k] == x[k - 1] && t[k] == y[k - 1];
      }
    }
  }

  /** Array slots by number, member names by their first difference. */
  ghost predicate KeyBefore(a: Key, b: Key) {
    (a.Index? && b.Index? && a.index < b.index) || (a.Name? && b.Name? && TextBefore(a.text, b.text))
  }

  /** The keys of a container are of one kind. */
  predicate SameKind(a: Key, b: Key) { a.Index? == b.Index? }

  lemma KeyLessIsBefore(a: Key, b: Key)
    requires SameKind(a, b)
    ensures KeyLess(a, b) <==> KeyBefore(a, b)
  {
    if a.Name? { LexIsTextBefore(a.text, b.text); }
  }

  /** The member names of an object stand in that order. */
  lemma NamesInOrder(v: Value, i: nat, j: nat)
    requires v.payload.Object? && WellFormed(v) && i < j < |v.payload.items|
    ensures v.payload.items[i].key.Name? && v.payload.items[j].key.Name?
    ensures TextBefore(v.payload.items[i].key.text, v.payload.items[j].key.text)
  {
    var items := v.payload.items;
    assert items[i] in items && items[j] in items;
    LexIsTextBefore(items[i].key.text, items[j].key.text);
  }

  // ------------------------------------------------------------ the values

  /** null, int, uint, real, string, bool, array, object. */
  predicate TypeBefore(a: Payload, b: Payload) {
    || (a.Null? && !b.Null?)
    || (a.Int? && (b.UInt? || b.Real? || b.Str? || b.Bool? || b.Container()))
    || (a.UInt? && (b.Real? || b.Str? || b.Bool? || b.Container()))
    || (a.Real? && (b.Str? || b.Bool? || b.Container()))
    || (a.Str? && (b.Bool? || b.Container()))
    || (a.Bool? && b.Container())
    || (a.Array? && b.Object?)
  }

  predicate BothContainers(a: Payload, b: Payload) { (a.Array? && b.Array?) || (a.Object? && b.Object?) }

  /** The keys of two containers may be compared: all slots or all names. */
  predicate Comparable(xs: seq<Entry>, ys: seq<Entry>) {
    forall i, j :: 0 <= i < |xs| && 0 <= j < |ys| ==> SameKind(xs[i].key, ys[j].key)
  }

  lemma WellFormedComparable(a: Value, b: Value)
    requires WellFormed(a) && WellFormed(b) && BothContainers(a.payload, b.payload)
    ensures Comparable(a.payload.items, b.payload.items)
  {
    var xs, ys := a.payload.items, b.payload.items;
    assert forall i :: 0 <= i < |xs| ==> xs[i] in xs;
    assert forall j :: 0 <= j < |ys| ==> ys[j] in ys;
  }

  /** The key decides, and between equal keys the value. */
  ghost predicate EntryBefore(x: Entry, y: Entry) {
    KeyBefore(x.key, y.key) || (x.key == y.key && Less(x.value, y.value))
  }

  ghost predicate SameUpTo(xs: seq<Entry>, ys: seq<Entry>, k: nat)
    requires k <= |xs| && k <= |ys|
  {
    forall i :: 0 <= i < k ==> xs[i].key == ys[i].key && Equal(xs[i].value, ys[i].value)
  }

  /** At the first index where the entries differ one list is over or has the smaller entry. */
  ghost predicate EntriesBefore(xs: seq<Entry>, ys: seq<Entry>) {
    exists k: nat :: k <= |xs| && k < |ys| && SameUpTo(xs, ys, k) && (k == |xs| || EntryBefore(xs[k], ys[k]))
  }

  lemma PairLessIsBefore(x: Entry, y: Entry)
    requires SameKind(x.key, y.key)
    ensures PairLess(x, y) <==> EntryBefore(x, y)
    ensures !PairLess(x, y) && !PairLess(y, x) <==> x.key == y.key && Equal(x.value, y.value)
  {
    KeyLessIsBefore(x.key, y.key);
    KeyTrichotomy(x.key, y.key);
    OrderIff(x.value, y.value);
  }

  lemma {:induction false} MapLessIsBefore(xs: seq<Entry>, ys: seq<Entry>)
    requires Comparable(xs, ys)
    ensures MapLess(xs, ys) <==> EntriesBefore(xs, ys)
    decreases |xs|
  {
    if xs != [] && ys != [] {
      var x, y, xt, yt := xs[0], ys[0], xs[1..], ys[1..];
      assert SameKind(x.key, y.key);
      assert Comparable(xt, yt) by {
        assert forall i :: 0 <= i < |xt| ==> xt[i] == xs[i + 1];
        assert forall i :: 0 <= i < |yt| ==> yt[i] == ys[i + 1];
      }
      PairLessIsBefore(x, y);
      MapLessIsBefore(xt, yt);
      hide Comparable, PairLess, Less, Equal, KeyBefore;
      if PairLess(x, y) {
        assert SameUpTo(xs, ys, 0);
      } else if !PairLess(y, x) {
        OneFurther(xs, ys);
      }
    } else if ys != [] {
      assert SameUpTo(xs, ys, 0);
    }
  }

  lemma OneFurther(xs: seq<Entry>, ys: seq<Entry>)
    requires xs != [] && ys != [] && xs[0].key == ys[0].key && Equal(xs[0].value, ys[0].value)
    requires !EntryBefore(xs[0], ys[0])
    ensures EntriesBefore(xs, ys) <==> EntriesBefore(xs[1..], ys[1..])
  {
    hide EntryBefore, Equal;
    var xt, yt := xs[1..], ys[1..];
    if EntriesBefore(xt, yt) {
      var k: nat :| k <= |xt| && k < |yt| && SameUpTo(xt, yt, k) && (k == |xt| || EntryBefore(xt[k], yt[k]));
      assert SameUpTo(xs, ys, k + 1) by {
        assert forall i :: 1 <= i < k + 1 ==> xs[i] == xt[i - 1] && ys[i] == yt[i - 1];
      }
    }
    if EntriesBefore(xs, ys) {
      var k: nat :| k <= |xs| && k < |ys| && SameUpTo(xs, ys, k) && (k == |xs| || EntryBefore(xs[k], ys[k]));
      assert SameUpTo(xt, yt, k - 1);
    }
  }

  /** operator< on all trees without NaN.  Among containers the truncated difference of the
      numbers of entries decides unless it is zero, then the first difference. */
  lemma LessMeaning(a: Value, b: Value)
    requires BothContainers(a.payload, b.payload) ==> Comparable(a.payload.items, b.payload.items)
    ensures Less(a, b) <==>
              var p, q := a.payload, b.payload;
              || TypeBefore(p, q)
              || (p.Int? && q.Int? && p.i < q.i)
              || (p.UInt? && q.UInt? && p.u < q.u)
              || (p.Real? && q.Real? && p.r < q.r)
              || (p.Str? && q.Str? && TextBefore(p.text, q.text))
              || (p.Bool? && q.Bool? && !p.b && q.b)
              || (BothContainers(p, q) &&
                  var delta := (|p.items| - |q.items|) % 0x1_0000_0000;
                  delta >= 0x8000_0000 || (delta == 0 && EntriesBefore(p.items, q.items)))
  {
    var p, q := a.payload, b.payload;
    if p.Str? && q.Str? {
      LexIsTextBefore(p.text, q.text);
    } else if BothContainers(p, q) {
      MapLessIsBefore(p.items, q.items);
    }
  }

  /** Below 2^31 entries the container with fewer entries comes first, and between containers
      of one size the first index at which the entries differ decides. */
  lemma ContainerOrder(a: Value, b: Value)
    requires BothContainers(a.payload, b.payload) && Comparable(a.payload.items, b.payload.items)
    requires |a.payload.items| < 0x8000_0000 && |b.payload.items| < 0x8000_0000
    ensures var xs, ys := a.payload.items, b.payload.items;
            Less(a, b) <==>
              || |xs| < |ys|
              || (|xs| == |ys| && exists k: nat :: k < |xs| && SameUpTo(xs, ys, k) && EntryBefore(xs[k], ys[k]))
  {
    hide *;
    LessMeaning(a, b);
    BothOfOneType(a, b);
    DeltaBelow(|a.payload.items|, |b.payload.items|);
    FirstInside(a.payload.items, b.payload.items);
  }

  lemma BothOfOneType(a: Value, b: Value)
    requires BothContainers(a.payload, b.payload)
    ensures a.payload.Container() && b.payload.Container() && !TypeBefore(a.payload, b.payload)
  {
  }

  lemma DeltaBelow(m: nat, n: nat)
    requires m < 0x8000_0000 && n < 0x8000_0000
    ensures var delta := (m - n) % 0x1_0000_0000; (delta >= 0x8000_0000 <==> m < n) && (delta == 0 <==> m == n)
  {
  }

  lemma FirstInside(xs: seq<Entry>, ys: seq<Entry>)
    ensures |xs| == |ys| ==>
              (EntriesBefore(xs, ys) <==> exists k: nat :: k < |xs| && SameUpTo(xs, ys, k) && EntryBefore(xs[k], ys[k]))
  {
    hide SameUpTo, EntryBefore;
  }
}
