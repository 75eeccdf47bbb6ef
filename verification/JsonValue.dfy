/** The JSON value tree of json_value.cpp: a tagged payload with the source
    range the reader stamped on it, the key order of the underlying
    `std::map<CZString, Value>`, and the comparison operators. */
module JsonValue {

  /** CZString: an array slot number or a member name.  A container holds keys
      of one kind only; the order between kinds is never consulted. */
  datatype Key = Index(index: nat) | Name(text: string)

  datatype Entry = Entry(key: Key, value: Value)

  datatype Payload =
    | Null
    | Int(i: int)
    | UInt(u: nat)
    | Real(r: real)
    | Str(text: string)
    | Bool(b: bool)
    | Array(items: seq<Entry>)
    | Object(items: seq<Entry>)
  {
    /** The numeric value of the ValueType enumeration. */
    function Tag(): nat {
      match this
      case Null => 0
      case Int(_) => 1
      case UInt(_) => 2
      case Real(_) => 3
      case Str(_) => 4
      case Bool(_) => 5
      case Array(_) => 6
      case Object(_) => 7
    }

    predicate Container() { Array? || Object? }
  }

  datatype Value = Value(payload: Payload, start: int, limit: int)

  /** nullSingleton(): what a freshly created slot holds. */
  const NULL_VALUE := Value(Null, 0, 0)

  const TWO_31: int := 0x8000_0000
  const TWO_32: int := 0x1_0000_0000
  const TWO_63: int := 0x8000_0000_0000_0000
  const TWO_64: int := 0x1_0000_0000_0000_0000

  /** Longest member name a CZString can record (30-bit length field). */
  const KEY_LIMIT: nat := 0x4000_0000
  /** Longest text duplicateAndPrefixStringValue accepts. */
  const TEXT_LIMIT: nat := 0x7FFF_FFFA
  /** Array slots the reader's `int` index can name and size() can report. */
  const INDEX_LIMIT: nat := 0x7FFF_FFFF

  // ---------------------------------------------------------------- keys

  /** memcmp over the common length, then the shorter text first. */
  predicate LexLess(s: string, t: string) {
    if t == "" then false
    else if s == "" then true
    else if s[0] != t[0] then s[0] < t[0]
    else LexLess(s[1..], t[1..])
  }

  predicate KeyLess(a: Key, b: Key) {
    match (a, b)
    case (Index(i), Index(j)) => i < j
    case (Name(s), Name(t)) => LexLess(s, t)
    case (Index(_), Name(_)) => true
    case (Name(_), Index(_)) => false
  }

  lemma {:induction false} LexTrichotomy(s: string, t: string)
    ensures LexLess(s, t) || s == t || LexLess(t, s)
    ensures !(LexLess(s, t) && LexLess(t, s))
    ensures s == t ==> !LexLess(s, t)
  {
    if s != "" && t != "" && s[0] == t[0] {
      LexTrichotomy(s[1..], t[1..]);
      assert s == [s[0]] + s[1..] && t == [t[0]] + t[1..];
    }
  }

  lemma {:induction false} LexTransitive(s: string, t: string, u: string)
    requires LexLess(s, t) && LexLess(t, u)
    ensures LexLess(s, u)
  {
    if s != "" && s[0] == t[0] == u[0] {
      LexTransitive(s[1..], t[1..], u[1..]);
    }
  }

  lemma KeyTrichotomy(a: Key, b: Key)
    ensures KeyLess(a, b) || a == b || KeyLess(b, a)
    ensures !(KeyLess(a, b) && KeyLess(b, a))
    ensures a == b ==> !KeyLess(a, b)
  {
    if a.Name? && b.Name? { LexTrichotomy(a.text, b.text); }
  }

  lemma KeyTransitive(a: Key, b: Key, c: Key)
    requires KeyLess(a, b) && KeyLess(b, c)
    ensures KeyLess(a, c)
  {
    if a.Name? && b.Name? && c.Name? { LexTransitive(a.text, b.text, c.text); }
  }

  // ---------------------------------------------------------------- the map

  predicate Sorted(items: seq<Entry>) {
    forall i, j :: 0 <= i < j < |items| ==> KeyLess(items[i].key, items[j].key)
  }

  /** std::map::lower_bound: the first position whose key is not below `key`. */
  function LowerBound(items: seq<Entry>, key: Key): (p: nat)
    ensures p <= |items|
    ensures forall i :: 0 <= i < p ==> KeyLess(items[i].key, key)
    ensures p < |items| ==> !KeyLess(items[p].key, key)
  {
    if items == [] || !KeyLess(items[0].key, key) then 0
    else 1 + LowerBound(items[1..], key)
  }

  predicate Has(items: seq<Entry>, key: Key) {
    var p := LowerBound(items, key);
    p < |items| && items[p].key == key
  }

  /** The const operator[]: the stored value, or the null singleton. */
  function Get(items: seq<Entry>, key: Key): Value {
    if Has(items, key) then items[LowerBound(items, key)].value else NULL_VALUE
  }

  /** The mutable operator[] followed by storing `value` through the reference
      it returns. */
  function Put(items: seq<Entry>, key: Key, value: Value): seq<Entry> {
    var p := LowerBound(items, key);
    if Has(items, key) then items[p := Entry(key, value)]
    else items[..p] + [Entry(key, value)] + items[p..]
  }

  /** In a sorted map lower_bound finds exactly the keys that are present. */
  lemma HasIffPresent(items: seq<Entry>, key: Key)
    requires Sorted(items)
    ensures Has(items, key) <==> exists i :: 0 <= i < |items| && items[i].key == key
    ensures forall i :: LowerBound(items, key) < i < |items| ==> KeyLess(key, items[i].key)
    ensures LowerBound(items, key) < |items| && !Has(items, key)
        ==> KeyLess(key, items[LowerBound(items, key)].key)
  {
    var p := LowerBound(items, key);
    if p < |items| {
      KeyTrichotomy(items[p].key, key);
      forall i | p < i < |items| ensures KeyLess(key, items[i].key) {
        if items[p].key != key {
          KeyTransitive(key, items[p].key, items[i].key);
        }
      }
    }
    forall i | 0 <= i < |items| && items[i].key == key ensures Has(items, key) {
      KeyTrichotomy(key, key);
    }
  }

  /** A sorted map holds an entry exactly when looking its key up finds it. */
  lemma GetIffPresent(items: seq<Entry>, key: Key, value: Value)
    requires Sorted(items)
    ensures Has(items, key) && Get(items, key) == value <==> Entry(key, value) in items
  {
    HasIffPresent(items, key);
    if Entry(key, value) in items {
      var i :| 0 <= i < |items| && items[i] == Entry(key, value);
      KeyTrichotomy(key, key);
    }
  }

  lemma PutSorted(items: seq<Entry>, key: Key, value: Value)
    requires Sorted(items)
    ensures Sorted(Put(items, key, value))
  {
    HasIffPresent(items, key);
  }

  /** Where the entries of a map are after another was stored. */
  lemma PutAt(items: seq<Entry>, key: Key, item: Value, i: nat)
    requires i < |Put(items, key, item)|
    ensures var p := LowerBound(items, key);
            var j := if i < p || Has(items, key) then i else i - 1;
            if i == p then Put(items, key, item)[i] == Entry(key, item)
            else 0 <= j < |items| && Put(items, key, item)[i] == items[j]
  {
  }

  /** Where an entry with another key comes to be. */
  lemma PutFrom(items: seq<Entry>, key: Key, item: Value, j: nat)
    requires j < |items| && items[j].key != key
    ensures var p := LowerBound(items, key);
            var i := if j < p || Has(items, key) then j else j + 1;
            i < |Put(items, key, item)| && Put(items, key, item)[i] == items[j]
  {
  }

  /** In a sorted map a key is at its own place only. */
  lemma OtherKey(items: seq<Entry>, key: Key, i: nat)
    requires Sorted(items) && i < |items| && (i != LowerBound(items, key) || !Has(items, key))
    ensures items[i].key != key
  {
    HasIffPresent(items, key);
    KeyTrichotomy(key, key);
  }

  lemma {:induction false} PutEntries(items: seq<Entry>, key: Key, value: Value, other: Entry)
    requires Sorted(items)
    ensures other in Put(items, key, value) <==>
            other == Entry(key, value) || (other.key != key && other in items)
  {
    var p, put := LowerBound(items, key), Put(items, key, value);
    assert put[p] == Entry(key, value) by { PutAt(items, key, value, p); }
    hide Sorted, Put, LowerBound;
    if other in put {
      var i :| 0 <= i < |put| && put[i] == other;
      PutAt(items, key, value, i);
      if i != p { OtherKey(items, key, if i < p || Has(items, key) then i else i - 1); }
    }
    if other.key != key && other in items {
      var j :| 0 <= j < |items| && items[j] == other;
      PutFrom(items, key, value, j);
    }
  }

  /** operator[] keeps the map ordered and duplicate-free, and is a map update:
      the key reads back the stored value and every other key is untouched. */
  lemma PutIsMapUpdate(items: seq<Entry>, key: Key, value: Value, other: Key)
    requires Sorted(items)
    ensures Sorted(Put(items, key, value))
    ensures Has(Put(items, key, value), key) && Get(Put(items, key, value), key) == value
    ensures other != key ==>
              && Has(Put(items, key, value), other) == Has(items, other)
              && Get(Put(items, key, value), other) == Get(items, other)
  {
    var put := Put(items, key, value);
    PutSorted(items, key, value);
    PutEntries(items, key, value, Entry(key, value));
    GetIffPresent(put, key, value);
    GetIffPresent(items, other, Get(items, other));
    GetIffPresent(put, other, Get(items, other));
    GetIffPresent(put, other, Get(put, other));
    GetIffPresent(items, other, Get(put, other));
    PutEntries(items, key, value, Entry(other, Get(items, other)));
    PutEntries(items, key, value, Entry(other, Get(put, other)));
  }

  /** Storing under a key above all present ones appends. */
  lemma PutAppends(items: seq<Entry>, key: Key, value: Value)
    requires forall i :: 0 <= i < |items| ==> KeyLess(items[i].key, key)
    ensures Put(items, key, value) == items + [Entry(key, value)]
    ensures Get(items, key) == NULL_VALUE
  {
  }

  // ---------------------------------------------------------------- sizes

  /** Value::size(): one past the highest index, or the number of members. */
  function Size(v: Value): nat {
    match v.payload
    case Array(items) =>
      if items == [] then 0
      else match items[|items| - 1].key { case Index(i) => i + 1 case Name(_) => 0 }
    case Object(items) => |items|
    case _ => 0
  }

  /** Number of nodes: the measure for recursion over two trees at once. */
  function Nodes(v: Value): (n: nat)
    ensures n >= 1
    decreases v, 1
  {
    if v.payload.Container() then 1 + NodesOf(v.payload.items) else 1
  }

  function NodesOf(items: seq<Entry>): nat
    decreases items, 0
  {
    if items == [] then 0
    else assert items decreases to items[0]; Nodes(items[0].value) + NodesOf(items[1..])
  }

  // ---------------------------------------------------------------- order

  /** `int(size_t a - size_t b)`: the difference truncated to 32 bits. */
  function SizeDelta(a: nat, b: nat): int {
    var d := (a - b) % TWO_32;
    if d < TWO_31 then d else d - TWO_32
  }

  /** Value::operator< */
  predicate Less(a: Value, b: Value)
    decreases Nodes(a) + Nodes(b), 0
  {
    if a.payload.Tag() != b.payload.Tag() then a.payload.Tag() < b.payload.Tag()
    else
      match a.payload
      case Null => false
      case Int(i) => i < b.payload.i
      case UInt(u) => u < b.payload.u
      case Real(r) => r < b.payload.r
      case Str(s) => LexLess(s, b.payload.text)
      case Bool(x) => !x && b.payload.b
      case Array(items) => ItemsLess(items, b.payload.items)
      case Object(items) => ItemsLess(items, b.payload.items)
  }

  predicate ItemsLess(xs: seq<Entry>, ys: seq<Entry>)
    decreases NodesOf(xs) + NodesOf(ys), 3
  {
    var delta := SizeDelta(|xs|, |ys|);
    if delta != 0 then delta < 0 else MapLess(xs, ys)
  }

  /** operator< of std::map: lexicographic over key/value pairs. */
  predicate MapLess(xs: seq<Entry>, ys: seq<Entry>)
    decreases NodesOf(xs) + NodesOf(ys), 2
  {
    if ys == [] then false
    else if xs == [] then true
    else if PairLess(xs[0], ys[0]) then true
    else if PairLess(ys[0], xs[0]) then false
    else MapLess(xs[1..], ys[1..])
  }

  predicate PairLess(x: Entry, y: Entry)
    decreases Nodes(x.value) + Nodes(y.value), 1
  {
    KeyLess(x.key, y.key) || (!KeyLess(y.key, x.key) && Less(x.value, y.value))
  }

  /** Value::operator==; source offsets do not take part. */
  predicate Equal(a: Value, b: Value)
    decreases a, 1
  {
    a.payload.Tag() == b.payload.Tag() &&
    match a.payload
    case Null => true
    case Int(i) => i == b.payload.i
    case UInt(u) => u == b.payload.u
    case Real(r) => r == b.payload.r
    case Str(s) => s == b.payload.text
    case Bool(x) => x == b.payload.b
    case Array(items) => ItemsEqual(items, b.payload.items)
    case Object(items) => ItemsEqual(items, b.payload.items)
  }

  predicate ItemsEqual(xs: seq<Entry>, ys: seq<Entry>)
    decreases xs, 0
  {
    |xs| == |ys| &&
    (xs == [] ||
     (assert xs decreases to xs[0];
      xs[0].key == ys[0].key && Equal(xs[0].value, ys[0].value) && ItemsEqual(xs[1..], ys[1..])))
  }

  /** Every container in the tree has fewer than 2^31 entries. */
  predicate Small(v: Value)
    decreases v, 1
  {
    v.payload.Container() ==> |v.payload.items| < TWO_31 && AllSmall(v.payload.items)
  }

  predicate AllSmall(items: seq<Entry>)
    decreases items, 0
  {
    items == [] || (assert items decreases to items[0]; Small(items[0].value) && AllSmall(items[1..]))
  }

  /** Two containers whose sizes differ by 2^31 modulo 2^32 at the first difference of the
      trees: the truncated difference is negative both ways. */
  predicate Clash(a: Value, b: Value)
    decreases Nodes(a) + Nodes(b), 0
  {
    a.payload.Container() && a.payload.Tag() == b.payload.Tag() && ClashItems(a.payload.items, b.payload.items)
  }

  predicate ClashItems(xs: seq<Entry>, ys: seq<Entry>)
    decreases NodesOf(xs) + NodesOf(ys), 3
  {
    (|xs| - |ys|) % TWO_32 == TWO_31 || ((|xs| - |ys|) % TWO_32 == 0 && ClashWithin(xs, ys))
  }

  predicate ClashWithin(xs: seq<Entry>, ys: seq<Entry>)
    decreases NodesOf(xs) + NodesOf(ys), 2
  {
    xs != [] && ys != [] && xs[0].key == ys[0].key &&
    (Clash(xs[0].value, ys[0].value) || (Equal(xs[0].value, ys[0].value) && ClashWithin(xs[1..], ys[1..])))
  }

  /** For all trees one of less, equal and greater holds, equal excludes the others, and
      less and greater hold together exactly when the trees clash. */
  lemma {:induction false} OrderIff(a: Value, b: Value)
    ensures Less(a, b) || Equal(a, b) || Less(b, a)
    ensures Equal(a, b) ==> !Less(a, b) && !Less(b, a)
    ensures Less(a, b) && Less(b, a) <==> Clash(a, b)
    decreases Nodes(a) + Nodes(b), 0
  {
    if a.payload.Str? && b.payload.Str? {
      LexTrichotomy(a.payload.text, b.payload.text);
    } else if a.payload.Container() && a.payload.Tag() == b.payload.Tag() {
      ItemsOrderIff(a.payload.items, b.payload.items);
    }
  }

  lemma {:induction false} ItemsOrderIff(xs: seq<Entry>, ys: seq<Entry>)
    ensures ItemsLess(xs, ys) || ItemsEqual(xs, ys) || ItemsLess(ys, xs)
    ensures ItemsEqual(xs, ys) ==> !ItemsLess(xs, ys) && !ItemsLess(ys, xs)
    ensures ItemsLess(xs, ys) && ItemsLess(ys, xs) <==> ClashItems(xs, ys)
    decreases NodesOf(xs) + NodesOf(ys), 3
  {
    MapOrderIff(xs, ys);
    DeltaNegates(|xs|, |ys|);
  }

  lemma {:induction false} MapOrderIff(xs: seq<Entry>, ys: seq<Entry>)
    ensures MapLess(xs, ys) || ItemsEqual(xs, ys) || MapLess(ys, xs)
    ensures ItemsEqual(xs, ys) ==> !MapLess(xs, ys) && !MapLess(ys, xs)
    ensures MapLess(xs, ys) && MapLess(ys, xs) <==> ClashWithin(xs, ys)
    decreases NodesOf(xs) + NodesOf(ys), 2
  {
    if xs != [] && ys != [] {
      KeyTrichotomy(xs[0].key, ys[0].key);
      OrderIff(xs[0].value, ys[0].value);
      MapOrderIff(xs[1..], ys[1..]);
    }
  }

  /** Below 2^31 entries per container nothing clashes. */
  lemma {:induction false} SmallNeverClash(a: Value, b: Value)
    requires Small(a) && Small(b)
    ensures !Clash(a, b)
    decreases Nodes(a) + Nodes(b), 0
  {
    if a.payload.Container() && a.payload.Tag() == b.payload.Tag() {
      SmallNeverClashWithin(a.payload.items, b.payload.items);
    }
  }

  lemma {:induction false} SmallNeverClashWithin(xs: seq<Entry>, ys: seq<Entry>)
    requires AllSmall(xs) && AllSmall(ys)
    ensures !ClashWithin(xs, ys)
    decreases NodesOf(xs) + NodesOf(ys), 2
  {
    if xs != [] && ys != [] {
      SmallNeverClash(xs[0].value, ys[0].value);
      SmallNeverClashWithin(xs[1..], ys[1..]);
    }
  }

  /** operator< and operator== answer exactly one of less, equal, greater. */
  lemma OrderTrichotomy(a: Value, b: Value)
    requires Small(a) && Small(b)
    ensures Less(a, b) || Equal(a, b) || Less(b, a)
    ensures !(Less(a, b) && Less(b, a))
    ensures Equal(a, b) ==> !Less(a, b) && !Less(b, a)
  {
    OrderIff(a, b);
    SmallNeverClash(a, b);
  }

  // The tree without its source offsets.

  function Erase(v: Value): Value
    decreases v, 1
  {
    match v.payload
    case Array(items) => Value(Array(EraseItems(items)), 0, 0)
    case Object(items) => Value(Object(EraseItems(items)), 0, 0)
    case p => Value(p, 0, 0)
  }

  function EraseItems(items: seq<Entry>): (r: seq<Entry>)
    ensures |r| == |items|
    decreases items, 0
  {
    if items == [] then []
    else
      assert items decreases to items[0];
      [Entry(items[0].key, Erase(items[0].value))] + EraseItems(items[1..])
  }

  /** operator== is equality of the trees once offsets are dropped. */
  lemma {:induction false} EqualIffErased(a: Value, b: Value)
    ensures Equal(a, b) <==> Erase(a) == Erase(b)
    decreases a, 1
  {
    if a.payload.Container() && a.payload.Tag() == b.payload.Tag() {
      ItemsEqualIffErased(a.payload.items, b.payload.items);
    }
  }

  lemma {:induction false} ItemsEqualIffErased(xs: seq<Entry>, ys: seq<Entry>)
    ensures ItemsEqual(xs, ys) <==> EraseItems(xs) == EraseItems(ys)
    decreases xs, 0
  {
    if xs != [] && |xs| == |ys| {
      assert xs decreases to xs[0];
      EqualIffErased(xs[0].value, ys[0].value);
      ItemsEqualIffErased(xs[1..], ys[1..]);
      var ex, ey := EraseItems(xs), EraseItems(ys);
      assert ex[0] == Entry(xs[0].key, Erase(xs[0].value)) && ex[1..] == EraseItems(xs[1..]);
      assert ey[0] == Entry(ys[0].key, Erase(ys[0].value)) && ey[1..] == EraseItems(ys[1..]);
      assert ex == ey <==> ex[0] == ey[0] && ex[1..] == ey[1..] by {
        assert ex == [ex[0]] + ex[1..] && ey == [ey[0]] + ey[1..];
      }
    }
  }

  lemma {:induction false} LessErased(a: Value, b: Value)
    ensures Less(a, b) == Less(Erase(a), Erase(b))
    decreases Nodes(a) + Nodes(b), 0
  {
    if a.payload.Container() && a.payload.Tag() == b.payload.Tag() {
      MapLessErased(a.payload.items, b.payload.items);
    }
  }

  lemma {:induction false} MapLessErased(xs: seq<Entry>, ys: seq<Entry>)
    ensures MapLess(xs, ys) == MapLess(EraseItems(xs), EraseItems(ys))
    decreases NodesOf(xs) + NodesOf(ys), 2
  {
    if xs != [] && ys != [] {
      LessErased(xs[0].value, ys[0].value);
      LessErased(ys[0].value, xs[0].value);
      MapLessErased(xs[1..], ys[1..]);
      var ex, ey := EraseItems(xs), EraseItems(ys);
      assert ex[0] == Entry(xs[0].key, Erase(xs[0].value)) && ex[1..] == EraseItems(xs[1..]);
      assert ey[0] == Entry(ys[0].key, Erase(ys[0].value)) && ey[1..] == EraseItems(ys[1..]);
    }
  }

  /** Equal trees compare alike against every third tree. */
  lemma LessRespectsEqual(a: Value, b: Value, c: Value)
    requires Equal(a, b)
    ensures Less(a, c) == Less(b, c) && Less(c, a) == Less(c, b)
  {
    EqualIffErased(a, b);
    LessErased(a, c); LessErased(b, c);
    LessErased(c, a); LessErased(c, b);
  }

  /** Trees a < b < c of which c or an equal does not come after a. It takes three
      containers, at the first difference, whose truncated size differences add up to
      more than 2^31 (sizes that come full circle leave it to the entries). */
  predicate Circle(a: Value, b: Value, c: Value)
    decreases Nodes(a) + Nodes(b) + Nodes(c), 0
  {
    a.payload.Container() && a.payload.Tag() == b.payload.Tag() == c.payload.Tag()
    && CircleItems(a.payload.items, b.payload.items, c.payload.items)
  }

  predicate CircleItems(xs: seq<Entry>, ys: seq<Entry>, zs: seq<Entry>)
    decreases NodesOf(xs) + NodesOf(ys) + NodesOf(zs), 3
  {
    var d := -SizeDelta(|xs|, |ys|) - SizeDelta(|ys|, |zs|);
    if d == 0 then CircleWithin(xs, ys, zs)
    else d > TWO_31 && (d == TWO_32 ==> !MapLess(xs, zs))
  }

  predicate CircleWithin(xs: seq<Entry>, ys: seq<Entry>, zs: seq<Entry>)
    decreases NodesOf(xs) + NodesOf(ys) + NodesOf(zs), 2
  {
    xs != [] && ys != [] && zs != [] && xs[0].key == ys[0].key == zs[0].key &&
    if Equal(xs[0].value, ys[0].value) && Equal(ys[0].value, zs[0].value) then CircleWithin(xs[1..], ys[1..], zs[1..])
    else
      && Less(xs[0].value, ys[0].value) && Less(ys[0].value, zs[0].value) && Circle(xs[0].value, ys[0].value, zs[0].value)
      && (Less(zs[0].value, xs[0].value) || !MapLess(xs[1..], zs[1..]))
  }

  /** For all trees, a < b < c gives a < c exactly when the sizes do not go round. */
  lemma {:induction false} TransitiveIff(a: Value, b: Value, c: Value)
    requires Less(a, b) && Less(b, c)
    ensures Less(a, c) <==> !Circle(a, b, c)
    decreases Nodes(a) + Nodes(b) + Nodes(c), 0
  {
    if a.payload.Tag() == b.payload.Tag() == c.payload.Tag() {
      if a.payload.Str? {
        LexTransitive(a.payload.text, b.payload.text, c.payload.text);
      } else if a.payload.Container() {
        ItemsTransitiveIff(a.payload.items, b.payload.items, c.payload.items);
      }
    }
  }

  lemma {:induction false} ItemsTransitiveIff(xs: seq<Entry>, ys: seq<Entry>, zs: seq<Entry>)
    requires ItemsLess(xs, ys) && ItemsLess(ys, zs)
    ensures ItemsLess(xs, zs) <==> !CircleItems(xs, ys, zs)
    decreases NodesOf(xs) + NodesOf(ys) + NodesOf(zs), 3
  {
    DeltasAdd(|xs|, |ys|, |zs|);
    if SizeDelta(|xs|, |ys|) == 0 && SizeDelta(|ys|, |zs|) == 0 { MapTransitiveIff(xs, ys, zs); }
  }

  /** Truncated differences that are not positive add up modulo 2^32. */
  lemma DeltasAdd(a: nat, b: nat, c: nat)
    requires SizeDelta(a, b) <= 0 && SizeDelta(b, c) <= 0
    ensures var d := -SizeDelta(a, b) - SizeDelta(b, c);
            SizeDelta(a, c) == if d <= TWO_31 then -d else TWO_32 - d
  {
    var p, q := (a - b) / TWO_32, (b - c) / TWO_32;
    var u, v := (a - b) % TWO_32, (b - c) % TWO_32;
    assert a - c == TWO_32 * (p + q) + (u + v);
    assert (a - c) % TWO_32 == if u + v < TWO_32 then u + v else u + v - TWO_32;
  }

  lemma {:induction false} MapTransitiveIff(xs: seq<Entry>, ys: seq<Entry>, zs: seq<Entry>)
    requires MapLess(xs, ys) && MapLess(ys, zs)
    ensures MapLess(xs, zs) <==> !CircleWithin(xs, ys, zs)
    decreases NodesOf(xs) + NodesOf(ys) + NodesOf(zs), 2
  {
    if xs != [] {
      var x, y, z := xs[0], ys[0], zs[0];
      PairOrder(x, y, z);
      PairOrder(x, z, y);
      PairOrder(y, z, x);
      KeyTrichotomy(x.key, z.key);
      if !PairLess(x, y) && !PairLess(y, z) {
        MapTransitiveIff(xs[1..], ys[1..], zs[1..]);
      } else if PairLess(x, y) && PairLess(y, z) {
        if KeyLess(x.key, y.key) && KeyLess(y.key, z.key) {
          KeyTransitive(x.key, y.key, z.key);
        } else if x.key == y.key == z.key {
          OrderIff(x.value, z.value);
          TransitiveIff(x.value, y.value, z.value);
        }
      }
    }
  }

  /** Pairs neither of which is below the other agree on key and value, so they
      compare alike against a third. */
  lemma PairOrder(x: Entry, y: Entry, z: Entry)
    ensures PairLess(x, y) <==> KeyLess(x.key, y.key) || (x.key == y.key && Less(x.value, y.value))
    ensures !PairLess(x, y) && !PairLess(y, x) <==> x.key == y.key && Equal(x.value, y.value)
    ensures x.key == y.key && Equal(x.value, y.value) ==>
              PairLess(x, z) == PairLess(y, z) && PairLess(z, x) == PairLess(z, y)
  {
    KeyTrichotomy(x.key, y.key);
    OrderIff(x.value, y.value);
    if x.key == y.key && Equal(x.value, y.value) {
      LessRespectsEqual(x.value, y.value, z.value);
    }
  }

  /** Below 2^31 entries per container sizes never go round. */
  lemma {:induction false} SmallNeverCircle(a: Value, b: Value, c: Value)
    requires Small(a) && Small(b) && Small(c)
    ensures !Circle(a, b, c)
    decreases Nodes(a) + Nodes(b) + Nodes(c), 0
  {
    if a.payload.Container() && a.payload.Tag() == b.payload.Tag() == c.payload.Tag() {
      SmallNeverCircleWithin(a.payload.items, b.payload.items, c.payload.items);
    }
  }

  lemma {:induction false} SmallNeverCircleWithin(xs: seq<Entry>, ys: seq<Entry>, zs: seq<Entry>)
    requires AllSmall(xs) && AllSmall(ys) && AllSmall(zs)
    ensures !CircleWithin(xs, ys, zs)
    decreases NodesOf(xs) + NodesOf(ys) + NodesOf(zs), 2
  {
    if xs != [] && ys != [] && zs != [] {
      SmallNeverCircle(xs[0].value, ys[0].value, zs[0].value);
      SmallNeverCircleWithin(xs[1..], ys[1..], zs[1..]);
    }
  }

  lemma OrderTransitive(a: Value, b: Value, c: Value)
    requires Small(a) && Small(b) && Small(c)
    requires Less(a, b) && Less(b, c)
    ensures Less(a, c)
  {
    TransitiveIff(a, b, c);
    SmallNeverCircle(a, b, c);
  }

  /** An array with every slot null. */
  function Nulls(n: nat): (v: Value)
    ensures v.payload.Array? && |v.payload.items| == n
  {
    Value(Array(seq(n, i requires 0 <= i < n => Entry(Index(i), NULL_VALUE))), 0, 0)
  }

  /** An array of 2^31 slots is less than the empty array and the other way round. */
  lemma HugeArrayBothWays()
    ensures Less(Nulls(TWO_31), Nulls(0)) && Less(Nulls(0), Nulls(TWO_31))
  {
    assert SizeDelta(TWO_31, 0) < 0 && SizeDelta(0, TWO_31) < 0;
    hide Nulls;
  }

  /** Arrays of no, 2^30 and 2^31 + 1 slots each come before the next, all the way round. */
  lemma ThreeArraysGoRound()
    ensures Less(Nulls(0), Nulls(0x4000_0000)) && Less(Nulls(0x4000_0000), Nulls(TWO_31 + 1))
    ensures Less(Nulls(TWO_31 + 1), Nulls(0))
  {
    assert SizeDelta(0, 0x4000_0000) < 0 && SizeDelta(0x4000_0000, TWO_31 + 1) < 0 && SizeDelta(TWO_31 + 1, 0) < 0;
    hide Nulls;
  }

  lemma DeltaNegates(a: nat, b: nat)
    ensures (a - b) % TWO_32 != TWO_31 ==> SizeDelta(b, a) == -SizeDelta(a, b)
    ensures (a - b) % TWO_32 == TWO_31 ==> SizeDelta(b, a) == SizeDelta(a, b) == -TWO_31
  {
    var q, d := (a - b) / TWO_32, (a - b) % TWO_32;
    assert b - a == TWO_32 * (-q - 1) + (TWO_32 - d);
    if d == 0 {
      assert (b - a) % TWO_32 == 0;
    } else {
      assert (b - a) % TWO_32 == TWO_32 - d;
    }
  }

  // ---------------------------------------------------------------- shape

  /** What every Value holds: integers in range, texts and keys within their
      length fields, and one ordered, duplicate-free map per container. */
  predicate WellFormed(v: Value)
    decreases v, 1
  {
    match v.payload
    case Int(i) => -TWO_63 <= i < TWO_63
    case UInt(u) => u < TWO_64
    case Str(s) => |s| <= TEXT_LIMIT
    case Array(items) =>
      Sorted(items) && AllWellFormed(items) &&
      forall e :: e in items ==> e.key.Index? && e.key.index < INDEX_LIMIT
    case Object(items) =>
      Sorted(items) && AllWellFormed(items) &&
      forall e :: e in items ==> e.key.Name? && |e.key.text| < KEY_LIMIT
    case _ => true
  }

  predicate AllWellFormed(items: seq<Entry>)
    decreases items, 0
  {
    items == [] || (assert items decreases to items[0]; WellFormed(items[0].value) && AllWellFormed(items[1..]))
  }
}
