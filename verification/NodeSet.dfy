/** TinyXPath's node sets: the comparison of two nodes in document order (section 5 of
    XPath 1.0), the walk over the descendants of a node, and the duplicate-free array
    that the nodes are added to. */
module NodeSet {
  import DomShapes
  import opened Options
  import opened Rings

  /** A node of the document with its address; attributes are addresses only. */
  datatype Tree = Tree(id: nat, kind: DomShapes.Kind, name: string, attributes: seq<nat>, children: seq<Tree>)

  // ------------------------------------------------------- document order

  function Attributes(t: Tree): seq<nat> { if t.kind.Element? then t.attributes else [] }

  /** The nodes in preorder, attributes between an element and its children. */
  function Preorder(t: Tree): (p: seq<nat>)
    ensures p != []
  {
    [t.id] + (Attributes(t) + PreorderAll(t.children))
  }

  function PreorderAll(ts: seq<Tree>): seq<nat> {
    if ts == [] then [] else Preorder(ts[0]) + PreorderAll(ts[1..])
  }

  /** The first place of a node in a list, or the length. */
  function Index(p: seq<nat>, x: nat): (i: nat)
    ensures i <= |p| && (i < |p| ==> p[i] == x) && (i < |p| <==> x in p)
    ensures forall j :: 0 <= j < i ==> p[j] != x
  {
    if p == [] || p[0] == x then 0 else 1 + Index(p[1..], x)
  }

  datatype Order = NotFound | Lower | Higher | Same

  /** Whichever node comes first; a node that is missing comes after all others. */
  function ByPosition(p: seq<nat>, a: nat, b: nat): Order {
    var i, j := Index(p, a), Index(p, b);
    if i < j then Lower else if j < i then Higher else if i < |p| then Same else NotFound
  }

  /** A list decides before what follows it. */
  lemma PositionConcat(p: seq<nat>, q: seq<nat>, a: nat, b: nat)
    ensures ByPosition(p + q, a, b) == if ByPosition(p, a, b) != NotFound then ByPosition(p, a, b) else ByPosition(q, a, b)
  {
    IndexConcat(p, q, a);
    IndexConcat(p, q, b);
  }

  lemma {:induction false} IndexConcat(p: seq<nat>, q: seq<nat>, x: nat)
    ensures Index(p + q, x) == if x in p then Index(p, x) else |p| + Index(q, x)
  {
    if p == [] {
      assert p + q == q;
    } else {
      assert (p + q)[1..] == p[1..] + q;
      IndexConcat(p[1..], q, x);
    }
  }

  /** i_compare_node_in_tree: for all nodes, in the tree or not, the answer is the one
      of their first positions in preorder. */
  method CompareNodeInTree(root: Option<Tree>, a: Option<nat>, b: Option<nat>) returns (r: Order)
    ensures r == if root.None? || a.None? || b.None? then NotFound else ByPosition(Preorder(root.value), a.value, b.value)
  {
    if root.None? || a.None? || b.None? { return NotFound; }
    r := CompareBelow(root.value, a.value, b.value);
  }

  method CompareBelow(t: Tree, a: nat, b: nat) returns (r: Order)
    ensures r == ByPosition(Preorder(t), a, b)
    decreases t
  {
    hide Index;
    PositionConcat([t.id], Attributes(t) + PreorderAll(t.children), a, b);
    PositionOne(t.id, a, b);
    r := CompareOne(t.id, a, b);
    if r != NotFound { return; }
    PositionConcat(Attributes(t), PreorderAll(t.children), a, b);
    if t.kind.Element? {
      r := CompareAttributes(t.attributes, a, b);
      if r != NotFound { return; }
    }
    assert !t.kind.Element? ==> ByPosition(Attributes(t), a, b) == NotFound by { PositionNone(a, b); }
    var i := 0;
    assert t.children[0..] == t.children;
    while i < |t.children|
      invariant 0 <= i <= |t.children|
      invariant ByPosition(Preorder(t), a, b) == ByPosition(PreorderAll(t.children[i..]), a, b)
    {
      assert t.children[i..][1..] == t.children[i + 1..];
      PositionConcat(Preorder(t.children[i]), PreorderAll(t.children[i + 1..]), a, b);
      r := CompareBelow(t.children[i], a, b);
      if r != NotFound { return; }
      i := i + 1;
    }
    PositionNone(a, b);
    r := NotFound;
  }

  function CompareOne(x: nat, a: nat, b: nat): Order {
    if x == a then if x == b then Same else Lower
    else if x == b then Higher else NotFound
  }

  lemma PositionOne(x: nat, a: nat, b: nat)
    ensures ByPosition([x], a, b) == CompareOne(x, a, b)
  {
  }

  lemma PositionNone(a: nat, b: nat)
    ensures ByPosition([], a, b) == NotFound
  {
  }

  /** The loop over the attributes. */
  method CompareAttributes(xs: seq<nat>, a: nat, b: nat) returns (r: Order)
    ensures r == ByPosition(xs, a, b)
  {
    hide Index, ByPosition;
    var i := 0;
    assert xs[0..] == xs;
    while i < |xs|
      invariant 0 <= i <= |xs| && ByPosition(xs, a, b) == ByPosition(xs[i..], a, b)
    {
      assert xs[i..] == [xs[i]] + xs[i + 1..];
      PositionConcat([xs[i]], xs[i + 1..], a, b);
      PositionOne(xs[i], a, b);
      r := CompareOne(xs[i], a, b);
      if r != NotFound { return; }
      i := i + 1;
    }
    assert xs[i..] == [];
    PositionNone(a, b);
    r := NotFound;
  }

  // ------------------------------------------------------------ as paths

  /** A way down from a node to one of its attributes or children. */
  datatype Turn = Attr(i: nat) | Child(i: nat)

  function NodeAt(t: Tree, path: seq<Turn>): Option<nat>
    decreases |path|
  {
    if path == [] then Some(t.id)
    else match path[0]
         case Attr(i) => if t.kind.Element? && i < |t.attributes| && |path| == 1 then Some(t.attributes[i]) else None
         case Child(i) => if i < |t.children| then NodeAt(t.children[i], path[1..]) else None
  }

  /** Document order on paths: a node before what is below it, the attributes of an
      element before its children, siblings from left to right. */
  predicate PathLess(p: seq<Turn>, q: seq<Turn>)
    decreases |p|
  {
    q != [] && (p == [] || if p[0] == q[0] then PathLess(p[1..], q[1..]) else TurnLess(p[0], q[0]))
  }

  predicate TurnLess(s: Turn, t: Turn) {
    match s
    case Attr(i) => t.Child? || i < t.i
    case Child(i) => t.Child? && i < t.i
  }

  lemma {:induction false} PathTotal(p: seq<Turn>, q: seq<Turn>)
    ensures PathLess(p, q) || p == q || PathLess(q, p)
    decreases |p|
  {
    if p != [] && q != [] && p[0] == q[0] {
      PathTotal(p[1..], q[1..]);
      assert p == [p[0]] + p[1..] && q == [q[0]] + q[1..];
    }
  }

  /** Where a path ends in preorder. */
  function Offset(t: Tree, path: seq<Turn>): nat
    requires NodeAt(t, path).Some?
    decreases |path|
  {
    if path == [] then 0
    else match path[0]
         case Attr(i) => 1 + i
         case Child(i) => 1 + |Attributes(t)| + |PreorderAll(t.children[..i])| + Offset(t.children[i], path[1..])
  }

  lemma {:induction false} PreorderSplit(ts: seq<Tree>, i: nat)
    requires i < |ts|
    ensures PreorderAll(ts) == PreorderAll(ts[..i]) + (Preorder(ts[i]) + PreorderAll(ts[i + 1..]))
  {
    if i > 0 {
      PreorderSplit(ts[1..], i - 1);
      assert ts[1..][..i - 1] == ts[..i][1..] && ts[1..][i..] == ts[i + 1..];
      hide Preorder;
      assert PreorderAll(ts[..i]) == Preorder(ts[0]) + PreorderAll(ts[..i][1..]);
    } else {
      assert PreorderAll(ts[..0]) == [];
    }
  }

  lemma {:induction false} OffsetAt(t: Tree, path: seq<Turn>)
    requires NodeAt(t, path).Some?
    ensures Offset(t, path) < |Preorder(t)| && Preorder(t)[Offset(t, path)] == NodeAt(t, path).value
    decreases |path|
  {
    if path != [] {
      if path[0].Child? {
        var i := path[0].i;
        OffsetAt(t.children[i], path[1..]);
        PreorderSplit(t.children, i);
        hide Preorder, PreorderAll;
        BelowChild(t, i, Offset(t.children[i], path[1..]));
      } else {
        hide PreorderAll;
      }
    }
  }

  /** A node below the i-th child. */
  lemma BelowChild(t: Tree, i: nat, k: nat)
    requires i < |t.children| && k < |Preorder(t.children[i])|
    requires PreorderAll(t.children) == PreorderAll(t.children[..i]) + (Preorder(t.children[i]) + PreorderAll(t.children[i + 1..]))
    ensures var at := 1 + |Attributes(t)| + |PreorderAll(t.children[..i])| + k;
            at < |Preorder(t)| && Preorder(t)[at] == Preorder(t.children[i])[k]
  {
    hide PreorderAll;
    var p, q, r := PreorderAll(t.children[..i]), Preorder(t.children[i]), PreorderAll(t.children[i + 1..]);
    assert Preorder(t) == [t.id] + (Attributes(t) + (p + (q + r)));
    hide Preorder, Attributes;
    InTheMiddle([t.id], Attributes(t), p, q, r, k);
  }

  lemma InTheMiddle(a: seq<nat>, b: seq<nat>, c: seq<nat>, d: seq<nat>, e: seq<nat>, k: nat)
    requires k < |d|
    ensures var s := a + (b + (c + (d + e))); var at := |a| + |b| + |c| + k; at < |s| && s[at] == d[k]
  {
  }

  /** Preorder lists the nodes in document order. */
  lemma {:induction false} OffsetMonotone(t: Tree, p: seq<Turn>, q: seq<Turn>)
    requires NodeAt(t, p).Some? && NodeAt(t, q).Some? && PathLess(p, q)
    ensures Offset(t, p) < Offset(t, q)
    decreases |p|
  {
    if p != [] {
      if p[0] == q[0] {
        if p[0].Child? { OffsetMonotone(t.children[p[0].i], p[1..], q[1..]); }
      } else if p[0].Child? {
        var i, j := p[0].i, q[0].i;
        OffsetAt(t.children[i], p[1..]);
        PreorderSplit(t.children[..j], i);
        assert t.children[..j][..i] == t.children[..i];
        hide PreorderAll;
      }
    }
  }

  lemma IndexUnique(p: seq<nat>, k: nat)
    requires Distinct(p) && k < |p|
    ensures Index(p, p[k]) == k
  {
  }

  /** For two nodes of a document the comparison answers lower, same or higher exactly
      as the first comes before, is, or comes after the second in document order. */
  lemma DocumentOrder(t: Tree, p: seq<Turn>, q: seq<Turn>)
    requires Distinct(Preorder(t)) && NodeAt(t, p).Some? && NodeAt(t, q).Some?
    ensures var r := ByPosition(Preorder(t), NodeAt(t, p).value, NodeAt(t, q).value);
            && (r == Lower <==> PathLess(p, q))
            && (r == Same <==> p == q)
            && (r == Higher <==> PathLess(q, p))
  {
    hide Preorder, Index, PathLess, NodeAt, Offset;
    OffsetAt(t, p);
    OffsetAt(t, q);
    IndexUnique(Preorder(t), Offset(t, p));
    IndexUnique(Preorder(t), Offset(t, q));
    PathTotal(p, q);
    if PathLess(p, q) { OffsetMonotone(t, p, q); }
    if PathLess(q, p) { OffsetMonotone(t, q, p); }
  }

  // --------------------------------------------------------- descendants

  /** The name test: no name, or the name of the element. */
  predicate Matches(t: Tree, lookup: Option<string>) { lookup.None? || t.name == lookup.value }

  /** The matching elements below a node, as the walk meets them. */
  function Descendants(t: Tree, lookup: Option<string>): seq<nat>
    decreases t, 0
  {
    DescendantsAmong(t.children, lookup)
  }

  function DescendantsAmong(ts: seq<Tree>, lookup: Option<string>): seq<nat>
    decreases ts, 0
  {
    if ts == [] then [] else FromElement(ts[0], lookup) + DescendantsAmong(ts[1..], lookup)
  }

  function FromElement(t: Tree, lookup: Option<string>): seq<nat>
    decreases t, 1
  {
    if !t.kind.Element? then []
    else (if Matches(t, lookup) then [t.id] else []) + Descendants(t, lookup)
  }

  /** The node at the end of a way through element children. */
  function ElementAt(t: Tree, path: seq<nat>): Option<Tree>
    decreases |path|
  {
    if path == [] then Some(t)
    else if path[0] < |t.children| && t.children[path[0]].kind.Element? then ElementAt(t.children[path[0]], path[1..])
    else None
  }

  ghost predicate IsDescendant(t: Tree, lookup: Option<string>, x: nat) {
    exists path: seq<nat> ::
      && path != [] && ElementAt(t, path).Some? && ElementAt(t, path).value.id == x
      && (lookup.Some? ==> ElementAt(t, path).value.name == lookup.value)
  }

  /** The walk finds the matching descendant elements and nothing else. */
  lemma DescendantsExact(t: Tree, lookup: Option<string>, x: nat)
    ensures x in Descendants(t, lookup) <==> IsDescendant(t, lookup, x)
  {
    if x in Descendants(t, lookup) {
      var path := Witness(t, lookup, x);
    }
    if IsDescendant(t, lookup, x) {
      var path: seq<nat> :| path != [] && ElementAt(t, path).Some? && Matches(ElementAt(t, path).value, lookup)
                            && ElementAt(t, path).value.id == x;
      Visited(t, lookup, path);
    }
  }

  ghost function Witness(t: Tree, lookup: Option<string>, x: nat): (path: seq<nat>)
    requires x in Descendants(t, lookup)
    ensures path != [] && ElementAt(t, path).Some? && Matches(ElementAt(t, path).value, lookup)
    ensures ElementAt(t, path).value.id == x
  {
    var i := Branch(t.children, lookup, x);
    var c := t.children[i];
    if Matches(c, lookup) && c.id == x then
      assert ElementAt(t, [i]) == ElementAt(c, []);
      [i]
    else
      var rest := Witness(c, lookup, x);
      assert ([i] + rest)[1..] == rest;
      [i] + rest
  }

  ghost function Branch(ts: seq<Tree>, lookup: Option<string>, x: nat): (i: nat)
    requires x in DescendantsAmong(ts, lookup)
    ensures i < |ts| && x in FromElement(ts[i], lookup)
  {
    if x in FromElement(ts[0], lookup) then 0 else 1 + Branch(ts[1..], lookup, x)
  }

  lemma {:induction false} Visited(t: Tree, lookup: Option<string>, path: seq<nat>)
    requires path != [] && ElementAt(t, path).Some? && Matches(ElementAt(t, path).value, lookup)
    ensures ElementAt(t, path).value.id in Descendants(t, lookup)
    decreases |path|
  {
    var c := t.children[path[0]];
    if |path| > 1 { Visited(c, lookup, path[1..]); }
    Among(t.children, lookup, path[0], ElementAt(t, path).value.id);
  }

  lemma {:induction false} Among(ts: seq<Tree>, lookup: Option<string>, i: nat, x: nat)
    requires i < |ts| && x in FromElement(ts[i], lookup)
    ensures x in DescendantsAmong(ts, lookup)
  {
    if i > 0 { Among(ts[1..], lookup, i - 1, x); }
  }

  /** d keeps the order of p. */
  ghost predicate Within(d: seq<nat>, p: seq<nat>) {
    d == [] || (p != [] && ((d[0] == p[0] && Within(d[1..], p[1..])) || Within(d, p[1..])))
  }

  lemma {:induction false} WithinConcat(a: seq<nat>, b: seq<nat>, p: seq<nat>, q: seq<nat>)
    requires Within(a, p) && Within(b, q)
    ensures Within(a + b, p + q)
    decreases |p|
  {
    if p == [] {
      assert a + b == b && p + q == q;
    } else {
      assert (p + q)[1..] == p[1..] + q;
      if a == [] {
        WithinConcat(a, b, p[1..], q);
        assert a + b == b;
      } else if a[0] == p[0] && Within(a[1..], p[1..]) {
        WithinConcat(a[1..], b, p[1..], q);
        assert (a + b)[1..] == a[1..] + b;
      } else {
        WithinConcat(a, b, p[1..], q);
      }
    }
  }

  lemma {:induction false} WithinSkips(d: seq<nat>, pre: seq<nat>, p: seq<nat>)
    requires Within(d, p)
    ensures Within(d, pre + p)
  {
    WithinConcat([], d, pre, p);
    assert [] + d == d;
  }

  /** The walk goes in preorder. */
  lemma {:induction false} DescendantsWithin(t: Tree, lookup: Option<string>)
    ensures Within(Descendants(t, lookup), PreorderAll(t.children))
    decreases t, 1
  {
    AmongWithin(t.children, lookup);
  }

  lemma {:induction false} AmongWithin(ts: seq<Tree>, lookup: Option<string>)
    ensures Within(DescendantsAmong(ts, lookup), PreorderAll(ts))
    decreases ts, 0
  {
    hide Within, Preorder;
    if ts == [] {
      WithinNothing([]);
    } else {
      AmongWithin(ts[1..], lookup);
      ElementWithin(ts[0], lookup);
      WithinConcat(FromElement(ts[0], lookup), DescendantsAmong(ts[1..], lookup), Preorder(ts[0]), PreorderAll(ts[1..]));
    }
  }

  lemma {:induction false} ElementWithin(t: Tree, lookup: Option<string>)
    ensures Within(FromElement(t, lookup), Preorder(t))
    decreases t, 2
  {
    DescendantsWithin(t, lookup);
    hide Within, Descendants, PreorderAll;
    WithinSkips(Descendants(t, lookup), Attributes(t), PreorderAll(t.children));
    var own := if Matches(t, lookup) then [t.id] else [];
    OneWithin(own, t.id);
    WithinConcat(own, Descendants(t, lookup), [t.id], Attributes(t) + PreorderAll(t.children));
    WithinNothing(Preorder(t));
  }

  lemma WithinNothing(p: seq<nat>)
    ensures Within([], p)
  {
  }

  lemma OneWithin(d: seq<nat>, x: nat)
    requires d == [] || d == [x]
    ensures Within(d, [x])
  {
  }

  lemma {:induction false} WithinOrdered(d: seq<nat>, p: seq<nat>)
    requires Within(d, p) && Distinct(p)
    ensures Distinct(d)
    ensures forall i :: 0 <= i < |d| ==> d[i] in p
    ensures forall i, j :: 0 <= i < j < |d| ==> Index(p, d[i]) < Index(p, d[j])
    decreases |p|
  {
    if d != [] {
      var rest := p[1..];
      var e := if d[0] == p[0] && Within(d[1..], rest) then d[1..] else d;
      assert Distinct(rest);
      WithinOrdered(e, rest);
      assert p[0] !in rest;
      forall x | x in rest ensures Index(p, x) == 1 + Index(rest, x) { assert x != p[0]; }
      if e != d { OrderedBefore(d, p); }
    }
  }

  lemma OrderedBefore(d: seq<nat>, p: seq<nat>)
    requires d != [] && p != [] && d[0] == p[0] && p[0] !in p[1..] && Distinct(d[1..])
    requires forall i :: 0 <= i < |d[1..]| ==> d[1..][i] in p[1..]
    requires forall i, j :: 0 <= i < j < |d[1..]| ==> Index(p[1..], d[1..][i]) < Index(p[1..], d[1..][j])
    ensures Distinct(d) && (forall i :: 0 <= i < |d| ==> d[i] in p)
    ensures forall i, j :: 0 <= i < j < |d| ==> Index(p, d[i]) < Index(p, d[j])
  {
    forall i, j | 0 <= i < j < |d| ensures Index(p, d[i]) < Index(p, d[j]) && d[i] != d[j] {
      assert d[j] == d[1..][j - 1] && d[1..][j - 1] in p[1..];
      if i > 0 { assert d[i] == d[1..][i - 1] && d[1..][i - 1] in p[1..]; }
    }
    forall i | 0 <= i < |d| ensures d[i] in p {
      if i > 0 { assert d[i] == d[1..][i - 1] && d[1..][i - 1] in p[1..]; }
    }
  }

  /** The descendants come without repetition and in document order. */
  lemma DescendantsOrdered(t: Tree, lookup: Option<string>)
    requires Distinct(Preorder(t))
    ensures var d := Descendants(t, lookup);
            && Distinct(d) && (forall i :: 0 <= i < |d| ==> d[i] in Preorder(t))
            && (forall i, j :: 0 <= i < j < |d| ==> ByPosition(Preorder(t), d[i], d[j]) == Lower)
  {
    hide Descendants, PreorderAll, Index;
    DescendantsWithin(t, lookup);
    WithinSkips(Descendants(t, lookup), [t.id] + Attributes(t), PreorderAll(t.children));
    assert Preorder(t) == [t.id] + Attributes(t) + PreorderAll(t.children);
    WithinOrdered(Descendants(t, lookup), Preorder(t));
  }

  // ------------------------------------------------------------- the set

  /** A list after nodes are added that it does not hold yet. */
  function AddAll(members: seq<nat>, ids: seq<nat>): seq<nat>
    decreases |ids|
  {
    if ids == [] then members else AddAll(AddOne(members, ids[0]), ids[1..])
  }

  function AddOne(members: seq<nat>, id: nat): seq<nat> {
    if id in members then members else members + [id]
  }

  lemma {:induction false} AddAllConcat(members: seq<nat>, a: seq<nat>, b: seq<nat>)
    ensures AddAll(members, a + b) == AddAll(AddAll(members, a), b)
    decreases |a|
  {
    if a == [] {
      assert a + b == b;
    } else {
      assert (a + b)[1..] == a[1..] + b;
      AddAllConcat(AddOne(members, a[0]), a[1..], b);
    }
  }

  /** Adding keeps a set without duplicates that holds what it held and what was added. */
  lemma {:induction false} AddAllIsUnion(members: seq<nat>, ids: seq<nat>)
    requires Distinct(members)
    ensures Distinct(AddAll(members, ids))
    ensures forall x :: x in AddAll(members, ids) <==> x in members || x in ids
    decreases |ids|
  {
    if ids != [] {
      AddAllIsUnion(AddOne(members, ids[0]), ids[1..]);
    }
  }

  /** Nodes that are new and different are appended as they come. */
  lemma {:induction false} AddAllAppends(members: seq<nat>, ids: seq<nat>)
    requires Distinct(ids) && forall i :: 0 <= i < |ids| ==> ids[i] !in members
    ensures AddAll(members, ids) == members + ids
    decreases |ids|
  {
    if ids != [] {
      AddAllAppends(members + [ids[0]], ids[1..]);
      assert members + [ids[0]] + ids[1..] == members + ids;
    }
  }

  class NodeSet {
    var count: nat
    var nodes: array<nat>
    var attrib: array<bool>

    ghost predicate Valid()
      reads this, nodes
    {
      count == nodes.Length == attrib.Length && Distinct(nodes[..])
    }

    ghost function Members(): seq<nat> reads this, nodes { nodes[..] }
    ghost function Flags(): seq<bool> reads this, attrib { attrib[..] }

    constructor ()
      ensures Valid() && Members() == [] && Flags() == [] && fresh(nodes) && fresh(attrib)
    {
      count, nodes, attrib := 0, new nat[0], new bool[0];
    }

    /** o_exist_in_set */
    method Exists(member: nat) returns (found: bool)
      requires Valid()
      ensures found <==> member in Members()
    {
      var i := 0;
      while i < count
        invariant 0 <= i <= count && forall j :: 0 <= j < i ==> nodes[j] != member
      {
        if nodes[i] == member { return true; }
        i := i + 1;
      }
      return false;
    }

    /** v_add_base_in_set */
    method AddBase(member: nat, isAttribute: bool)
      requires Valid()
      modifies this
      ensures Valid() && Members() == AddOne(old(Members()), member)
      ensures Flags() == if member in old(Members()) then old(Flags()) else old(Flags()) + [isAttribute]
      ensures (nodes == old(nodes) && attrib == old(attrib)) || (fresh(nodes) && fresh(attrib))
    {
      var known := Exists(member);
      if known { return; }
      var newNodes := new nat[count + 1];
      var newAttrib := new bool[count + 1];
      forall i | 0 <= i < count { newNodes[i] := nodes[i]; }
      forall i | 0 <= i < count { newAttrib[i] := attrib[i]; }
      newNodes[count] := member;
      newAttrib[count] := isAttribute;
      assert newNodes[..] == nodes[..] + [member];
      assert newAttrib[..] == attrib[..] + [isAttribute];
      AppendDistinct(nodes[..], member);
      nodes, attrib := newNodes, newAttrib;
      count := count + 1;
    }

    /** v_copy_selected_node_recursive_no_attrib */
    method CopySelected(root: Tree, lookup: Option<string>)
      requires Valid()
      modifies this
      ensures Valid() && Members() == AddAll(old(Members()), Descendants(root, lookup))
      ensures OnlyNodesAdded(old(Flags()), Flags())
      decreases root, 1
    {
      hide AddAll, AddOne, Distinct, DescendantsAmong, FromElement;
      ghost var before := Members();
      var i := 0;
      assert root.children[0..] == root.children;
      while i < |root.children|
        invariant Valid() && 0 <= i <= |root.children| && OnlyNodesAdded(old(Flags()), Flags())
        invariant AddAll(Members(), DescendantsAmong(root.children[i..], lookup)) == AddAll(before, Descendants(root, lookup))
      {
        AddStep(Members(), root.children, i, lookup);
        CopyChild(root, i, lookup);
        i := i + 1;
      }
      AddDone(Members(), root.children, lookup);
    }

    /** One turn of the loop. */
    method CopyChild(root: Tree, i: nat, lookup: Option<string>)
      requires Valid() && i < |root.children|
      modifies this
      ensures Valid() && Members() == AddAll(old(Members()), FromElement(root.children[i], lookup))
      ensures OnlyNodesAdded(old(Flags()), Flags())
      decreases root, 0
    {
      hide AddAll, AddOne, Distinct, Descendants;
      var child := root.children[i];
      AddElement(Members(), child, lookup);
      if child.kind.Element? {
        if lookup.None? || child.name == lookup.value {
          AddBase(child.id, false);
        }
        CopySelected(child, lookup);
      }
    }
  }

  lemma AddStep(members: seq<nat>, ts: seq<Tree>, i: nat, lookup: Option<string>)
    requires i < |ts|
    ensures AddAll(members, DescendantsAmong(ts[i..], lookup))
         == AddAll(AddAll(members, FromElement(ts[i], lookup)), DescendantsAmong(ts[i + 1..], lookup))
  {
    hide AddAll, FromElement;
    assert ts[i..][1..] == ts[i + 1..];
    AddAllConcat(members, FromElement(ts[i], lookup), DescendantsAmong(ts[i + 1..], lookup));
  }

  lemma AddDone(members: seq<nat>, ts: seq<Tree>, lookup: Option<string>)
    ensures AddAll(members, DescendantsAmong(ts[|ts|..], lookup)) == members
  {
  }

  lemma AddElement(members: seq<nat>, t: Tree, lookup: Option<string>)
    ensures AddAll(members, FromElement(t, lookup)) ==
              if !t.kind.Element? then members
              else AddAll(if Matches(t, lookup) then AddOne(members, t.id) else members, Descendants(t, lookup))
  {
    hide Descendants, AddOne;
    if t.kind.Element? {
      var own := if Matches(t, lookup) then [t.id] else [];
      AddAllConcat(members, own, Descendants(t, lookup));
      assert AddAll(members, []) == members;
      assert [t.id][1..] == [];
      assert AddAll(members, [t.id]) == AddAll(AddOne(members, t.id), []);
      assert AddAll(AddOne(members, t.id), []) == AddOne(members, t.id);
    }
  }

  /** The flags of nodes, not of attributes, were added at the end. */
  ghost predicate OnlyNodesAdded(before: seq<bool>, after: seq<bool>) {
    |before| <= |after| && after[..|before|] == before && forall i :: |before| <= i < |after| ==> !after[i]
  }

  /** The walk from a node adds to a set that holds none of the nodes below exactly the
      matching descendant elements, in document order. */
  lemma FreshWalkAppends(members: seq<nat>, t: Tree, lookup: Option<string>)
    requires Distinct(Preorder(t)) && forall i :: 0 <= i < |members| ==> members[i] !in Preorder(t)
    ensures AddAll(members, Descendants(t, lookup)) == members + Descendants(t, lookup)
  {
    hide Descendants, PreorderAll, AddAll;
    DescendantsOrdered(t, lookup);
    AddAllAppends(members, Descendants(t, lookup));
  }
}
