/** TinyXML's document tree: every node keeps its children on a doubly linked
    chain with parent pointers, edited in place; nodes to insert are cloned. */
module DomList {
  import opened AttributeMap
  import opened DomShapes
  import opened Graphs
  import opened Rings

  // ------------------------------------------------- chains as sequences

  /** `nexts` and `prevs` run along `nodes` in opposite directions, each ending
      in null: the two chains are mirror images. */
  ghost predicate Chain(nodes: seq<XmlNode?>, nexts: seq<XmlNode?>, prevs: seq<XmlNode?>) {
    && |nexts| == |prevs| == |nodes|
    && (forall i {:trigger nexts[i]} :: 0 <= i < |nodes| ==> nexts[i] == At(nodes, i + 1))
    && (forall i {:trigger prevs[i]} :: 0 <= i < |nodes| ==> prevs[i] == At(nodes, i - 1))
  }

  /** The node at an index, null outside. */
  function At(nodes: seq<XmlNode?>, i: int): XmlNode? {
    if 0 <= i < |nodes| then nodes[i] else null
  }

  /** A sequence with one more item before its k-th. */
  function Insert<T>(s: seq<T>, k: nat, x: T): seq<T>
    requires k <= |s|
  {
    s[..k] + [x] + s[k..]
  }

  /** Pointing the items around a gap at each other's side of it. */
  function Aim(s: seq<XmlNode?>, i: int, x: XmlNode?): seq<XmlNode?> {
    if 0 <= i < |s| then s[i := x] else s
  }

  lemma InsertAt<T>(s: seq<T>, k: nat, x: T)
    requires k <= |s|
    ensures |Insert(s, k, x)| == |s| + 1
    ensures forall i {:trigger Insert(s, k, x)[i]} :: 0 <= i <= |s| ==>
              Insert(s, k, x)[i] == if i < k then s[i] else if i == k then x else s[i - 1]
  {
  }

  lemma ChainInsert(nodes: seq<XmlNode?>, nexts: seq<XmlNode?>, prevs: seq<XmlNode?>, k: nat, x: XmlNode?)
    requires Chain(nodes, nexts, prevs) && k <= |nodes|
    ensures Chain(Insert(nodes, k, x), Insert(Aim(nexts, k - 1, x), k, At(nodes, k)),
                  Insert(Aim(prevs, k, x), k, At(nodes, k - 1)))
  {
    var ns, ps := Aim(nexts, k - 1, x), Aim(prevs, k, x);
    InsertAt(nodes, k, x);
    InsertAt(ns, k, At(nodes, k));
    InsertAt(ps, k, At(nodes, k - 1));
    hide Insert;
    var all, ns', ps' := Insert(nodes, k, x), Insert(ns, k, At(nodes, k)), Insert(ps, k, At(nodes, k - 1));
    forall i | 0 <= i <= |nodes| ensures ns'[i] == At(all, i + 1) && ps'[i] == At(all, i - 1) {
      if i < k {
        assert nexts[i] == At(nodes, i + 1) && prevs[i] == At(nodes, i - 1);
      } else if i > k {
        assert nexts[i - 1] == At(nodes, i) && prevs[i - 1] == At(nodes, i - 2);
      }
    }
  }

  lemma ChainWithout(nodes: seq<XmlNode?>, nexts: seq<XmlNode?>, prevs: seq<XmlNode?>, k: nat)
    requires Chain(nodes, nexts, prevs) && k < |nodes|
    ensures Chain(Without(nodes, k), Without(Aim(nexts, k - 1, At(nodes, k + 1)), k),
                  Without(Aim(prevs, k + 1, At(nodes, k - 1)), k))
  {
    var ns, ps := Aim(nexts, k - 1, At(nodes, k + 1)), Aim(prevs, k + 1, At(nodes, k - 1));
    WithoutAt(nodes, k);
    WithoutAt(ns, k);
    WithoutAt(ps, k);
    hide Without;
    var all, ns', ps' := Without(nodes, k), Without(ns, k), Without(ps, k);
    forall i | 0 <= i < |nodes| - 1 ensures ns'[i] == At(all, i + 1) && ps'[i] == At(all, i - 1) {
      var j := if i < k then i else i + 1;
      assert nexts[j] == At(nodes, j + 1) && prevs[j] == At(nodes, j - 1);
    }
  }

  lemma ChainReplace(nodes: seq<XmlNode?>, nexts: seq<XmlNode?>, prevs: seq<XmlNode?>, k: nat, x: XmlNode?)
    requires Chain(nodes, nexts, prevs) && k < |nodes|
    ensures Chain(nodes[k := x], Aim(nexts, k - 1, x), Aim(prevs, k + 1, x))
  {
  }

  lemma InsertDistinct<T>(s: seq<T>, k: nat, x: T)
    requires Distinct(s) && k <= |s| && x !in s
    ensures Distinct(Insert(s, k, x))
  {
  }

  // ------------------------------------------------------------ the nodes

  /** The child relation of a forest. */
  ghost function Kids(nodes: set<XmlNode>): (g: map<XmlNode, seq<XmlNode>>)
    reads nodes`children
  {
    map n | n in nodes :: n.children
  }

  ghost function Nexts(nodes: seq<XmlNode>): (ns: seq<XmlNode?>)
    reads nodes
    ensures |ns| == |nodes| && forall i {:trigger ns[i]} :: 0 <= i < |nodes| ==> ns[i] == nodes[i].next
  {
    seq(|nodes|, i requires 0 <= i < |nodes| reads nodes => nodes[i].next)
  }

  ghost function Prevs(nodes: seq<XmlNode>): (ps: seq<XmlNode?>)
    reads nodes
    ensures |ps| == |nodes| && forall i {:trigger ps[i]} :: 0 <= i < |nodes| ==> ps[i] == nodes[i].prev
  {
    seq(|nodes|, i requires 0 <= i < |nodes| reads nodes => nodes[i].prev)
  }

  /** Every node of the forest has a well-linked child list of its own within the
      forest, and every node but the loose ones, which no list holds, stands in
      its parent's list. */
  ghost predicate Forest(nodes: set<XmlNode>, loose: set<XmlNode>)
    reads nodes
  {
    forall n <- nodes :: Sound(n, nodes, loose)
  }

  ghost predicate Sound(n: XmlNode, nodes: set<XmlNode>, loose: set<XmlNode>)
    requires n in nodes
    reads nodes
  {
    Housed(n, nodes, loose) && n.Linked()
  }

  ghost predicate Housed(n: XmlNode, nodes: set<XmlNode>, loose: set<XmlNode>)
    requires n in nodes
    reads nodes
  {
    && (forall i {:trigger n.children[i]} :: 0 <= i < |n.children| ==> n.children[i] in nodes && n.children[i] !in loose)
    && (n !in loose && n.parent != null ==> n.parent in nodes && n in n.parent.children)
  }

  /** A node and everything below it, inside a set of nodes, is a given tree. */
  ghost predicate Has(n: XmlNode, shape: Shape, within: set<XmlNode>)
    reads within`children, within`value, within`attributes
    decreases shape, 1
  {
    && n in within && n.kind == shape.kind && n.value == shape.value && n.attributes == shape.attributes
    && HasAll(n.children, shape.kids, within)
  }

  ghost predicate HasAll(nodes: seq<XmlNode>, shapes: seq<Shape>, within: set<XmlNode>)
    reads within`children, within`value, within`attributes
    decreases shapes, 0
  {
    |nodes| == |shapes| && forall i :: 0 <= i < |shapes| ==> Has(nodes[i], shapes[i], within)
  }

  lemma {:induction false} HasMore(n: XmlNode, shape: Shape, within: set<XmlNode>, more: set<XmlNode>)
    requires Has(n, shape, within) && within <= more
    ensures Has(n, shape, more)
    decreases shape
  {
    forall i | 0 <= i < |shape.kids| ensures Has(n.children[i], shape.kids[i], more) {
      HasMore(n.children[i], shape.kids[i], within, more);
    }
  }

  /** No list in a set of nodes leads out of it. */
  ghost predicate Enclosed(nodes: set<XmlNode>)
    reads nodes`children
  {
    forall n <- nodes :: Inside(n.children, nodes)
  }

  /** In a forest without cycles every node is the top of a finite tree. */
  lemma {:induction false} ShapeExists(nodes: set<XmlNode>, n: XmlNode) returns (shape: Shape)
    requires Enclosed(nodes) && Acyclic(Kids(nodes)) && n in nodes
    ensures Has(n, shape, nodes)
    decreases Under(Kids(nodes), n)
  {
    var kids: seq<Shape> := [];
    assert Inside(n.children, nodes);
    while |kids| < |n.children|
      invariant |kids| <= |n.children|
      invariant forall i :: 0 <= i < |kids| ==> Has(n.children[i], kids[i], nodes)
    {
      UnderShrinks(Kids(nodes), n, n.children[|kids|]);
      var kid := ShapeExists(nodes, n.children[|kids|]);
      kids := kids + [kid];
    }
    shape := Shape(n.kind, n.value, n.attributes, kids);
  }

  /** Nothing outside is reached from a set of nodes that no list leads out of. */
  lemma Unreached(nodes: set<XmlNode>, within: set<XmlNode>, u: XmlNode, v: XmlNode)
    requires within <= nodes && Enclosed(within) && u in within && v !in within
    ensures !Reaches(Kids(nodes), u, v)
  {
    if k: nat :| Leads(Kids(nodes), u, v, k) { StaysInside(Kids(nodes), within, u, v, k); }
  }

  /** What an insertion adds: nothing, or the copy of a tree with new nodes only. */
  ghost predicate Grown(r: XmlNode?, shape: Shape, grown: set<XmlNode>)
    reads grown
  {
    if r == null then grown == {} else Enclosed(grown) && Has(r, Copied(shape), grown)
  }

  /** The loose nodes after one more was made and linked. */
  lemma StillLoose(forest: set<XmlNode>, loose: set<XmlNode>, grown: set<XmlNode>, r: XmlNode)
    requires r !in loose
    ensures loose + {r} - {r} == loose
  {
  }

  lemma ReplacedEdge(g: map<XmlNode, seq<XmlNode>>, owner: XmlNode, k: nat, node: XmlNode)
    requires owner in g && k < |g[owner]| && Acyclic(g)
    ensures Acyclic(g[owner := g[owner][k := node]]) <==> !Reaches(g, node, owner)
  {
    var less: seq<XmlNode>, kids: seq<XmlNode> := Without(g[owner], k), g[owner][k := node];
    var h: map<XmlNode, seq<XmlNode>> := g[owner := less];
    RemovedEdge(g, owner, k);
    ReachesIff(g, owner, less, node);
    assert Adds(less, kids, node) by {
      assert kids[k] == node;
      assert forall i :: 0 <= i < |kids| && i != k ==> kids[i] == less[if i < k then i else i - 1];
      assert forall i :: 0 <= i < |less| ==> less[i] == kids[if i < k then i else i + 1];
    }
    AddEdge(h, owner, kids, node);
    hide Acyclic, Reaches;
    assert h[owner := kids] == g[owner := kids];
  }

  lemma RemovedEdge(g: map<XmlNode, seq<XmlNode>>, owner: XmlNode, k: nat)
    requires owner in g && k < |g[owner]|
    ensures Acyclic(g) ==> Acyclic(g[owner := Without(g[owner], k)])
  {
    hide Acyclic;
    if Acyclic(g) {
      WithoutAt(g[owner], k);
      AcyclicWithin(g[owner := Without(g[owner], k)], g);
    }
  }

  /** The relation after one list was edited. */
  lemma KidsAfter(g: map<XmlNode, seq<XmlNode>>, nodes: set<XmlNode>, owner: XmlNode)
    requires g.Keys == nodes && owner in nodes && forall n <- nodes | n != owner :: n.children == g[n]
    ensures Kids(nodes) == g[owner := owner.children]
  {
  }

  /** A node just made joins the forest as a loose one. */
  lemma Grow(nodes: set<XmlNode>, loose: set<XmlNode>, made: XmlNode)
    requires Forest(nodes, loose) && made !in nodes && made.children == [] && made.Linked()
    ensures Forest(nodes + {made}, loose + {made})
  {
    hide XmlNode.Linked;
    forall n <- nodes ensures Sound(n, nodes + {made}, loose + {made}) {
      assert Sound(n, nodes, loose);
    }
  }

  /** Deleting a node deletes what is below it: a loose node and the nodes below it
      can leave the forest together. */
  lemma Prune(nodes: set<XmlNode>, loose: set<XmlNode>, top: XmlNode, gone: set<XmlNode>)
    requires Forest(nodes, loose) && top in gone && top in loose && gone <= nodes
    requires forall n <- gone, i | 0 <= i < |n.children| :: n.children[i] in gone
    requires forall n <- gone :: n == top || n.parent in gone
    ensures Forest(nodes - gone, loose - gone)
  {
  }

  /** An edit of one child list: the forest around it, the nodes that are loose before
      and after, and the place and the node concerned. */
  datatype Edit = Edit(owner: XmlNode, was: seq<XmlNode>, k: nat, node: XmlNode, forest: set<XmlNode>, loose: set<XmlNode>, looseAfter: set<XmlNode>)

  /** Nothing but the owner's list, and links of nodes that are or were in it, has changed. */
  twostate predicate OnlyListChanged(e: Edit)
    reads e.owner, e.forest
  {
    forall n <- e.forest ::
      && (n != e.owner ==> n.children == old(n.children) && n.firstChild == old(n.firstChild) && n.lastChild == old(n.lastChild))
      && (n in e.was || n == e.node || (n.parent == old(n.parent) && n.prev == old(n.prev) && n.next == old(n.next)))
      && (n in e.was ==> n.parent == e.owner)
  }

  /** The loose nodes afterwards are those that were loose or listed and are not listed any more. */
  twostate predicate Rehoused(e: Edit)
    reads e.owner
  {
    var kids, was := e.owner.children, e.was;
    && was == old(e.owner.children) && (e.node in e.loose || e.node in was)
    && (forall i {:trigger kids[i]} :: 0 <= i < |kids| ==>
          kids[i] in e.forest && kids[i] !in e.looseAfter && (kids[i] in was || kids[i] in e.loose))
    && (forall n <- e.looseAfter :: n in e.loose || n in was)
    && (forall n <- e.forest | n in e.loose || n in was :: n in e.looseAfter || n in kids)
  }

  /** An edit of one list keeps the forest: every other list is as it was. */
  twostate lemma ForestKept(e: Edit)
    requires old(Forest(e.forest, e.loose)) && e.owner in e.forest && OnlyListChanged(e) && e.owner.Linked()
    requires Rehoused(e)
    ensures Forest(e.forest, e.looseAfter)
  {
    ListsKept(e);
    HousesKept(e);
  }

  twostate lemma ListsKept(e: Edit)
    requires old(Forest(e.forest, e.loose)) && e.owner in e.forest && OnlyListChanged(e) && e.owner.Linked()
    requires Rehoused(e)
    ensures forall n <- e.forest :: n.Linked()
  {
    hide Chain, Distinct;
    assert old(Sound(e.owner, e.forest, e.loose));
    forall n <- e.forest ensures n.Linked() {
      assert old(Sound(n, e.forest, e.loose));
      if n != e.owner {
        forall i | 0 <= i < |n.children|
          ensures n.children[i].next == old(n.children[i].next) && n.children[i].prev == old(n.children[i].prev)
          ensures n.children[i].parent == n
        {
          assert old(n.children[i].parent) == n;
        }
        assert Nexts(n.children) == old(Nexts(n.children)) && Prevs(n.children) == old(Prevs(n.children));
      }
    }
  }

  twostate lemma HousesKept(e: Edit)
    requires old(Forest(e.forest, e.loose)) && e.owner in e.forest && OnlyListChanged(e) && e.owner.Linked()
    requires Rehoused(e)
    ensures forall n <- e.forest :: Housed(n, e.forest, e.looseAfter)
  {
    hide Chain, Distinct, Nexts, Prevs;
    assert old(Sound(e.owner, e.forest, e.loose));
    forall n <- e.forest ensures Housed(n, e.forest, e.looseAfter) {
      assert old(Sound(n, e.forest, e.loose));
      if n != e.owner {
        forall i | 0 <= i < |n.children| ensures n.children[i] !in e.looseAfter {
          assert old(n.children[i].parent) == n;
        }
      }
      if n !in e.looseAfter && n !in e.owner.children {
        assert n != e.node && n.parent == old(n.parent);
      }
    }
  }

  /** The pointers after a node went in before the k-th child. */
  twostate predicate PutIn(e: Edit)
    reads e.owner, e.was, e.node
  {
    var was := e.was;
    && was == old(e.owner.children) && e.k <= |was| && e.node !in was
    && e.owner.children == Insert(was, e.k, e.node)
    && e.owner.firstChild == (if e.k == 0 then e.node else old(e.owner.firstChild))
    && e.owner.lastChild == (if e.k == |was| then e.node else old(e.owner.lastChild))
    && e.node.parent == e.owner && e.node.next == At(was, e.k) && e.node.prev == At(was, e.k - 1)
    && forall i {:trigger was[i]} :: 0 <= i < |was| ==>
         && was[i].parent == e.owner
         && was[i].next == (if i == e.k - 1 then e.node else old(was[i].next))
         && was[i].prev == (if i == e.k then e.node else old(was[i].prev))
  }

  /** The list and its owner, apart from every loose node. */
  lemma LooseApart(owner: XmlNode, forest: set<XmlNode>, loose: set<XmlNode>)
    requires Forest(forest, loose) && owner in forest
    ensures owner.Linked()
    ensures owner.firstChild == At(owner.children, 0) && owner.lastChild == At(owner.children, |owner.children| - 1)
    ensures forall i {:trigger owner.children[i]} :: 0 <= i < |owner.children| ==>
              var c := owner.children[i]; c in forest && c !in loose && c.parent == owner
  {
    assert Sound(owner, forest, loose);
  }

  twostate lemma Inserted(e: Edit)
    requires old(Forest(e.forest, e.loose)) && e.owner in e.forest
    requires e.node in e.forest && e.node in e.loose && e.looseAfter == e.loose - {e.node} && PutIn(e)
    ensures e.owner.Linked() && Rehoused(e)
  {
    hide Chain, Distinct, Insert;
    assert old(Sound(e.owner, e.forest, e.loose));
    InsertedLinks(e);
    InsertMembers(e.was, e.k, e.node);
    var kids := e.owner.children;
    forall i | 0 <= i < |kids| ensures kids[i] == e.node || kids[i] in e.was {
      assert kids[i] in Insert(e.was, e.k, e.node);
    }
  }

  twostate lemma InsertedLinks(e: Edit)
    requires old(e.owner.Linked()) && PutIn(e)
    ensures e.owner.Linked()
  {
    hide Chain, Distinct;
    var was, nexts, prevs := e.was, old(Nexts(e.owner.children)), old(Prevs(e.owner.children));
    var kids := e.owner.children;
    ChainInsert(was, nexts, prevs, e.k, e.node);
    InsertDistinct(was, e.k, e.node);
    assert forall i {:trigger kids[i]} :: 0 <= i < |kids| ==>
             kids[i] == if i < e.k then was[i] else if i == e.k then e.node else was[i - 1];
    assert Nexts(kids) == Insert(Aim(nexts, e.k - 1, e.node), e.k, At(was, e.k));
    assert Prevs(kids) == Insert(Aim(prevs, e.k, e.node), e.k, At(was, e.k - 1));
  }

  lemma InsertMembers<T>(s: seq<T>, k: nat, x: T)
    requires k <= |s|
    ensures forall y :: y in Insert(s, k, x) <==> y == x || y in s
  {
    assert s == s[..k] + s[k..];
  }

  /** The pointers after the k-th child was taken out. */
  twostate predicate TakenOut(e: Edit)
    reads e.owner, e.was
  {
    var was := e.was;
    && was == old(e.owner.children) && e.k < |was| && e.node == was[e.k]
    && e.owner.children == Without(was, e.k)
    && e.owner.firstChild == (if e.k == 0 then At(was, 1) else old(e.owner.firstChild))
    && e.owner.lastChild == (if e.k == |was| - 1 then At(was, |was| - 2) else old(e.owner.lastChild))
    && forall i {:trigger was[i]} :: 0 <= i < |was| ==>
         && was[i].parent == e.owner
         && was[i].next == (if i == e.k - 1 then At(was, e.k + 1) else old(was[i].next))
         && was[i].prev == (if i == e.k + 1 then At(was, e.k - 1) else old(was[i].prev))
  }

  twostate lemma Removed(e: Edit)
    requires old(Forest(e.forest, e.loose)) && e.owner in e.forest
    requires e.looseAfter == e.loose + {e.node} && TakenOut(e)
    ensures e.owner.Linked() && Rehoused(e)
  {
    hide Chain, Without;
    assert old(Sound(e.owner, e.forest, e.loose));
    RemovedLinks(e);
    WithoutMembers(e.was, e.k);
    var kids := e.owner.children;
    forall i | 0 <= i < |kids| ensures kids[i] != e.node && kids[i] in e.was {
      assert kids[i] in Without(e.was, e.k);
    }
  }

  twostate lemma RemovedLinks(e: Edit)
    requires old(e.owner.Linked()) && TakenOut(e)
    ensures e.owner.Linked()
  {
    hide Chain, Distinct;
    var was, nexts, prevs := e.was, old(Nexts(e.owner.children)), old(Prevs(e.owner.children));
    var kids := e.owner.children;
    assert Chain(was, nexts, prevs);
    ChainWithout(was, nexts, prevs, e.k);
    WithoutDistinct(was, e.k);
    WithoutAt(was, e.k);
    WithoutAt(Aim(nexts, e.k - 1, At(was, e.k + 1)), e.k);
    WithoutAt(Aim(prevs, e.k + 1, At(was, e.k - 1)), e.k);
    hide Without;
    assert forall i {:trigger kids[i]} :: 0 <= i < |kids| ==> kids[i] == was[if i < e.k then i else i + 1];
    assert Nexts(kids) == Without(Aim(nexts, e.k - 1, At(was, e.k + 1)), e.k);
    assert Prevs(kids) == Without(Aim(prevs, e.k + 1, At(was, e.k - 1)), e.k);
  }

  lemma WithoutMembers<T>(s: seq<T>, k: nat)
    requires k < |s| && Distinct(s)
    ensures forall y :: y in Without(s, k) <==> y in s && y != s[k]
  {
    assert s == s[..k] + [s[k]] + s[k + 1..];
  }

  /** The pointers after the k-th child was exchanged for another node. */
  twostate predicate Exchanged(e: Edit)
    reads e.owner, e.was, e.node
  {
    var was := e.was;
    && was == old(e.owner.children) && e.k < |was| && e.node !in was
    && e.owner.children == was[e.k := e.node]
    && e.owner.firstChild == (if e.k == 0 then e.node else old(e.owner.firstChild))
    && e.owner.lastChild == (if e.k == |was| - 1 then e.node else old(e.owner.lastChild))
    && e.node.parent == e.owner && e.node.next == At(was, e.k + 1) && e.node.prev == At(was, e.k - 1)
    && forall i {:trigger was[i]} :: 0 <= i < |was| ==>
         && was[i].parent == e.owner
         && was[i].next == (if i == e.k - 1 then e.node else old(was[i].next))
         && was[i].prev == (if i == e.k + 1 then e.node else old(was[i].prev))
  }

  twostate lemma Replaced(e: Edit)
    requires old(Forest(e.forest, e.loose)) && e.owner in e.forest && Exchanged(e)
    requires e.node in e.forest && e.node in e.loose && e.looseAfter == e.loose - {e.node} + {e.was[e.k]}
    ensures e.owner.Linked() && Rehoused(e)
  {
    hide Chain;
    assert old(Sound(e.owner, e.forest, e.loose));
    ReplacedLinks(e);
    assert forall i {:trigger e.was[i]} :: 0 <= i < |e.was| ==> i == e.k || e.was[i] == e.owner.children[i];
    assert e.owner.children[e.k] == e.node;
  }

  twostate lemma ReplacedLinks(e: Edit)
    requires old(e.owner.Linked()) && Exchanged(e)
    ensures e.owner.Linked()
  {
    hide Chain;
    var was, nexts, prevs := e.was, old(Nexts(e.owner.children)), old(Prevs(e.owner.children));
    var kids := e.owner.children;
    ChainReplace(was, nexts, prevs, e.k, e.node);
    assert Chain(was, nexts, prevs);
    assert nexts[e.k] == At(was, e.k + 1) && prevs[e.k] == At(was, e.k - 1) by { ChainAt(was, nexts, prevs, e.k); }
    assert Nexts(kids) == Aim(nexts, e.k - 1, e.node);
    assert Prevs(kids) == Aim(prevs, e.k + 1, e.node);
  }

  lemma ChainAt(nodes: seq<XmlNode?>, nexts: seq<XmlNode?>, prevs: seq<XmlNode?>, k: nat)
    requires Chain(nodes, nexts, prevs) && k < |nodes|
    ensures |nexts| == |prevs| == |nodes| && nexts[k] == At(nodes, k + 1) && prevs[k] == At(nodes, k - 1)
  {
  }

  /** Where a node stands. */
  ghost function IndexOf(s: seq<XmlNode>, n: XmlNode): (k: nat)
    requires n in s
    ensures k < |s| && s[k] == n
  {
    if s[0] == n then 0 else 1 + IndexOf(s[1..], n)
  }

  class XmlNode {
    const kind: Kind
    var value: string
    var attributes: seq<Pair>        // what an element's attribute set holds
    var parent: XmlNode?
    var prev: XmlNode?
    var next: XmlNode?
    var firstChild: XmlNode?
    var lastChild: XmlNode?
    ghost var children: seq<XmlNode>

    constructor (kind: Kind, value: string)
      ensures this.kind == kind && this.value == value && attributes == []
      ensures parent == null && children == [] && Linked()
    {
      this.kind, this.value, attributes := kind, value, [];
      parent, prev, next, firstChild, lastChild, children := null, null, null, null, null, [];
    }

    ghost predicate Linked()
      reads this, children
    {
      Threads(children)
    }

    /** The pointers of this node spell a sequence of children. */
    ghost predicate Threads(s: seq<XmlNode>)
      reads this, s
    {
      && firstChild == At(s, 0) && lastChild == At(s, |s| - 1)
      && Distinct(s) && Chain(s, Nexts(s), Prevs(s))
      && (forall i {:trigger s[i]} :: 0 <= i < |s| ==> s[i].parent == this)
    }

    /** The edit is of this node's list, at its k-th child. */
    ghost predicate Placed(e: Edit, k: int, child: XmlNode)
      reads this, children
    {
      Linked() && e.owner == this && e.was == children && 0 <= k < |children| && children[k] == child
    }

    lemma Ends()
      requires Linked()
      ensures firstChild == At(children, 0) && lastChild == At(children, |children| - 1)
      ensures forall i {:trigger children[i]} :: 0 <= i < |children| ==> children[i].parent == this
    {
    }

    lemma LinkOf(k: nat)
      requires Linked() && k < |children|
      ensures children[k].next == At(children, k + 1) && children[k].prev == At(children, k - 1)
      ensures forall i {:trigger children[i]} :: 0 <= i < |children| && i != k ==> children[i] != children[k]
    {
      assert Nexts(children)[k] == children[k].next && Prevs(children)[k] == children[k].prev;
    }

    /** LinkEndChild: append the node, or refuse a document. A node that is on this list
        already, which the source's assertion admits, leaves pointers that spell no list. */
    method LinkEndChild(node: XmlNode, ghost forest: set<XmlNode>, ghost loose: set<XmlNode>) returns (r: XmlNode?)
      requires Forest(forest, loose) && this in forest && node in forest && (node in loose || node.parent == this)
      modifies this`firstChild, this`lastChild, this`children, node`parent, node`prev, node`next, children`next
      ensures r == if node.kind == Document then null else node
      ensures r == null ==> unchanged(this) && unchanged(node) && unchanged(old(children)) && Forest(forest, loose)
      ensures r != null && node in loose ==> children == old(children) + [node] && Forest(forest, loose - {node})
      ensures r != null && node in loose ==>
                (Acyclic(Kids(forest)) <==> old(Acyclic(Kids(forest)) && !Reaches(Kids(forest), node, this)))
      ensures r != null && node !in loose ==> forall s: seq<XmlNode> :: !Threads(s)
      ensures forall n <- forest | n != this :: n.children == old(n.children)
    {
      hide Chain, Insert, Forest, Rehoused, Distinct, Linked, IndexOf, Threads, Acyclic, Reaches;
      LooseApart(this, forest, loose);
      if node.kind == Document { return null; }
      if node !in loose {
        AtHome(node, forest, loose);
        LinkOf(IndexOf(children, node));
        LinksBack();
      }
      ghost var g, was := Kids(forest), children;
      ghost var e := Edit(this, was, |was|, node, forest, loose, loose - {node});
      ghost var k := if node in loose then |was| else IndexOf(was, node);
      Append(node);
      if node in loose {
        InsertLast(was, node);
        children := Insert(was, e.k, node);
        Inserted(e);
        ForestKept(e);
        KidsAfter(g, forest, this);
        InsertMembers(was, e.k, node);
        AddEdge(g, this, children, node);
      } else {
        forall s: seq<XmlNode> ensures !Threads(s) { RelinkBreaks(s, was, k); }
      }
      return node;
    }

    /** The pointer writes of LinkEndChild. */
    method Append(node: XmlNode)
      requires Linked()
      modifies this`firstChild, this`lastChild, node`parent, node`prev, node`next, children`next
      ensures firstChild == (if children == [] then node else old(firstChild)) && lastChild == node
      ensures node.parent == this && node.prev == old(lastChild)
      ensures node.next == if node == old(lastChild) then node else null
      ensures forall i {:trigger children[i]} :: 0 <= i < |children| && children[i] != node ==>
                children[i].next == if i == |children| - 1 then node else old(children[i].next)
    {
      hide Chain, Distinct, Linked;
      Ends();
      if children != [] { LinkOf(|children| - 1); }
      node.parent := this;
      node.prev := lastChild;
      node.next := null;
      if lastChild != null { lastChild.next := node; } else { firstChild := node; }
      lastChild := node;
    }

    lemma LinksBack()
      requires Linked()
      ensures forall j {:trigger children[j]} :: 0 < j < |children| ==> children[j].prev == children[j - 1]
    {
      forall j | 0 < j < |children| ensures children[j].prev == children[j - 1] { LinkOf(j); }
    }

    /** After a child was linked once more, the chain backwards from the last child comes
        round to that child again. */
    lemma RelinkBreaks(s: seq<XmlNode>, was: seq<XmlNode>, k: nat)
      requires k < |was| && lastChild == was[k] && was[k].prev == was[|was| - 1]
      requires forall j {:trigger was[j]} :: k < j < |was| ==> was[j].prev == was[j - 1]
      ensures !Threads(s)
    {
      if Threads(s) {
        var m := |s| - 1;
        assert Prevs(s)[m] == s[m].prev;
        var j, p := |was| - 1, m - 1;
        while j > k
          invariant k <= j < |was| && 0 <= p < m && s[p] == was[j]
        {
          assert Prevs(s)[p] == s[p].prev;
          j, p := j - 1, p - 1;
        }
      }
    }

    /** InsertEndChild: a clone of the node is linked behind the last child, unless it is a
        document. */
    method InsertEndChild(addThis: XmlNode, ghost shape: Shape, ghost forest: set<XmlNode>, ghost loose: set<XmlNode>)
        returns (r: XmlNode?, ghost grown: set<XmlNode>)
      requires Forest(forest, loose) && this in forest && Has(addThis, shape, forest)
      modifies this`firstChild, this`lastChild, this`children, children`next
      ensures r == null <==> addThis.kind == Document
      ensures r == null ==> grown == {} && children == old(children)
      ensures r != null ==> children == old(children) + [r]
      ensures Grown(r, shape, grown) && fresh(grown) && Forest(forest + grown, loose)
      ensures forall n <- forest | n != this :: n.children == old(n.children)
      ensures old(Acyclic(Kids(forest))) ==> Acyclic(Kids(forest + grown))
    {
      hide Forest, Acyclic, Reaches, Has, Copied, Enclosed;
      grown := {};
      assert forest + {} == forest;
      if addThis.kind == Document { return null, grown; }
      addThis.HasTop(shape, forest);
      var node;
      node, grown := addThis.Clone(shape, forest, loose);
      node.HasTop(Copied(shape), grown);
      StillLoose(forest, loose, grown, node);
      Unreached(forest + grown, grown, node, this);
      r := LinkEndChild(node, forest + grown, loose + {node});
    }

    // ------------------------------------------------------------ cloning

    /** Clone: a new tree of new nodes that is the copy of this one, inside no list yet;
        nothing that was there before is touched. */
    method Clone(ghost shape: Shape, ghost forest: set<XmlNode>, ghost loose: set<XmlNode>)
        returns (clone: XmlNode, ghost grown: set<XmlNode>)
      requires Forest(forest, loose) && Has(this, shape, forest)
      ensures fresh(grown) && clone in grown && Enclosed(grown)
      ensures Has(clone, Copied(shape), grown)
      ensures Forest(forest + grown, loose + {clone})
      ensures Acyclic(Kids(forest)) ==> Acyclic(Kids(forest + grown))
      decreases shape, 1
    {
      hide Acyclic, Forest, Has, HasAll, Enclosed, Copied;
      clone := CloneSelf(shape, forest, loose);
      if HasKids(kind) {
        grown := CloneChildren(clone, shape, forest, loose);
      } else {
        grown := {clone};
        HasTop(shape, forest);
        clone.NoKids(shape);
      }
    }

    /** A copy of a kind whose children are not copied. */
    lemma NoKids(shape: Shape)
      requires children == [] && kind == shape.kind && value == shape.value && attributes == Copied(shape).attributes
      requires !HasKids(kind)
      ensures Has(this, Copied(shape), {this}) && Enclosed({this})
    {
    }

    lemma HasTop(shape: Shape, within: set<XmlNode>)
      requires Has(this, shape, within)
      ensures this in within && kind == shape.kind && value == shape.value && attributes == shape.attributes
      ensures |children| == |shape.kids| && forall i :: 0 <= i < |children| ==> Has(children[i], shape.kids[i], within)
    {
    }

    /** The new node with its value and attributes. */
    method CloneSelf(ghost shape: Shape, ghost forest: set<XmlNode>, ghost loose: set<XmlNode>) returns (clone: XmlNode)
      requires Forest(forest, loose) && Has(this, shape, forest)
      ensures fresh(clone) && clone.kind == kind && clone.value == value && clone.children == []
      ensures clone.attributes == Copied(shape).attributes
      ensures Forest(forest + {clone}, loose + {clone})
      ensures Acyclic(Kids(forest)) ==> Acyclic(Kids(forest + {clone}))
    {
      hide Acyclic, Forest, Has, Assign, Linked;
      HasTop(shape, forest);
      clone := new XmlNode(kind, value);
      if kind.Element? { clone.CopyAttributes(attributes); }
      Grow(forest, loose, clone);
      if Acyclic(Kids(forest)) {
        AcyclicGrow(Kids(forest), clone);
        assert Kids(forest + {clone}) == Kids(forest)[clone := []];
      }
    }

    /** The first i children of `original` are cloned into the list of this node, and
        `below` is what they grew. */
    ghost predicate Cloned(original: XmlNode, shape: Shape, i: nat, forest: set<XmlNode>, below: set<XmlNode>, loose: set<XmlNode>, acyclic: bool)
      reads this, forest, below
    {
      && Has(original, shape, forest) && i <= |shape.kids|
      && this !in forest && this !in below && below !! forest
      && Enclosed(below) && Inside(children, below) && HasAll(children, CopiedAll(shape.kids[..i]), below)
      && Forest(forest + {this} + below, loose + {this}) && (acyclic ==> Acyclic(Kids(forest + {this} + below)))
      && kind == shape.kind && value == shape.value && attributes == Copied(shape).attributes
    }

    lemma ClonedStarts(original: XmlNode, shape: Shape, forest: set<XmlNode>, loose: set<XmlNode>, acyclic: bool)
      requires acyclic ==> Acyclic(Kids(forest + {this}))
      requires Has(original, shape, forest) && this !in forest && Forest(forest + {this}, loose + {this})
      requires children == [] && kind == shape.kind && value == shape.value && attributes == Copied(shape).attributes
      ensures Cloned(original, shape, 0, forest, {}, loose, acyclic) && forest + {this} + {} == forest + {this}
    {
      hide Has, Forest, Copied;
      assert forest + {this} + {} == forest + {this};
      assert shape.kids[..0] == [];
    }

    lemma ClonedEnds(original: XmlNode, shape: Shape, forest: set<XmlNode>, below: set<XmlNode>, loose: set<XmlNode>, acyclic: bool)
      requires Cloned(original, shape, |shape.kids|, forest, below, loose, acyclic) && HasKids(kind)
      ensures var grown := below + {this};
              && Has(this, Copied(shape), grown) && Enclosed(grown)
              && Forest(forest + grown, loose + {this}) && (acyclic ==> Acyclic(Kids(forest + grown)))
    {
      hide Forest, Has;
      var grown := below + {this};
      assert forest + grown == forest + {this} + below;
      assert shape.kids[..|shape.kids|] == shape.kids;
      var kids := CopiedAll(shape.kids);
      forall i | 0 <= i < |kids| ensures Has(children[i], kids[i], grown) { HasMore(children[i], kids[i], below, grown); }
      HasWhole(Copied(shape), grown);
    }

    lemma HasWhole(shape: Shape, within: set<XmlNode>)
      requires this in within && kind == shape.kind && value == shape.value && attributes == shape.attributes
      requires HasAll(children, shape.kids, within)
      ensures Has(this, shape, within)
    {
    }

    /** The loop of CopyTo over the attributes, on a new node. */
    method CopyAttributes(from: seq<Pair>)
      requires attributes == [] && children == [] && Linked()
      modifies this`attributes
      ensures attributes == AssignAll([], Shown(from)) && Linked()
    {
      hide Assign, AssignAll, Shown, Chain;
      var shown := Shown(from);
      AssignAllNext(shown, 0);
      for i := 0 to |shown|
        invariant attributes == AssignAll([], shown[..i]) && children == []
      {
        AssignAllNext(shown, i);
        attributes := Assign(attributes, shown[i].name, shown[i].value);
      }
      assert shown[..|shown|] == shown;
    }

    /** The loop of CopyTo over the children. */
    method CloneChildren(clone: XmlNode, ghost shape: Shape, ghost forest: set<XmlNode>, ghost loose: set<XmlNode>)
        returns (ghost grown: set<XmlNode>)
      requires Forest(forest + {clone}, loose + {clone}) && Has(this, shape, forest) && clone !in forest
      requires clone.children == [] && clone.kind == kind && clone.value == value && clone.attributes == Copied(shape).attributes
      requires HasKids(kind)
      modifies clone
      ensures fresh(grown - {clone}) && clone in grown && Enclosed(grown)
      ensures Has(clone, Copied(shape), grown)
      ensures Forest(forest + grown, loose + {clone})
      ensures old(Acyclic(Kids(forest + {clone}))) ==> Acyclic(Kids(forest + grown))
      decreases shape, 0, 1
    {
      hide Acyclic, Forest, Has, HasAll, Copied, Enclosed, Linked, Cloned;
      HasTop(shape, forest);
      ghost var acyclic := Acyclic(Kids(forest + {clone}));
      clone.ClonedStarts(this, shape, forest, loose, acyclic);
      LooseApart(this, forest + {clone}, loose + {clone});
      ghost var below: set<XmlNode> := {};
      var node := firstChild;
      ghost var i := 0;
      while node != null
        invariant 0 <= i <= |children| && node == At(children, i) && children == old(children)
        invariant fresh(below) && clone.Cloned(this, shape, i, forest, below, loose, acyclic)
        decreases |children| - i
      {
        below := CloneChild(clone, node, shape, i, forest, below, loose, acyclic);
        clone.ClonedForest(this, shape, i + 1, forest, below, loose, acyclic);
        LooseApart(this, forest + {clone} + below, loose + {clone});
        LinkOf(i);
        node := node.next;
        i := i + 1;
      }
      clone.ClonedEnds(this, shape, forest, below, loose, acyclic);
      grown := below + {clone};
    }

    lemma ClonedForest(original: XmlNode, shape: Shape, i: nat, forest: set<XmlNode>, below: set<XmlNode>, loose: set<XmlNode>, acyclic: bool)
      requires Cloned(original, shape, i, forest, below, loose, acyclic)
      ensures Forest(forest + {this} + below, loose + {this}) && Has(original, shape, forest)
      ensures acyclic ==> Acyclic(Kids(forest + {this} + below))
      ensures this !in forest && this !in below && below !! forest
      ensures Enclosed(below) && Inside(children, below) && HasAll(children, CopiedAll(shape.kids[..i]), below)
      ensures kind == shape.kind && value == shape.value && attributes == Copied(shape).attributes
    {
    }

    /** One turn of that loop. */
    method CloneChild(clone: XmlNode, node: XmlNode, ghost shape: Shape, ghost i: nat,
                      ghost forest: set<XmlNode>, ghost below: set<XmlNode>, ghost loose: set<XmlNode>, ghost acyclic: bool)
        returns (ghost below': set<XmlNode>)
      requires clone.Cloned(this, shape, i, forest, below, loose, acyclic) && i < |children| && node == children[i]
      modifies clone, below
      ensures fresh(below' - below) && clone.Cloned(this, shape, i + 1, forest, below', loose, acyclic)
      decreases shape, 0, 0
    {
      hide Acyclic, Forest, Has, HasAll, Copied, CopiedAll, Enclosed, Linked, Cloned, Reaches, HasKids;
      clone.ClonedForest(this, shape, i, forest, below, loose, acyclic);
      HasTop(shape, forest);
      ghost var all, kid, before := forest + {clone} + below, shape.kids[i], clone.children;
      HasMore(node, kid, forest, all);
      var copy, more := node.Clone(kid, all, loose + {clone});
      copy.HasTop(Copied(kid), more);
      Unreached(all + more, more, copy, clone);
      var r := clone.LinkEndChild(copy, all + more, loose + {clone} + {copy});
      if r == null {
        below' := below;
        clone.KidRefused(this, shape, i, forest, below, loose, acyclic);
      } else {
        below' := below + more;
        assert all + more == forest + {clone} + below';
        assert loose + {clone} + {copy} - {copy} == loose + {clone};
        clone.KidLinked(this, shape, i, forest, below, more, loose, acyclic, copy, before);
      }
    }

    lemma KidLinked(original: XmlNode, shape: Shape, i: nat, forest: set<XmlNode>, below: set<XmlNode>, more: set<XmlNode>,
                    loose: set<XmlNode>, acyclic: bool, copy: XmlNode, before: seq<XmlNode>)
      requires Has(original, shape, forest) && i < |shape.kids| && !shape.kids[i].kind.Document?
      requires this !in forest && this !in below + more && below + more !! forest
      requires Enclosed(below) && Inside(before, below) && HasAll(before, CopiedAll(shape.kids[..i]), below)
      requires Enclosed(more) && copy in more && Has(copy, Copied(shape.kids[i]), more) && children == before + [copy]
      requires Forest(forest + {this} + (below + more), loose + {this})
      requires acyclic ==> Acyclic(Kids(forest + {this} + (below + more)))
      requires kind == shape.kind && value == shape.value && attributes == Copied(shape).attributes
      ensures Cloned(original, shape, i + 1, forest, below + more, loose, acyclic)
    {
      hide Forest, Has, Copied;
      CopiedNext(shape.kids, i);
      var kids := CopiedAll(shape.kids[..i]);
      forall j | 0 <= j < |kids| ensures Has(before[j], kids[j], below + more) { HasMore(before[j], kids[j], below, below + more); }
      HasMore(copy, Copied(shape.kids[i]), more, below + more);
    }

    /** A document among the children is not linked. */
    lemma KidRefused(original: XmlNode, shape: Shape, i: nat, forest: set<XmlNode>, below: set<XmlNode>, loose: set<XmlNode>, acyclic: bool)
      requires Cloned(original, shape, i, forest, below, loose, acyclic) && i < |shape.kids| && shape.kids[i].kind.Document?
      ensures Cloned(original, shape, i + 1, forest, below, loose, acyclic)
    {
      CopiedNext(shape.kids, i);
    }

    method LinkBefore(beforeThis: XmlNode, node: XmlNode, ghost e: Edit)
      requires Placed(e, e.k, beforeThis) && e.node == node && node !in children
      modifies this`firstChild, this`children, node`parent, node`prev, node`next, children`next, children`prev
      ensures PutIn(e)
    {
      hide Chain, Insert, Distinct, Linked;
      ghost var k := e.k;
      Ends();
      LinkOf(k);
      if k > 0 { LinkOf(k - 1); }
      if k + 1 < |children| { LinkOf(k + 1); }
      node.parent := this;
      node.next := beforeThis;
      node.prev := beforeThis.prev;
      if beforeThis.prev != null {
        beforeThis.prev.next := node;
      } else {
        assert firstChild == beforeThis;
        firstChild := node;
      }
      beforeThis.prev := node;
      children := Insert(children, k, node);
    }

    /** Linking a clone in front of a child. */
    method PlaceBefore(beforeThis: XmlNode, node: XmlNode, ghost forest: set<XmlNode>, ghost loose: set<XmlNode>)
      requires Forest(forest, loose) && this in forest && node in forest && node in loose && beforeThis in children
      modifies this`firstChild, this`children, node`parent, node`prev, node`next, children`next, children`prev
      ensures children == Insert(old(children), IndexOf(old(children), beforeThis), node)
      ensures Forest(forest, loose - {node}) && forall n <- forest | n != this :: n.children == old(n.children)
      ensures Acyclic(Kids(forest)) <==> old(Acyclic(Kids(forest)) && !Reaches(Kids(forest), node, this))
    {
      hide Chain, Insert, Forest, Rehoused, Distinct, Linked, Threads, IndexOf, Acyclic, Reaches;
      LooseApart(this, forest, loose);
      ghost var g, was, k := Kids(forest), children, IndexOf(children, beforeThis);
      ghost var e := Edit(this, was, k, node, forest, loose, loose - {node});
      LinkBefore(beforeThis, node, e);
      Inserted(e);
      ForestKept(e);
      KidsAfter(g, forest, this);
      InsertMembers(was, k, node);
      AddEdge(g, this, children, node);
    }

    /** InsertBeforeChild: a clone of the node goes in front of the anchor; nothing happens without an
        anchor, for an anchor of another parent or for a document. */
    method InsertBeforeChild(beforeThis: XmlNode?, addThis: XmlNode, ghost shape: Shape, ghost forest: set<XmlNode>, ghost loose: set<XmlNode>)
        returns (r: XmlNode?, ghost grown: set<XmlNode>)
      requires Forest(forest, loose) && this in forest && Has(addThis, shape, forest)
      requires beforeThis != null ==> beforeThis in forest && beforeThis !in loose
      modifies this`firstChild, this`children, children`next, children`prev
      ensures r == null <==> beforeThis == null || old(beforeThis.parent) != this || addThis.kind == Document
      ensures r == null ==> grown == {} && children == old(children)
      ensures r != null ==> beforeThis in old(children) && children == Insert(old(children), IndexOf(old(children), beforeThis), r)
      ensures Grown(r, shape, grown) && fresh(grown) && Forest(forest + grown, loose)
      ensures forall n <- forest | n != this :: n.children == old(n.children)
      ensures old(Acyclic(Kids(forest))) ==> Acyclic(Kids(forest + grown))
    {
      hide Forest, IndexOf, Acyclic, Reaches, Has, Copied, Enclosed;
      grown := {};
      assert forest + {} == forest;
      if beforeThis == null || beforeThis.parent != this { return null, grown; }
      if addThis.kind == Document { return null, grown; }
      AtHome(beforeThis, forest, loose);
      addThis.HasTop(shape, forest);
      r, grown := addThis.Clone(shape, forest, loose);
      StillLoose(forest, loose, grown, r);
      Unreached(forest + grown, grown, r, this);
      PlaceBefore(beforeThis, r, forest + grown, loose + {r});
    }

    method LinkAfter(afterThis: XmlNode, node: XmlNode, ghost e: Edit)
      requires Placed(e, e.k - 1, afterThis) && e.node == node && node !in children
      modifies this`lastChild, this`children, node`parent, node`prev, node`next, children`next, children`prev
      ensures PutIn(e)
    {
      hide Chain, Insert, Distinct, Linked;
      ghost var k := e.k - 1;
      Ends();
      LinkOf(k);
      if k > 0 { LinkOf(k - 1); }
      if k + 1 < |children| { LinkOf(k + 1); }
      node.parent := this;
      node.prev := afterThis;
      node.next := afterThis.next;
      if afterThis.next != null {
        afterThis.next.prev := node;
      } else {
        assert lastChild == afterThis;
        lastChild := node;
      }
      afterThis.next := node;
      children := Insert(children, k + 1, node);
    }

    /** Linking a clone in behind a child. */
    method PlaceAfter(afterThis: XmlNode, node: XmlNode, ghost forest: set<XmlNode>, ghost loose: set<XmlNode>)
      requires Forest(forest, loose) && this in forest && node in forest && node in loose && afterThis in children
      modifies this`lastChild, this`children, node`parent, node`prev, node`next, children`next, children`prev
      ensures children == Insert(old(children), IndexOf(old(children), afterThis) + 1, node)
      ensures Forest(forest, loose - {node}) && forall n <- forest | n != this :: n.children == old(n.children)
      ensures Acyclic(Kids(forest)) <==> old(Acyclic(Kids(forest)) && !Reaches(Kids(forest), node, this))
    {
      hide Chain, Insert, Forest, Rehoused, Distinct, Linked, Threads, IndexOf, Acyclic, Reaches;
      LooseApart(this, forest, loose);
      ghost var g, was, k := Kids(forest), children, IndexOf(children, afterThis) + 1;
      ghost var e := Edit(this, was, k, node, forest, loose, loose - {node});
      LinkAfter(afterThis, node, e);
      Inserted(e);
      ForestKept(e);
      KidsAfter(g, forest, this);
      InsertMembers(was, k, node);
      AddEdge(g, this, children, node);
    }

    /** InsertAfterChild: a clone of the node goes in behind the anchor; nothing happens without an
        anchor, for an anchor of another parent or for a document. */
    method InsertAfterChild(afterThis: XmlNode?, addThis: XmlNode, ghost shape: Shape, ghost forest: set<XmlNode>, ghost loose: set<XmlNode>)
        returns (r: XmlNode?, ghost grown: set<XmlNode>)
      requires Forest(forest, loose) && this in forest && Has(addThis, shape, forest)
      requires afterThis != null ==> afterThis in forest && afterThis !in loose
      modifies this`lastChild, this`children, children`next, children`prev
      ensures r == null <==> afterThis == null || old(afterThis.parent) != this || addThis.kind == Document
      ensures r == null ==> grown == {} && children == old(children)
      ensures r != null ==> afterThis in old(children) && children == Insert(old(children), IndexOf(old(children), afterThis) + 1, r)
      ensures Grown(r, shape, grown) && fresh(grown) && Forest(forest + grown, loose)
      ensures forall n <- forest | n != this :: n.children == old(n.children)
      ensures old(Acyclic(Kids(forest))) ==> Acyclic(Kids(forest + grown))
    {
      hide Forest, IndexOf, Acyclic, Reaches, Has, Copied, Enclosed;
      grown := {};
      assert forest + {} == forest;
      if afterThis == null || afterThis.parent != this { return null, grown; }
      if addThis.kind == Document { return null, grown; }
      AtHome(afterThis, forest, loose);
      addThis.HasTop(shape, forest);
      r, grown := addThis.Clone(shape, forest, loose);
      StillLoose(forest, loose, grown, r);
      Unreached(forest + grown, grown, r, this);
      PlaceAfter(afterThis, r, forest + grown, loose + {r});
    }

    method LinkInstead(replaceThis: XmlNode, node: XmlNode, ghost e: Edit)
      requires Placed(e, e.k, replaceThis) && e.node == node && node !in children
      modifies this`firstChild, this`lastChild, this`children, node`parent, node`prev, node`next, children`next, children`prev
      ensures Exchanged(e)
    {
      hide Chain, Insert, Distinct, Linked;
      ghost var k := e.k;
      Ends();
      LinkOf(k);
      if k > 0 { LinkOf(k - 1); }
      if k + 1 < |children| { LinkOf(k + 1); }
      node.next := replaceThis.next;
      node.prev := replaceThis.prev;
      if replaceThis.next != null { replaceThis.next.prev := node; } else { lastChild := node; }
      if replaceThis.prev != null { replaceThis.prev.next := node; } else { firstChild := node; }
      node.parent := this;
      children := children[k := node];
    }

    /** Linking a clone in the place of a child. */
    method PlaceInstead(replaceThis: XmlNode, node: XmlNode, ghost forest: set<XmlNode>, ghost loose: set<XmlNode>)
      requires Forest(forest, loose) && this in forest && node in forest && node in loose && replaceThis in children
      modifies this`firstChild, this`lastChild, this`children, node`parent, node`prev, node`next, children`next, children`prev
      ensures children == old(children)[IndexOf(old(children), replaceThis) := node]
      ensures Forest(forest, loose - {node} + {replaceThis}) && forall n <- forest | n != this :: n.children == old(n.children)
      ensures old(Acyclic(Kids(forest))) ==> (Acyclic(Kids(forest)) <==> !old(Reaches(Kids(forest), node, this)))
    {
      hide Chain, Forest, Rehoused, Distinct, Linked, Threads, IndexOf, Acyclic, Reaches, Without;
      LooseApart(this, forest, loose);
      ghost var g, was, k := Kids(forest), children, IndexOf(children, replaceThis);
      ghost var e := Edit(this, was, k, node, forest, loose, loose - {node} + {replaceThis});
      LinkInstead(replaceThis, node, e);
      Replaced(e);
      ForestKept(e);
      KidsAfter(g, forest, this);
      if Acyclic(g) { ReplacedEdge(g, this, k, node); }
    }

    /** ReplaceChild: a clone takes the place of a child, which is deleted. */
    method ReplaceChild(replaceThis: XmlNode, withThis: XmlNode, ghost shape: Shape, ghost forest: set<XmlNode>, ghost loose: set<XmlNode>)
        returns (r: XmlNode?, ghost grown: set<XmlNode>)
      requires Forest(forest, loose) && this in forest && Has(withThis, shape, forest)
      requires replaceThis in forest && replaceThis !in loose
      modifies this`firstChild, this`lastChild, this`children, children`next, children`prev
      ensures r == null <==> old(replaceThis.parent) != this
      ensures r == null ==> grown == {} && children == old(children) && Forest(forest, loose)
      ensures r != null ==> replaceThis in old(children) && children == old(children)[IndexOf(old(children), replaceThis) := r]
      ensures r != null ==> Forest(forest + grown, loose + {replaceThis})
      ensures Grown(r, shape, grown) && fresh(grown)
      ensures forall n <- forest | n != this :: n.children == old(n.children)
      ensures old(Acyclic(Kids(forest))) ==> Acyclic(Kids(forest + grown))
    {
      hide Forest, IndexOf, Acyclic, Reaches, Has, Copied, Enclosed;
      grown := {};
      assert forest + {} == forest;
      if replaceThis.parent != this { return null, grown; }
      AtHome(replaceThis, forest, loose);
      withThis.HasTop(shape, forest);
      r, grown := withThis.Clone(shape, forest, loose);
      StillLoose(forest, loose, grown, r);
      Unreached(forest + grown, grown, r, this);
      PlaceInstead(replaceThis, r, forest + grown, loose + {r});
    }

    method LinkPast(removeThis: XmlNode, ghost e: Edit)
      requires Placed(e, e.k, removeThis) && e.node == removeThis
      modifies this`firstChild, this`lastChild, this`children, children`next, children`prev
      ensures TakenOut(e)
    {
      hide Chain, Without, Distinct, Linked, Threads;
      ghost var k := e.k;
      Ends();
      LinkOf(k);
      if k > 0 { LinkOf(k - 1); }
      if k + 1 < |children| { LinkOf(k + 1); }
      if removeThis.next != null { removeThis.next.prev := removeThis.prev; } else { lastChild := removeThis.prev; }
      if removeThis.prev != null { removeThis.prev.next := removeThis.next; } else { firstChild := removeThis.next; }
      children := Without(children, k);
    }

    /** RemoveChild; the node removed is deleted. */
    method RemoveChild(removeThis: XmlNode, ghost forest: set<XmlNode>, ghost loose: set<XmlNode>) returns (ok: bool)
      requires Forest(forest, loose) && this in forest && removeThis in forest && removeThis !in loose
      modifies this`firstChild, this`lastChild, this`children, children`next, children`prev
      ensures ok <==> old(removeThis.parent) == this
      ensures !ok ==> children == old(children) && Forest(forest, loose)
      ensures ok ==> removeThis in old(children)
      ensures ok ==> children == Without(old(children), IndexOf(old(children), removeThis))
      ensures ok ==> Forest(forest, loose + {removeThis})
      ensures forall n <- forest | n != this :: n.children == old(n.children)
      ensures old(Acyclic(Kids(forest))) ==> Acyclic(Kids(forest))
    {
      hide Chain, Forest, Rehoused, Without, Distinct, Linked, Threads, IndexOf, Acyclic;
      ghost var g := Kids(forest);
      LooseApart(this, forest, loose);
      if removeThis.parent != this { return false; }
      AtHome(removeThis, forest, loose);
      ghost var k := IndexOf(children, removeThis);
      ghost var e := Edit(this, children, k, removeThis, forest, loose, loose + {removeThis});
      LinkPast(removeThis, e);
      Removed(e);
      ForestKept(e);
      KidsAfter(g, forest, this);
      RemovedEdge(g, this, k);
      return true;
    }

    /** A node that is not loose and names this one as its parent is on its list. */
    lemma AtHome(n: XmlNode, forest: set<XmlNode>, loose: set<XmlNode>)
      requires Forest(forest, loose) && n in forest && n !in loose && n.parent == this
      ensures n in children
    {
      assert Sound(n, forest, loose);
    }

    /** FirstChild by value: the forward chain visits the children in order. */
    method FirstChild(value: string) returns (node: XmlNode?)
      requires Linked()
      ensures node == null ==> forall i :: 0 <= i < |children| ==> children[i].value != value
      ensures node != null ==> exists k :: 0 <= k < |children| && node == children[k] && node.value == value
                                           && forall i :: 0 <= i < k ==> children[i].value != value
    {
      node := firstChild;
      ghost var k := 0;
      while node != null
        invariant 0 <= k <= |children| && node == At(children, k)
        invariant forall i :: 0 <= i < k ==> children[i].value != value
        decreases |children| - k
      {
        if node.value == value { return; }
        LinkOf(k);
        node := node.next;
        k := k + 1;
      }
    }

    /** LastChild by value: the backward chain visits them in the opposite order. */
    method LastChild(value: string) returns (node: XmlNode?)
      requires Linked()
      ensures node == null ==> forall i :: 0 <= i < |children| ==> children[i].value != value
      ensures node != null ==> exists k :: 0 <= k < |children| && node == children[k] && node.value == value
                                           && forall i :: k < i < |children| ==> children[i].value != value
    {
      node := lastChild;
      ghost var k := |children| - 1;
      while node != null
        invariant -1 <= k < |children| && node == At(children, k)
        invariant forall i :: k < i < |children| ==> children[i].value != value
        decreases k
      {
        if node.value == value { return; }
        LinkOf(k);
        node := node.prev;
        k := k - 1;
      }
    }
  }

  lemma CopiedNext(ss: seq<Shape>, i: nat)
    requires i < |ss|
    ensures CopiedAll(ss[..i + 1]) == CopiedAll(ss[..i]) + (if ss[i].kind.Document? then [] else [Copied(ss[i])])
  {
    assert ss[..i + 1][..i] == ss[..i];
  }

  lemma InsertLast<T>(s: seq<T>, x: T)
    ensures Insert(s, |s|, x) == s + [x]
  {
  }
}
