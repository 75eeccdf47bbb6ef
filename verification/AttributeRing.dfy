/** TinyXML's attribute set: a circular doubly linked ring through a sentinel, edited in
    place and proved to be the insertion-ordered map of AttributeMap. */
module AttributeRing {
  import opened AttributeMap
  import opened Rings

  class Attribute {
    var name: string
    var value: string
    var prev: Attribute?
    var next: Attribute?

    constructor (name: string, value: string)
      ensures this.name == name && this.value == value
    {
      this.name, this.value := name, value;
      prev, next := null, null;
    }
  }

  ghost function Nexts(nodes: seq<Attribute>): (ns: seq<Attribute?>)
    reads nodes
    ensures |ns| == |nodes| && forall i {:trigger ns[i]} :: 0 <= i < |nodes| ==> ns[i] == nodes[i].next
  {
    seq(|nodes|, i requires 0 <= i < |nodes| reads nodes => nodes[i].next)
  }

  ghost function Prevs(nodes: seq<Attribute>): (ps: seq<Attribute?>)
    reads nodes
    ensures |ps| == |nodes| && forall i {:trigger ps[i]} :: 0 <= i < |nodes| ==> ps[i] == nodes[i].prev
  {
    seq(|nodes|, i requires 0 <= i < |nodes| reads nodes => nodes[i].prev)
  }

  ghost function Content(nodes: seq<Attribute>): (ps: seq<Pair>)
    reads nodes
    ensures |ps| == |nodes|
    ensures forall i {:trigger ps[i]} :: 0 <= i < |nodes| ==> ps[i] == Pair(nodes[i].name, nodes[i].value)
  {
    seq(|nodes|, i requires 0 <= i < |nodes| reads nodes => Pair(nodes[i].name, nodes[i].value))
  }

  ghost predicate Linked(nodes: seq<Attribute>)
    reads nodes
  {
    Ring<Attribute?>(nodes, Nexts(nodes), Prevs(nodes))
  }

  lemma NextOf(nodes: seq<Attribute>, k: nat)
    requires Linked(nodes) && k < |nodes|
    ensures nodes[k].next == nodes[After(|nodes|, k)] && nodes[k].prev == nodes[Before(|nodes|, k)]
  {
    assert Nexts(nodes)[k] == nodes[k].next && Prevs(nodes)[k] == nodes[k].prev;
  }

  class AttributeSet {
    const sentinel: Attribute
    ghost var nodes: seq<Attribute>   // the sentinel and then the attributes

    ghost predicate Valid()
      reads this, nodes
    {
      && nodes != [] && nodes[0] == sentinel && sentinel.name == "" && sentinel.value == ""
      && Distinct(nodes) && Linked(nodes) && Distinct(Names(Pairs()))
    }

    /** The attributes in the order in which their names were first set. */
    ghost function Pairs(): (ps: seq<Pair>)
      requires nodes != []
      reads this, nodes
      ensures |ps| == |nodes| - 1
      ensures forall i {:trigger ps[i]} :: 0 <= i < |ps| ==> ps[i] == Pair(nodes[i + 1].name, nodes[i + 1].value)
    {
      Content(nodes[1..])
    }

    constructor ()
      ensures Valid() && Pairs() == [] && fresh(sentinel) && fresh(nodes)
    {
      var s := new Attribute("", "");
      sentinel, nodes := s, [s];
      new;
      sentinel.next := sentinel;
      sentinel.prev := sentinel;
    }

    /** Find: the attribute with the name, null if there is none. */
    method Find(name: string) returns (node: Attribute?, ghost k: nat)
      requires Valid()
      ensures k == Position(Pairs(), name)
      ensures node == if Position(Pairs(), name) < |Pairs()| then nodes[Position(Pairs(), name) + 1] else null
    {
      hide Ring, Distinct, Content;
      NextOf(nodes, 0);
      node := sentinel.next;
      k := 0;
      while node != sentinel
        invariant k <= |Pairs()| && node == nodes[After(|nodes|, k)]
        invariant forall i :: 0 <= i < k ==> Pairs()[i].name != name
        decreases |nodes| - k
      {
        IsSentinel(After(|nodes|, k));
        assert Pairs()[k].name == node.name;
        if node.name == name { 
          FirstPosition(Pairs(), name, k);
          return;
        }
        NextOf(nodes, k + 1);
        node := node.next;
        k := k + 1;
      }
      IsSentinel(After(|nodes|, k));
      FirstPosition(Pairs(), name, k);
      node := null;
    }

    lemma IsSentinel(i: nat)
      requires Valid() && i < |nodes|
      ensures nodes[i] == sentinel <==> i == 0
    {
    }

    /** Add: link the attribute before the sentinel. */
    method Add(addMe: Attribute)
      requires Valid() && addMe !in nodes && Position(Pairs(), addMe.name) == |Pairs()|
      modifies this`nodes, nodes, addMe
      ensures Valid() && nodes == old(nodes) + [addMe]
      ensures Pairs() == old(Pairs()) + [Pair(old(addMe.name), old(addMe.value))]
    {
      hide Content, Ring, Distinct;
      ghost var was, nexts, prevs, pairs := nodes, Nexts(nodes), Prevs(nodes), Pairs();
      NextOf(nodes, 0);
      Apart(was, |was| - 1);
      Apart(was, 0);
      addMe.next := sentinel;
      addMe.prev := sentinel.prev;
      sentinel.prev.next := addMe;
      sentinel.prev := addMe;
      RingAppend(was, nexts, prevs, addMe);
      AppendDistinct(was, addMe);
      nodes := nodes + [addMe];
      AtEnds(was);
      assert Nexts(nodes) == nexts[|was| - 1 := addMe] + [sentinel];
      assert Prevs(nodes) == prevs[0 := addMe] + [was[|was| - 1]];
      assert Pairs() == pairs + [Pair(addMe.name, addMe.value)];
      assert Assign(pairs, addMe.name, addMe.value) == Pairs();
      AssignIsUpdate(pairs, addMe.name, addMe.value);
    }

    /** Remove: walk to the attribute and take it out; one that is not linked is left alone. */
    method Remove(removeMe: Attribute)
      requires Valid() && removeMe != sentinel
      modifies this`nodes, nodes
      ensures Valid()
      ensures removeMe !in old(nodes) ==> nodes == old(nodes) && Pairs() == old(Pairs())
      ensures forall k :: 0 <= k < |old(Pairs())| && removeMe == old(nodes)[k + 1] ==>
                nodes == Without(old(nodes), k + 1) && Pairs() == Without(old(Pairs()), k)
    {
      hide Ring, Content, Without, Names;
      NextOf(nodes, 0);
      var node := sentinel.next;
      ghost var k := 0;
      while node != sentinel
        invariant Valid() && nodes == old(nodes) && Pairs() == old(Pairs())
        invariant k <= |Pairs()| && node == nodes[After(|nodes|, k)]
        invariant forall i :: 0 <= i <= k ==> nodes[i] != removeMe
        decreases |nodes| - k
      {
        IsSentinel(After(|nodes|, k));
        NextOf(nodes, k + 1);
        if node == removeMe {
          Unlink(node, k + 1);
          return;
        }
        node := node.next;
        k := k + 1;
      }
      IsSentinel(After(|nodes|, k));
    }

    method Unlink(node: Attribute, ghost k: nat)
      requires Valid() && 1 <= k < |nodes| && node == nodes[k]
      modifies this`nodes, nodes`next, nodes`prev
      ensures Valid() && nodes == Without(old(nodes), k) && Pairs() == Without(old(Pairs()), k - 1)
    {
      hide Names, Pairs, Content, Ring, Distinct;
      ghost var was, nexts, prevs, pairs := nodes, Nexts(nodes), Prevs(nodes), Pairs();
      ghost var after, rest := After(|was|, k), Without(was, k);
      RingWithout(was, nexts, prevs, k);
      assert Ring<Attribute?>(rest, Without(nexts[k - 1 := was[after]], k), Without(prevs[after := was[k - 1]], k));
      WithoutDistinct(was, k);
      hide Without;
      Detach(node, k);
      nodes := rest;
      assert Nexts(nodes) == Without(nexts[k - 1 := was[after]], k) by {
        WithoutAt(was, k);
        WithoutAt(nexts[k - 1 := was[after]], k);
      }
      assert Prevs(nodes) == Without(prevs[after := was[k - 1]], k) by {
        WithoutAt(was, k);
        WithoutAt(prevs[after := was[k - 1]], k);
      }
      assert nodes != [] && nodes[0] == sentinel by { WithoutAt(was, k); }
      assert Pairs() == Without(pairs, k - 1) by {
        WithoutAt(was, k);
        WithoutAt(pairs, k - 1);
      }
      WithoutNames(pairs, k - 1);
      WithoutDistinct(Names(pairs), k - 1);
    }

    /** The pointer writes of Remove. */
    method Detach(node: Attribute, ghost k: nat)
      requires Valid() && 1 <= k < |nodes| && node == nodes[k]
      modifies nodes`next, nodes`prev
      ensures forall i {:trigger nodes[i]} :: 0 <= i < |nodes| && i != k ==>
                && nodes[i].next == (if i == k - 1 then nodes[After(|nodes|, k)] else old(nodes[i].next))
                && nodes[i].prev == (if i == After(|nodes|, k) then nodes[k - 1] else old(nodes[i].prev))
    {
      hide Content, Ring, Distinct, Names;
      NextOf(nodes, k);
      Apart(nodes, k);
      Apart(nodes, k - 1);
      Apart(nodes, After(|nodes|, k));
      node.prev.next := node.next;
      node.next.prev := node.prev;
      node.next := null;
      node.prev := null;
    }

    /** SetAttribute */
    method SetAttribute(name: string, value: string)
      requires Valid()
      modifies this`nodes, nodes
      ensures Valid() && Pairs() == Assign(old(Pairs()), name, value)
    {
      hide Content, Linked, Names;
      var node, k := Find(name);
      if node != null {
        Overwrite(node, value, k);
        return;
      }
      var attrib := new Attribute(name, value);
      Add(attrib);
    }

    /** SetValue on an attribute of the set. */
    method Overwrite(node: Attribute, value: string, ghost k: nat)
      requires Valid() && k < |Pairs()| && node == nodes[k + 1]
      modifies node`value
      ensures Valid() && Pairs() == old(Pairs())[k := Pair(node.name, value)]
    {
      hide Ring, Content;
      ghost var nexts, prevs, pairs := Nexts(nodes), Prevs(nodes), Pairs();
      node.value := value;
      assert Nexts(nodes) == nexts && Prevs(nodes) == prevs;
      assert forall i :: 0 <= i < |nodes| && i != k + 1 ==> nodes[i] != node;
      assert Pairs() == pairs[k := Pair(node.name, value)];
      assert Names(Pairs()) == Names(pairs);
    }

    /** RemoveAttribute */
    method RemoveAttribute(name: string)
      requires Valid()
      modifies this`nodes, nodes
      ensures Valid() && Pairs() == Drop(old(Pairs()), name)
    {
      hide Content, Linked, Names;
      var node, k := Find(name);
      if node != null {
        IsSentinel(k + 1);
        Remove(node);
      }
    }

    /** The loop over First and Next that prints or visits the attributes. */
    method Iterate() returns (seen: seq<Pair>)
      requires Valid()
      ensures seen == Shown(Pairs())
    {
      hide Ring, Distinct, Content, Names, Shown, Pairs;
      NextOf(nodes, 0);
      var node := if sentinel.next == sentinel then null else sentinel.next;
      seen := [];
      ghost var k := 0;
      if |nodes| > 1 { IsSentinel(1); }
      while node != null
        invariant k <= |Shown(Pairs())| && seen == Pairs()[..k]
        invariant node == if k < |Shown(Pairs())| then nodes[k + 1] else null
        decreases |nodes| - k
      {
        seen := seen + [Pair(node.name, node.value)];
        NextOf(nodes, k + 1);
        var next := node.next;
        k := k + 1;
        ShownNext(Pairs(), k);
        node := if next.value == "" && next.name == "" then null else next;
      }
    }
  }

  lemma Apart(nodes: seq<Attribute>, k: nat)
    requires Distinct(nodes) && k < |nodes|
    ensures forall i {:trigger nodes[i]} :: 0 <= i < |nodes| && i != k ==> nodes[i] != nodes[k]
  {
  }

  lemma AtEnds(nodes: seq<Attribute>)
    requires nodes != []
    ensures Before(|nodes|, 0) == |nodes| - 1 && After(|nodes|, |nodes| - 1) == 0
  {
  }
}
