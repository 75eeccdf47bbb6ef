/** Circular doubly linked lists as sequences: the nodes in order, and the
    sequences of their forward and backward pointers. */
module Rings {

  ghost predicate Distinct<T>(nodes: seq<T>) {
    forall i, j :: 0 <= i < j < |nodes| ==> nodes[i] != nodes[j]
  }

  function After(n: nat, i: nat): nat { if i + 1 < n then i + 1 else 0 }
  function Before(n: nat, i: nat): int { if i > 0 then i - 1 else n - 1 }

  /** The pointers `nexts` and `prevs` run round `nodes` in opposite directions,
      so each is the other's inverse. */
  ghost predicate Ring<T>(nodes: seq<T>, nexts: seq<T>, prevs: seq<T>) {
    && |nexts| == |prevs| == |nodes|
    && (forall i {:trigger nexts[i]} :: 0 <= i < |nodes| ==> nexts[i] == nodes[After(|nodes|, i)])
    && (forall i {:trigger prevs[i]} :: 0 <= i < |nodes| ==> prevs[i] == nodes[Before(|nodes|, i)])
  }

  /** A sequence after its k-th item is taken out. */
  function Without<T>(s: seq<T>, k: nat): seq<T>
    requires k < |s|
  {
    s[..k] + s[k + 1..]
  }

  lemma WithoutAt<T>(s: seq<T>, k: nat)
    requires k < |s|
    ensures |Without(s, k)| == |s| - 1
    ensures forall i {:trigger Without(s, k)[i]} :: 0 <= i < |s| - 1 ==> Without(s, k)[i] == s[if i < k then i else i + 1]
  {
  }

  /** Joining the neighbours of the k-th node closes the ring without it. */
  lemma RingWithout<T>(nodes: seq<T>, nexts: seq<T>, prevs: seq<T>, k: nat)
    requires Ring(nodes, nexts, prevs) && 1 <= k < |nodes|
    ensures var after := After(|nodes|, k);
            Ring(Without(nodes, k), Without(nexts[k - 1 := nodes[after]], k), Without(prevs[after := nodes[k - 1]], k))
  {
  }

  /** A new node between the last one and the first one. */
  lemma RingAppend<T>(nodes: seq<T>, nexts: seq<T>, prevs: seq<T>, added: T)
    requires Ring(nodes, nexts, prevs) && nodes != []
    ensures Ring(nodes + [added], nexts[|nodes| - 1 := added] + [nodes[0]], prevs[0 := added] + [nodes[|nodes| - 1]])
  {
  }

  lemma WithoutDistinct<T>(nodes: seq<T>, k: nat)
    requires k < |nodes| && Distinct(nodes)
    ensures Distinct(Without(nodes, k))
  {
  }

  lemma AppendDistinct<T>(nodes: seq<T>, added: T)
    requires Distinct(nodes) && added !in nodes
    ensures Distinct(nodes + [added])
  {
  }
}
