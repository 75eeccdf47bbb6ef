/** Directed graphs as maps from nodes to their successors: which edges close a cycle. */
module Graphs {

  /** A way of k edges from u to v. */
  ghost predicate Leads<T>(g: map<T, seq<T>>, u: T, v: T, k: nat) {
    if k == 0 then u == v
    else u in g && exists i :: 0 <= i < |g[u]| && Leads(g, g[u][i], v, k - 1)
  }

  ghost predicate Reaches<T>(g: map<T, seq<T>>, u: T, v: T) { exists k: nat :: Leads(g, u, v, k) }

  ghost predicate Acyclic<T>(g: map<T, seq<T>>) { forall u, k: nat | u in g && k > 0 :: !Leads(g, u, u, k) }

  ghost predicate Inside<T>(s: seq<T>, within: set<T>) { forall i :: 0 <= i < |s| ==> s[i] in within }

  /** Every edge of one graph is an edge of the other. */
  ghost predicate Within<T>(g: map<T, seq<T>>, h: map<T, seq<T>>) {
    forall u | u in g :: u in h && forall i {:trigger g[u][i]} :: 0 <= i < |g[u]| ==> g[u][i] in h[u]
  }

  lemma {:induction false} LeadsWithin<T>(g: map<T, seq<T>>, h: map<T, seq<T>>, u: T, v: T, k: nat)
    requires Within(g, h) && Leads(g, u, v, k)
    ensures Leads(h, u, v, k)
    decreases k
  {
    if k > 0 {
      var i :| 0 <= i < |g[u]| && Leads(g, g[u][i], v, k - 1);
      LeadsWithin(g, h, g[u][i], v, k - 1);
      assert g[u][i] in h[u];
      var j :| 0 <= j < |h[u]| && h[u][j] == g[u][i];
    }
  }

  lemma {:induction false} LeadsOn<T>(g: map<T, seq<T>>, u: T, v: T, w: T, j: nat, k: nat)
    requires Leads(g, u, v, j) && Leads(g, v, w, k)
    ensures Leads(g, u, w, j + k)
    decreases j
  {
    if j > 0 {
      var i :| 0 <= i < |g[u]| && Leads(g, g[u][i], v, j - 1);
      LeadsOn(g, g[u][i], v, w, j - 1, k);
    }
  }

  /** A graph with fewer edges has fewer cycles. */
  lemma AcyclicWithin<T>(g: map<T, seq<T>>, h: map<T, seq<T>>)
    requires Within(g, h) && Acyclic(h)
    ensures Acyclic(g)
  {
    forall u, k: nat | u in g && k > 0 ensures !Leads(g, u, u, k) {
      if Leads(g, u, u, k) { LeadsWithin(g, h, u, u, k); }
    }
  }

  /** The successors of one node with one more among them. */
  ghost predicate Adds<T>(before: seq<T>, after: seq<T>, x: T) {
    x in after && (forall y | y in before :: y in after) && (forall y | y in after :: y in before || y == x)
  }

  /** A way in a graph with one more edge either does without it, or leads to its start
      and on from its end. */
  lemma {:induction false} WayThrough<T>(g: map<T, seq<T>>, owner: T, kids: seq<T>, x: T, u: T, v: T, k: nat)
    requires owner in g && Adds(g[owner], kids, x) && Leads(g[owner := kids], u, v, k)
    ensures Reaches(g, u, v) || (Reaches(g, u, owner) && Reaches(g, x, v))
    decreases k
  {
    var h := g[owner := kids];
    if k == 0 {
      assert Leads(g, u, v, 0);
    } else {
      var i :| 0 <= i < |h[u]| && Leads(h, h[u][i], v, k - 1);
      var w := h[u][i];
      WayThrough(g, owner, kids, x, w, v, k - 1);
      if u == owner {
        assert Leads(g, u, owner, 0);
        if w in g[owner] { OneFurther(g, u, w, v); }
      } else {
        assert w in g[u];
        OneFurther(g, u, w, v);
        OneFurther(g, u, w, owner);
      }
    }
  }

  lemma OneFurther<T>(g: map<T, seq<T>>, u: T, w: T, v: T)
    requires u in g && w in g[u]
    ensures Reaches(g, w, v) ==> Reaches(g, u, v)
  {
    if Reaches(g, w, v) {
      var k: nat :| Leads(g, w, v, k);
      var i :| 0 <= i < |g[u]| && g[u][i] == w;
      assert Leads(g, u, v, k + 1);
    }
  }

  /** One more edge keeps a graph acyclic exactly when its end does not reach its start. */
  lemma AddEdge<T>(g: map<T, seq<T>>, owner: T, kids: seq<T>, x: T)
    requires owner in g && Adds(g[owner], kids, x)
    ensures Acyclic(g[owner := kids]) <==> Acyclic(g) && !Reaches(g, x, owner)
  {
    var h := g[owner := kids];
    assert Within(g, h);
    if Acyclic(h) {
      AcyclicWithin(g, h);
      if k: nat :| Leads(g, x, owner, k) {
        LeadsWithin(g, h, x, owner, k);
        assert x in kids;
        var i :| 0 <= i < |kids| && kids[i] == x;
        assert Leads(h, owner, owner, k + 1);
      }
    }
    if Acyclic(g) && !Reaches(g, x, owner) {
      forall u, k: nat | u in h && k > 0 ensures !Leads(h, u, u, k) {
        if Leads(h, u, u, k) { NewCycle(g, owner, kids, x, u, k); }
      }
    }
  }

  /** A cycle that was not there before is closed by the new edge. */
  lemma NewCycle<T>(g: map<T, seq<T>>, owner: T, kids: seq<T>, x: T, u: T, k: nat)
    requires owner in g && Adds(g[owner], kids, x) && u in g && k > 0 && Leads(g[owner := kids], u, u, k)
    requires Acyclic(g)
    ensures Reaches(g, x, owner)
  {
    var h := g[owner := kids];
    var i :| 0 <= i < |h[u]| && Leads(h, h[u][i], u, k - 1);
    var w := h[u][i];
    WayThrough(g, owner, kids, x, w, u, k - 1);
    if w in g[u] {
      if Reaches(g, w, u) {
        ClosesCycle(g, u, w);
      } else {
        OneFurther(g, u, w, owner);
        var b: nat :| Leads(g, x, u, b);
        var c: nat :| Leads(g, u, owner, c);
        LeadsOn(g, x, u, owner, b, c);
      }
    }
  }

  lemma ClosesCycle<T>(g: map<T, seq<T>>, u: T, w: T)
    requires u in g && w in g[u] && Reaches(g, w, u)
    ensures !Acyclic(g)
  {
    var j: nat :| Leads(g, w, u, j);
    var i :| 0 <= i < |g[u]| && g[u][i] == w;
    assert Leads(g, u, u, j + 1);
  }

  /** What a node's own edges are makes no difference to reaching it. */
  lemma {:induction false} ReachesAnyway<T>(g: map<T, seq<T>>, owner: T, kids: seq<T>, u: T, k: nat)
    requires owner in g && Leads(g, u, owner, k)
    ensures Reaches(g[owner := kids], u, owner)
    decreases k
  {
    var h := g[owner := kids];
    if u == owner {
      assert Leads(h, u, owner, 0);
    } else {
      var i :| 0 <= i < |g[u]| && Leads(g, g[u][i], owner, k - 1);
      ReachesAnyway(g, owner, kids, g[u][i], k - 1);
      OneFurther(h, u, g[u][i], owner);
    }
  }

  lemma ReachesIff<T>(g: map<T, seq<T>>, owner: T, kids: seq<T>, u: T)
    requires owner in g
    ensures Reaches(g, u, owner) <==> Reaches(g[owner := kids], u, owner)
  {
    var h := g[owner := kids];
    assert h[owner := g[owner]] == g;
    if k: nat :| Leads(g, u, owner, k) { ReachesAnyway(g, owner, kids, u, k); }
    if k: nat :| Leads(h, u, owner, k) { ReachesAnyway(h, owner, g[owner], u, k); }
  }

  /** A node without edges closes no cycle. */
  lemma AcyclicGrow<T>(g: map<T, seq<T>>, x: T)
    requires Acyclic(g) && x !in g
    ensures Acyclic(g[x := []])
  {
    var h := g[x := []];
    forall u, k: nat | u in h && k > 0 ensures !Leads(h, u, u, k) {
      if Leads(h, u, u, k) {
        assert u != x;
        SameWay(g, x, u, u, k);
      }
    }
  }

  lemma {:induction false} SameWay<T>(g: map<T, seq<T>>, x: T, u: T, v: T, k: nat)
    requires x !in g && Leads(g[x := []], u, v, k)
    ensures Leads(g, u, v, k)
    decreases k
  {
    var h := g[x := []];
    if k > 0 {
      var i :| 0 <= i < |h[u]| && Leads(h, h[u][i], v, k - 1);
      SameWay(g, x, h[u][i], v, k - 1);
    }
  }

  /** From a set that no edge leaves nothing outside it is reached. */
  lemma {:induction false} StaysInside<T>(g: map<T, seq<T>>, within: set<T>, u: T, v: T, k: nat)
    requires u in within && (forall n | n in within && n in g :: Inside(g[n], within)) && Leads(g, u, v, k)
    ensures v in within
    decreases k
  {
    if k > 0 {
      var i :| 0 <= i < |g[u]| && Leads(g, g[u][i], v, k - 1);
      assert Inside(g[u], within);
      StaysInside(g, within, g[u][i], v, k - 1);
    }
  }

  /** The nodes that a node reaches. */
  ghost function Under<T>(g: map<T, seq<T>>, u: T): set<T> { set v | v in g.Keys && Reaches(g, u, v) }

  /** In an acyclic graph a successor reaches fewer nodes. */
  lemma UnderShrinks<T>(g: map<T, seq<T>>, u: T, w: T)
    requires Acyclic(g) && u in g && w in g[u]
    ensures Under(g, w) < Under(g, u)
  {
    forall v | v in Under(g, w) ensures v in Under(g, u) { OneFurther(g, u, w, v); }
    assert Leads(g, u, u, 0);
    assert u in Under(g, u);
    if Reaches(g, w, u) { ClosesCycle(g, u, w); }
  }
}
