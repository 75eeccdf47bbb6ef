/** What TinyXML's nodes look like as values, and what Clone makes of them. */
module DomShapes {
  import opened AttributeMap
  import opened Rings

  datatype Kind = Document | Element | Comment | Unknown | Text | Declaration

  /** A node with everything below it. */
  datatype Shape = Shape(kind: Kind, value: string, attributes: seq<Pair>, kids: seq<Shape>)

  /** CopyTo: an element's attributes are set one by one on the copy, in the order in
      which iteration shows them; an element's and a document's children are cloned and
      linked; the other kinds copy their value only. */
  function Copied(s: Shape): (c: Shape)
    ensures c.kind == s.kind && c.value == s.value
  {
    Shape(s.kind, s.value,
          if s.kind.Element? then AssignAll([], Shown(s.attributes)) else [],
          if HasKids(s.kind) then CopiedAll(s.kids) else [])
  }

  predicate HasKids(kind: Kind) { kind.Element? || kind.Document? }

  /** LinkEndChild refuses a document. */
  function CopiedAll(ss: seq<Shape>): seq<Shape> {
    if ss == [] then []
    else
      var front, last := ss[..|ss| - 1], ss[|ss| - 1];
      CopiedAll(front) + (if last.kind.Document? then [] else [Copied(last)])
  }

  function AssignAll(ps: seq<Pair>, more: seq<Pair>): seq<Pair>
    decreases |more|
  {
    if more == [] then ps
    else Assign(AssignAll(ps, more[..|more| - 1]), more[|more| - 1].name, more[|more| - 1].value)
  }

  lemma AssignAllNext(ps: seq<Pair>, i: nat)
    requires i <= |ps|
    ensures i == 0 ==> AssignAll([], ps[..i]) == []
    ensures i < |ps| ==> AssignAll([], ps[..i + 1]) == Assign(AssignAll([], ps[..i]), ps[i].name, ps[i].value)
  {
    if i < |ps| { assert ps[..i + 1][..i] == ps[..i] && ps[..i + 1][i] == ps[i]; }
  }

  /** Attribute names differ within every element, as in any attribute set. */
  ghost predicate WellNamed(s: Shape) {
    (s.kind.Element? ==> Distinct(Names(s.attributes))) && forall i :: 0 <= i < |s.kids| ==> WellNamed(s.kids[i])
  }

  /** A tree that Clone copies whole: no attribute hidden behind a blank one, attributes on
      elements only, children only where they are copied, and no document among them. */
  ghost predicate Faithful(s: Shape) {
    && (if s.kind.Element? then Shown(s.attributes) == s.attributes else s.attributes == [])
    && (s.kind.Element? || s.kind.Document? || s.kids == [])
    && forall i :: 0 <= i < |s.kids| ==> !s.kids[i].kind.Document? && Faithful(s.kids[i])
  }

  lemma {:induction false} AssignAllNew(ps: seq<Pair>)
    requires Distinct(Names(ps))
    ensures AssignAll([], ps) == ps
    decreases |ps|
  {
    hide Names;
    if ps != [] {
      var front, last := ps[..|ps| - 1], ps[|ps| - 1];
      PrefixNames(ps, |ps| - 1);
      AssignAllNew(front);
      NewName(ps);
      assert ps == front + [last];
    }
  }

  lemma NewName(ps: seq<Pair>)
    requires ps != [] && Distinct(Names(ps))
    ensures var front := ps[..|ps| - 1]; Position(front, ps[|ps| - 1].name) == |front|
  {
    hide Names;
    var front, last := ps[..|ps| - 1], ps[|ps| - 1];
    forall i | 0 <= i < |front| ensures front[i].name != last.name {
      assert Names(ps)[i] == front[i].name && Names(ps)[|ps| - 1] == last.name;
    }
  }

  lemma PrefixNames(ps: seq<Pair>, n: nat)
    requires n <= |ps| && Distinct(Names(ps))
    ensures Distinct(Names(ps[..n]))
  {
    hide Names;
    var ns := Names(ps[..n]);
    forall i, j | 0 <= i < j < n ensures ns[i] != ns[j] {
      assert ns[i] == ps[..n][i].name == Names(ps)[i] && ns[j] == ps[..n][j].name == Names(ps)[j];
    }
  }

  /** The copy of an element has the attributes that iteration shows. */
  lemma CopiedAttributes(s: Shape)
    requires WellNamed(s) && s.kind.Element?
    ensures Copied(s).attributes == Shown(s.attributes)
  {
    PrefixNames(s.attributes, |Shown(s.attributes)|);
    AssignAllNew(Shown(s.attributes));
  }

  /** A clone is the same tree exactly when the original is one that is copied whole. */
  lemma {:induction false} CopiedIff(s: Shape)
    requires WellNamed(s)
    ensures Copied(s) == s <==> Faithful(s)
    decreases s, 1
  {
    if s.kind.Element? { CopiedAttributes(s); }
    CopiedAllIff(s, |s.kids|);
    assert s.kids[..|s.kids|] == s.kids;
    hide CopiedAll, AssignAll, Shown;
  }

  ghost predicate GoodKids(s: Shape, n: nat)
    requires n <= |s.kids|
  {
    forall i :: 0 <= i < n ==> !s.kids[i].kind.Document? && Faithful(s.kids[i])
  }

  lemma {:induction false} CopiedAllIff(s: Shape, n: nat)
    requires WellNamed(s) && n <= |s.kids|
    ensures |CopiedAll(s.kids[..n])| <= n
    ensures CopiedAll(s.kids[..n]) == s.kids[..n] <==> GoodKids(s, n)
    decreases s, 0, n
  {
    hide Copied, Faithful, Shown, AssignAll;
    if n > 0 {
      CopiedAllIff(s, n - 1);
      CopiedIff(s.kids[n - 1]);
      OneMoreKid(s, n - 1);
    }
  }

  lemma OneMoreKid(s: Shape, n: nat)
    requires n < |s.kids| && |CopiedAll(s.kids[..n])| <= n
    requires CopiedAll(s.kids[..n]) == s.kids[..n] <==> GoodKids(s, n)
    requires Copied(s.kids[n]) == s.kids[n] <==> Faithful(s.kids[n])
    ensures |CopiedAll(s.kids[..n + 1])| <= n + 1
    ensures CopiedAll(s.kids[..n + 1]) == s.kids[..n + 1] <==> GoodKids(s, n + 1)
  {
    hide Copied, Faithful;
    var ss, last := s.kids[..n + 1], s.kids[n];
    assert ss[..n] == s.kids[..n] && ss[n] == last;
    var front, tail := CopiedAll(s.kids[..n]), if last.kind.Document? then [] else [Copied(last)];
    assert CopiedAll(ss) == front + tail;
    assert GoodKids(s, n + 1) <==> GoodKids(s, n) && !last.kind.Document? && Faithful(last);
    hide CopiedAll, GoodKids;
    assert ss == s.kids[..n] + [last];
    FrontTail(front, tail, s.kids[..n], last);
  }

  lemma FrontTail<T>(front: seq<T>, tail: seq<T>, a: seq<T>, x: T)
    requires |front| <= |a| && |tail| <= 1
    ensures front + tail == a + [x] <==> front == a && tail == [x]
  {
    if front + tail == a + [x] {
      assert |front| == |a| && front == (front + tail)[..|a|] && tail == (front + tail)[|a|..];
    }
  }
}
