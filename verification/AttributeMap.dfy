/** Attribute lists as insertion-ordered maps from names to values, and what the iteration
    over them shows. */
module AttributeMap {
  import opened Rings

  datatype Pair = Pair(name: string, value: string)

  function Names(ps: seq<Pair>): (ns: seq<string>)
    ensures |ns| == |ps| && forall i {:trigger ns[i]} :: 0 <= i < |ps| ==> ns[i] == ps[i].name
  {
    if ps == [] then [] else [ps[0].name] + Names(ps[1..])
  }

  /** The map that a list of pairs with different names stands for. */
  ghost function AsMap(ps: seq<Pair>): map<string, string> {
    if ps == [] then map[] else AsMap(ps[1..])[ps[0].name := ps[0].value]
  }

  /** A map without one of its names. */
  ghost function Less(m: map<string, string>, name: string): map<string, string> {
    map n | n in m && n != name :: m[n]
  }

  /** Where a name stands, or the length of the list. */
  function Position(ps: seq<Pair>, name: string): (k: nat)
    ensures k <= |ps| && (k < |ps| ==> ps[k].name == name)
    ensures forall i :: 0 <= i < k ==> ps[i].name != name
  {
    if ps == [] || ps[0].name == name then 0 else 1 + Position(ps[1..], name)
  }

  /** SetAttribute on a list: overwrite in place, or append. */
  function Assign(ps: seq<Pair>, name: string, value: string): seq<Pair> {
    var k := Position(ps, name);
    if k < |ps| then ps[k := Pair(name, value)] else ps + [Pair(name, value)]
  }

  /** RemoveAttribute on a list. */
  function Drop(ps: seq<Pair>, name: string): seq<Pair> {
    var k := Position(ps, name);
    if k < |ps| then Without(ps, k) else ps
  }

  lemma {:induction false} AsMapAt(ps: seq<Pair>, k: nat)
    requires k < |ps| && Distinct(Names(ps))
    ensures ps[k].name in AsMap(ps) && AsMap(ps)[ps[k].name] == ps[k].value
  {
    if k > 0 {
      TailDistinct(ps);
      AsMapAt(ps[1..], k - 1);
      assert Names(ps)[0] != Names(ps)[k];
    }
  }

  lemma TailDistinct(ps: seq<Pair>)
    requires ps != [] && Distinct(Names(ps))
    ensures Distinct(Names(ps[1..]))
  {
    assert forall i :: 0 <= i < |ps[1..]| ==> Names(ps[1..])[i] == Names(ps)[i + 1];
  }

  lemma {:induction false} AsMapKeys(ps: seq<Pair>, name: string)
    ensures name in AsMap(ps) <==> Position(ps, name) < |ps|
    ensures name in AsMap(ps) <==> name in Names(ps)
  {
    if ps != [] { AsMapKeys(ps[1..], name); }
  }

  /** The lists with different names are determined by their map and their order of names. */
  lemma ListOfMap(ps: seq<Pair>, qs: seq<Pair>)
    requires Distinct(Names(ps)) && Names(ps) == Names(qs) && AsMap(ps) == AsMap(qs)
    ensures ps == qs
  {
    forall i | 0 <= i < |ps| ensures ps[i] == qs[i] {
      AsMapAt(ps, i);
      AsMapAt(qs, i);
      assert Names(ps)[i] == Names(qs)[i];
    }
  }

  /** SetAttribute is map update; a known name keeps its place, a new one goes last. */
  lemma AssignIsUpdate(ps: seq<Pair>, name: string, value: string)
    requires Distinct(Names(ps))
    ensures Distinct(Names(Assign(ps, name, value)))
    ensures AsMap(Assign(ps, name, value)) == AsMap(ps)[name := value]
    ensures Names(Assign(ps, name, value)) == if name in AsMap(ps) then Names(ps) else Names(ps) + [name]
  {
    hide Assign;
    AssignNames(ps, name, value);
    AsMapKeys(ps, name);
    var qs := Assign(ps, name, value);
    if name !in AsMap(ps) { AppendDistinct(Names(ps), name); }
    forall n ensures n in AsMap(qs) <==> n in AsMap(ps)[name := value] {
      AsMapKeys(qs, n);
      AsMapKeys(ps, n);
    }
    forall n | n in AsMap(qs) ensures AsMap(qs)[n] == AsMap(ps)[name := value][n] {
      AsMapKeys(qs, n);
      AsMapAt(qs, Position(qs, n));
      AssignAt(ps, name, value, Position(qs, n));
    }
  }

  lemma AssignNames(ps: seq<Pair>, name: string, value: string)
    ensures Names(Assign(ps, name, value)) == if Position(ps, name) < |ps| then Names(ps) else Names(ps) + [name]
  {
  }

  lemma AssignAt(ps: seq<Pair>, name: string, value: string, i: nat)
    requires Distinct(Names(ps)) && i < |Assign(ps, name, value)|
    ensures var p := Assign(ps, name, value)[i];
            if p.name == name then p.value == value else p.name in AsMap(ps) && AsMap(ps)[p.name] == p.value
  {
    var k := Position(ps, name);
    if i < |ps| && i != k {
      AsMapAt(ps, i);
      assert k < |ps| ==> Names(ps)[i] != Names(ps)[k];
    }
  }

  /** RemoveAttribute deletes one name from the map and keeps the order of the others. */
  lemma DropIsDelete(ps: seq<Pair>, name: string)
    requires Distinct(Names(ps))
    ensures Distinct(Names(Drop(ps, name)))
    ensures AsMap(Drop(ps, name)) == Less(AsMap(ps), name)
    ensures Names(Drop(ps, name)) == if name in AsMap(ps) then Without(Names(ps), Position(ps, name)) else Names(ps)
  {
    AsMapKeys(ps, name);
    var k := Position(ps, name);
    if k < |ps| {
      WithoutNames(ps, k);
      WithoutDistinct(Names(ps), k);
      WithoutMap(ps, k);
    } else {
      assert Less(AsMap(ps), name) == AsMap(ps);
    }
  }

  lemma WithoutNames(ps: seq<Pair>, k: nat)
    requires k < |ps|
    ensures Names(Without(ps, k)) == Without(Names(ps), k)
  {
    hide Names, Without;
    WithoutAt(ps, k);
    WithoutAt(Names(ps), k);
  }

  lemma {:induction false} WithoutMap(ps: seq<Pair>, k: nat)
    requires k < |ps| && Distinct(Names(ps))
    ensures AsMap(Without(ps, k)) == Less(AsMap(ps), ps[k].name)
  {
    hide AsMap, Without, Distinct;
    var qs, rest := Without(ps, k), Less(AsMap(ps), ps[k].name);
    forall n | n in AsMap(qs) ensures n in rest && AsMap(qs)[n] == rest[n] { WithoutKey(ps, k, n); }
    forall n | n in rest ensures n in AsMap(qs) { OtherKey(ps, k, n); }
  }

  lemma WithoutKey(ps: seq<Pair>, k: nat, n: string)
    requires k < |ps| && Distinct(Names(ps)) && n in AsMap(Without(ps, k))
    ensures n != ps[k].name && n in AsMap(ps) && AsMap(Without(ps, k))[n] == AsMap(ps)[n]
  {
    WithoutNames(ps, k);
    WithoutDistinct(Names(ps), k);
    hide AsMap, Without, Distinct, Names;
    var qs := Without(ps, k);
    AsMapKeys(qs, n);
    AsMapAt(qs, Position(qs, n));
    WithoutFrom(ps, k, Position(qs, n));
  }

  lemma OtherKey(ps: seq<Pair>, k: nat, n: string)
    requires k < |ps| && n in AsMap(ps) && n != ps[k].name
    ensures n in AsMap(Without(ps, k))
  {
    hide AsMap, Without, Names;
    AsMapKeys(ps, n);
    AsMapKeys(Without(ps, k), n);
    WithoutHolds(ps, k, Position(ps, n));
  }

  lemma WithoutFrom(ps: seq<Pair>, k: nat, i: nat)
    requires k < |ps| && Distinct(Names(ps)) && i < |Without(ps, k)|
    ensures var p := Without(ps, k)[i]; p.name != ps[k].name && p.name in AsMap(ps) && AsMap(ps)[p.name] == p.value
  {
    var j := if i < k then i else i + 1;
    AsMapAt(ps, j);
    assert Names(ps)[j] != Names(ps)[k];
  }

  lemma WithoutHolds(ps: seq<Pair>, k: nat, j: nat)
    requires k < |ps| && j < |ps| && j != k
    ensures ps[j].name in Names(Without(ps, k))
  {
    var qs := Without(ps, k);
    var i := if j < k then j else j - 1;
    assert qs[i] == ps[j];
    assert Names(qs)[i] == ps[j].name;
  }

  /** What First and Next show: Next takes any attribute without name and value for
      the sentinel and stops. */
  function Shown(ps: seq<Pair>): (r: seq<Pair>)
    ensures |r| <= |ps| && r == ps[..|r|] && (ps != [] ==> r != [])
  {
    if ps == [] then [] else [ps[0]] + UntilBlank(ps[1..])
  }

  function UntilBlank(ps: seq<Pair>): (r: seq<Pair>)
    ensures |r| <= |ps| && r == ps[..|r|]
    ensures forall i :: 0 <= i < |r| ==> r[i] != Pair("", "")
    ensures |r| < |ps| ==> ps[|r|] == Pair("", "")
  {
    if ps == [] || ps[0] == Pair("", "") then [] else [ps[0]] + UntilBlank(ps[1..])
  }

  /** Iteration shows every attribute exactly when none but the first lacks both name
      and value. */
  lemma ShowsAllIff(ps: seq<Pair>)
    ensures Shown(ps) == ps <==> forall i :: 1 <= i < |ps| ==> ps[i] != Pair("", "")
  {
    if ps != [] {
      var r := UntilBlank(ps[1..]);
      assert ps == [ps[0]] + ps[1..];
      assert forall i :: 1 <= i < |ps| ==> ps[i] == ps[1..][i - 1];
      if forall i :: 1 <= i < |ps| ==> ps[i] != Pair("", "") {
        if |r| < |ps[1..]| { assert ps[1..][|r|] == ps[|r| + 1]; }
      }
    }
  }

  /** Setting an attribute without name and value hides the attributes set after it. */
  lemma BlankHidesRest()
    ensures var ps := Assign(Assign(Assign([], "a", "1"), "", ""), "b", "2");
            |ps| == 3 && Shown(ps) == [Pair("a", "1")]
  {
    var p1 := [Pair("a", "1")];
    assert Assign([], "a", "1") == p1;
    var p2 := [Pair("a", "1"), Pair("", "")];
    assert Position(p1, "") == 1;
    assert Assign(p1, "", "") == p2;
    assert p2[1..] == [Pair("", "")];
    assert Position(p2[1..], "b") == 1;
    assert Assign(p2, "b", "2") == [Pair("a", "1"), Pair("", ""), Pair("b", "2")];
  }

  lemma ShownNext(ps: seq<Pair>, k: nat)
    requires 1 <= k <= |Shown(ps)|
    ensures k < |Shown(ps)| <==> k < |ps| && ps[k] != Pair("", "")
  {
    var r := UntilBlank(ps[1..]);
    assert Shown(ps)[1..] == r;
    if k < |Shown(ps)| { assert r[k - 1] == ps[k]; }
  }

  lemma {:induction false} FirstPosition(ps: seq<Pair>, name: string, k: nat)
    requires k <= |ps| && (k < |ps| ==> ps[k].name == name) && forall i :: 0 <= i < k ==> ps[i].name != name
    ensures k == Position(ps, name)
  {
  }
}
