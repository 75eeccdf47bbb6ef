/** TinyXPath's token list: a circular doubly linked ring with a null sentinel,
    and the pass of v_tokenize_expression that merges two-character operators
    and drops white space in place. */
module TokenRing {
  import opened Options
  import opened Rings

  datatype Kind =
    | Null | Colon | Slash | Exclam | LessThan | GreaterThan | Dot | EqualSign | Space
    | TwoColon | TwoSlash | NotEqual | LessEqual | GreaterEqual | TwoDot | Other(code: nat)

  /** A token as the analyser sees it. */
  datatype Lexeme = Lexeme(kind: Kind, text: string)

  // ------------------------------------------------------- specification

  /** The merges of v_tokenize_expression. */
  function Merge(a: Kind, b: Kind): Option<Lexeme> {
    match a
    case Colon => if b == Colon then Some(Lexeme(TwoColon, "::")) else None
    case Slash => if b == Slash then Some(Lexeme(TwoSlash, "//")) else None
    case Exclam => if b == EqualSign then Some(Lexeme(NotEqual, "!=")) else None
    case LessThan => if b == EqualSign then Some(Lexeme(LessEqual, "<=")) else None
    case GreaterThan => if b == EqualSign then Some(Lexeme(GreaterEqual, ">=")) else None
    case Dot => if b == Dot then Some(Lexeme(TwoDot, "..")) else None
    case _ => None
  }

  /** Greedy left-to-right merging with spaces dropped; a token with nothing
      behind it is left alone. */
  function Rewrite(ts: seq<Lexeme>): seq<Lexeme> {
    if |ts| <= 1 then ts
    else if Merge(ts[0].kind, ts[1].kind).Some? then [Merge(ts[0].kind, ts[1].kind).value] + Rewrite(ts[2..])
    else if ts[0].kind == Space then Rewrite(ts[1..])
    else [ts[0]] + Rewrite(ts[1..])
  }

  /** The text of a token list. */
  function Spelling(ts: seq<Lexeme>): string {
    if ts == [] then "" else ts[0].text + Spelling(ts[1..])
  }

  /** The list without its spaces, the last token being kept in any case. */
  function Solid(ts: seq<Lexeme>): seq<Lexeme> {
    if |ts| <= 1 then ts
    else if ts[0].kind == Space then Solid(ts[1..])
    else [ts[0]] + Solid(ts[1..])
  }

  /** What the lexer guarantees about the one-character tokens. */
  predicate Faithful(t: Lexeme) {
    match t.kind
    case Colon => t.text == ":"
    case Slash => t.text == "/"
    case Exclam => t.text == "!"
    case LessThan => t.text == "<"
    case GreaterThan => t.text == ">"
    case Dot => t.text == "."
    case EqualSign => t.text == "="
    case _ => true
  }

  /** Merging neither invents nor loses a character. */
  lemma {:induction false} RewriteKeepsText(ts: seq<Lexeme>)
    requires forall i :: 0 <= i < |ts| ==> Faithful(ts[i])
    ensures Spelling(Rewrite(ts)) == Spelling(Solid(ts))
    decreases |ts|
  {
    if |ts| >= 2 {
      var m := Merge(ts[0].kind, ts[1].kind);
      if m.Some? {
        RewriteKeepsText(ts[2..]);
        assert Faithful(ts[0]) && Faithful(ts[1]);
        MergedSpelling(ts);
      } else {
        RewriteKeepsText(ts[1..]);
      }
    }
  }

  lemma MergedSpelling(ts: seq<Lexeme>)
    requires |ts| >= 2 && Merge(ts[0].kind, ts[1].kind).Some? && Faithful(ts[0]) && Faithful(ts[1])
    ensures Spelling(Solid(ts)) == Merge(ts[0].kind, ts[1].kind).value.text + Spelling(Solid(ts[2..]))
  {
    hide Spelling, Solid, Merge, Faithful;
    MergedText(ts[0], ts[1]);
    TwoSolid(ts);
    TwoSpelling(ts[0], ts[1], Solid(ts[2..]));
  }

  lemma MergedText(a: Lexeme, b: Lexeme)
    requires Merge(a.kind, b.kind).Some? && Faithful(a) && Faithful(b)
    ensures a.text + b.text == Merge(a.kind, b.kind).value.text && a.kind != Space && b.kind != Space
  {
  }

  lemma TwoSolid(ts: seq<Lexeme>)
    requires |ts| >= 2 && ts[0].kind != Space && ts[1].kind != Space
    ensures Solid(ts) == [ts[0], ts[1]] + Solid(ts[2..])
  {
    if |ts| == 2 {
      assert ts[2..] == [] && ts[1..] == [ts[1]];
    } else {
      assert ts[1..][1..] == ts[2..];
    }
  }

  lemma TwoSpelling(a: Lexeme, b: Lexeme, rest: seq<Lexeme>)
    ensures Spelling([a, b] + rest) == a.text + b.text + Spelling(rest)
  {
    assert ([a, b] + rest)[1..] == [b] + rest && ([b] + rest)[1..] == rest;
  }

  /** No neighbours that the pass would merge, and no space but at the end. */
  predicate Settled(ts: seq<Lexeme>) {
    forall i :: 0 <= i < |ts| - 1 ==> Merge(ts[i].kind, ts[i + 1].kind).None? && ts[i].kind != Space
  }

  /** The list behind a token, without the spaces in front that have a successor. */
  function AfterSpaces(ts: seq<Lexeme>): (r: seq<Lexeme>)
    ensures |r| <= |ts| && (ts != [] ==> r != [])
  {
    if |ts| >= 2 && ts[0].kind == Space then AfterSpaces(ts[1..]) else ts
  }

  /** The first token is merged with the second. */
  predicate MergesFirst(ts: seq<Lexeme>) { |ts| >= 2 && Merge(ts[0].kind, ts[1].kind).Some? }

  /** Two tokens that the greedy pass leaves as they are, with nothing but spaces
      between them, would merge. */
  predicate LatePair(ts: seq<Lexeme>) {
    if |ts| <= 1 then false
    else if MergesFirst(ts) then LatePair(ts[2..])
    else
      || (ts[0].kind != Space && LateBehind(ts[0], AfterSpaces(ts[1..])))
      || LatePair(ts[1..])
  }

  /** The first token left of `rest` survives unmerged and would merge behind t. */
  predicate LateBehind(t: Lexeme, rest: seq<Lexeme>) {
    rest != [] && !MergesFirst(rest) && Merge(t.kind, rest[0].kind).Some?
  }

  /** The pass starts with the first token that is not a space or with a merged one. */
  lemma {:induction false} RewriteHead(ts: seq<Lexeme>)
    requires ts != []
    ensures Rewrite(ts) != []
    ensures var rest := AfterSpaces(ts);
            if MergesFirst(rest) then Rewrite(ts)[0] == Merge(rest[0].kind, rest[1].kind).value
            else Rewrite(ts)[0] == rest[0]
    decreases |ts|
  {
    if |ts| >= 2 && ts[0].kind == Space { RewriteHead(ts[1..]); }
  }

  /** A merged token merges with nothing, neither in front nor behind. */
  lemma MergedIsFinal(a: Kind, b: Kind, c: Kind)
    requires Merge(a, b).Some?
    ensures var m := Merge(a, b).value.kind; m != Space && Merge(m, c).None? && Merge(c, m).None?
  {
  }

  lemma Prepend(t: Lexeme, ts: seq<Lexeme>)
    requires t.kind != Space
    ensures Settled([t] + ts) <==> Settled(ts) && (ts != [] ==> Merge(t.kind, ts[0].kind).None?)
  {
    var us := [t] + ts;
    if Settled(us) {
      if ts != [] { assert us[0 + 1] == ts[0] && us[0] == t; }
      forall i | 0 <= i < |ts| - 1 ensures Merge(ts[i].kind, ts[i + 1].kind).None? && ts[i].kind != Space {
        assert us[i + 1] == ts[i] && us[i + 1 + 1] == ts[i + 1];
      }
    }
    if Settled(ts) && (ts != [] ==> Merge(t.kind, ts[0].kind).None?) {
      forall i | 0 <= i < |us| - 1 ensures Merge(us[i].kind, us[i + 1].kind).None? && us[i].kind != Space {
        if i > 0 { assert us[i] == ts[i - 1] && us[i + 1] == ts[i - 1 + 1]; }
      }
    }
  }

  /** A single pass leaves nothing to merge exactly when the list holds no late pair. */
  lemma {:induction false} SettledIff(ts: seq<Lexeme>)
    ensures Settled(Rewrite(ts)) <==> !LatePair(ts)
    decreases |ts|
  {
    hide Settled, AfterSpaces, Merge;
    if |ts| <= 1 {
      ShortIsSettled(ts);
    } else if MergesFirst(ts) {
      var m := Merge(ts[0].kind, ts[1].kind).value;
      SettledIff(ts[2..]);
      Prepend(m, Rewrite(ts[2..])) by { MergedIsFinal(ts[0].kind, ts[1].kind, Null); }
      if Rewrite(ts[2..]) != [] { MergedIsFinal(ts[0].kind, ts[1].kind, Rewrite(ts[2..])[0].kind); }
    } else if ts[0].kind == Space {
      SettledIff(ts[1..]);
    } else {
      SettledIff(ts[1..]);
      Prepend(ts[0], Rewrite(ts[1..]));
      RewriteHead(ts[1..]);
      var rest := AfterSpaces(ts[1..]);
      if MergesFirst(rest) { MergedIsFinal(rest[0].kind, rest[1].kind, ts[0].kind); }
    }
  }

  lemma ShortIsSettled(ts: seq<Lexeme>)
    requires |ts| <= 1
    ensures Settled(ts)
  {
  }

  /** A pass over a list changes nothing exactly when the list is settled. */
  lemma {:induction false} FixedIff(ts: seq<Lexeme>)
    ensures |Rewrite(ts)| <= |ts|
    ensures Rewrite(ts) == ts <==> Settled(ts)
    decreases |ts|
  {
    if |ts| >= 2 {
      assert ts == [ts[0]] + ts[1..];
      if MergesFirst(ts) {
        FixedIff(ts[2..]);
      } else {
        FixedIff(ts[1..]);
        if ts[0].kind != Space {
          Prepend(ts[0], ts[1..]);
          assert Rewrite(ts)[1..] == Rewrite(ts[1..]);
        } else {
          assert !Settled(ts);
        }
      }
    }
  }

  /** A second pass changes nothing exactly when the list held no late pair. */
  lemma SecondPassIff(ts: seq<Lexeme>)
    ensures Rewrite(Rewrite(ts)) == Rewrite(ts) <==> !LatePair(ts)
  {
    SettledIff(ts);
    FixedIff(Rewrite(ts));
  }

  /** Without spaces there is no late pair: one pass settles the list. */
  lemma RewriteSettles(ts: seq<Lexeme>)
    requires forall i :: 0 <= i < |ts| ==> ts[i].kind != Space
    ensures Settled(Rewrite(ts)) && Rewrite(Rewrite(ts)) == Rewrite(ts)
  {
    NoSpaceNoLatePair(ts);
    SettledIff(ts);
    SecondPassIff(ts);
  }

  lemma {:induction false} NoSpaceNoLatePair(ts: seq<Lexeme>)
    requires forall i :: 0 <= i < |ts| ==> ts[i].kind != Space
    ensures !LatePair(ts)
    decreases |ts|
  {
    if |ts| >= 2 {
      assert ts[1..][0].kind != Space;
      NoSpaceNoLatePair(if MergesFirst(ts) then ts[2..] else ts[1..]);
    }
  }

  /** A space between two tokens of a pair makes them a late pair: "< =" becomes "<="
      only in a second pass. */
  lemma SpacedPairMergesLate(a: Lexeme, space: Lexeme, b: Lexeme)
    requires Merge(a.kind, b.kind).Some? && space.kind == Space
    ensures LatePair([a, space, b])
    ensures Rewrite([a, space, b]) == [a, b] && Rewrite([a, b]) == [Merge(a.kind, b.kind).value]
  {
    var ts := [a, space, b];
    assert ts[1..] == [space, b] && [space, b][1..] == [b] && [a, b][2..] == [];
    assert Rewrite([space, b]) == Rewrite([b]) == [b];
    assert AfterSpaces([space, b]) == AfterSpaces([b]) == [b];
  }

  /** The pass merges the last two tokens, so the last token of the list is deleted. */
  predicate LastMerges(ts: seq<Lexeme>) {
    if |ts| <= 1 then false
    else if MergesFirst(ts) then |ts| == 2 || LastMerges(ts[2..])
    else LastMerges(ts[1..])
  }

  /** Two colons are merged and the second, the last token, is gone. */
  lemma TwoColonsLoseTheLast()
    ensures LastMerges([Lexeme(Colon, ":"), Lexeme(Colon, ":")])
  {
  }

  // ------------------------------------------------------------ the ring

  class LexToken {
    var kind: Kind
    var text: string
    var next: LexToken?
    var prev: LexToken?

    constructor (kind: Kind, text: string)
      ensures this.kind == kind && this.text == text
    {
      this.kind, this.text := kind, text;
      next, prev := null, null;
    }
  }

  /** The tokens of a stretch of the ring. */
  ghost function Content(nodes: seq<LexToken>): (ts: seq<Lexeme>)
    reads nodes
    ensures |ts| == |nodes|
    ensures forall i {:trigger ts[i]} :: 0 <= i < |nodes| ==> ts[i] == Lexeme(nodes[i].kind, nodes[i].text)
  {
    seq(|nodes|, i requires 0 <= i < |nodes| reads nodes => Lexeme(nodes[i].kind, nodes[i].text))
  }

  ghost function Nexts(nodes: seq<LexToken>): (ns: seq<LexToken?>)
    reads nodes
    ensures |ns| == |nodes| && forall i {:trigger ns[i]} :: 0 <= i < |nodes| ==> ns[i] == nodes[i].next
  {
    seq(|nodes|, i requires 0 <= i < |nodes| reads nodes => nodes[i].next)
  }

  ghost function Prevs(nodes: seq<LexToken>): (ps: seq<LexToken?>)
    reads nodes
    ensures |ps| == |nodes| && forall i {:trigger ps[i]} :: 0 <= i < |nodes| ==> ps[i] == nodes[i].prev
  {
    seq(|nodes|, i requires 0 <= i < |nodes| reads nodes => nodes[i].prev)
  }

  ghost predicate Linked(nodes: seq<LexToken>)
    reads nodes
  {
    Ring<LexToken?>(nodes, Nexts(nodes), Prevs(nodes))
  }

  lemma NextOf(nodes: seq<LexToken>, k: nat)
    requires Linked(nodes) && k < |nodes|
    ensures nodes[k].next == nodes[After(|nodes|, k)] && nodes[k].prev == nodes[Before(|nodes|, k)]
  {
    assert Nexts(nodes)[k] == nodes[k].next && Prevs(nodes)[k] == nodes[k].prev;
  }

  /** The successor of a node is another node. */
  lemma Neighbour(nodes: seq<LexToken>, k: nat)
    requires Distinct(nodes) && k + 1 < |nodes|
    ensures nodes[k] != nodes[k + 1]
  {
  }

  class TokenList {
    var first: LexToken
    var last: LexToken
    var current: LexToken?
    ghost var nodes: seq<LexToken>   // the sentinel and then the tokens

    ghost predicate Valid()
      reads this`first, this`nodes, nodes
    {
      && nodes != [] && nodes[0] == first && first.kind == Null
      && Distinct(nodes) && Linked(nodes)
      && (forall i :: 1 <= i < |nodes| ==> nodes[i].kind != Null)
    }

    /** The token list, without the sentinel. */
    ghost function Tokens(): (ts: seq<Lexeme>)
      requires Valid()
      reads this`first, this`nodes, nodes
      ensures |ts| == |nodes| - 1
    {
      Content(nodes[1..])
    }

    constructor ()
      ensures Valid() && Tokens() == [] && current == null && LastRight()
      ensures fresh(nodes)
    {
      var sentinel := new LexToken(Null, "");
      first, last, current, nodes := sentinel, sentinel, null, [sentinel];
      new;
      first.prev := first;
      first.next := first;
    }

    /** v_add_token: append before the sentinel. */
    method AddToken(kind: Kind, text: string)
      requires Valid() && LastRight() && kind != Null
      modifies this`last, this`nodes, nodes
      ensures Valid() && LastRight() && |nodes| == |old(nodes)| + 1
      ensures nodes[..|old(nodes)|] == old(nodes) && fresh(nodes[|old(nodes)|])
      ensures Tokens() == old(Tokens()) + [Lexeme(kind, text)]
    {
      hide Content, Ring;
      ghost var was, nexts, prevs := nodes, Nexts(nodes), Prevs(nodes);
      var added := new LexToken(kind, text);
      last.next := added;
      added.next := first;
      first.prev := added;
      added.prev := last;
      RingAppend(was, nexts, prevs, added);
      AppendDistinct(was, added);
      last := added;
      nodes := nodes + [added];
      assert Nexts(nodes) == nexts[|was| - 1 := added] + [first];
      assert Prevs(nodes) == prevs[0 := added] + [was[|was| - 1]];
      assert nodes[1..] == was[1..] + [added];
    }

    /** v_set_current_top: the first token, or null in an empty list. */
    method SetCurrentTop()
      requires Valid()
      modifies this`current
      ensures current == if |nodes| == 1 then null else nodes[1]
    {
      NextOf(nodes, 0);
      current := if first.next.kind == Null then null else first.next;
    }

    /** The current token is null or the one at index k. */
    ghost predicate Stands(k: nat)
      reads this`current, this`nodes
    {
      current == null || (1 <= k < |nodes| && current == nodes[k])
    }

    /** ltp_get (1): the successor of the current token, null at the end or without a
        current token. */
    method GetNext(ghost k: nat) returns (t: LexToken?)
      requires Valid() && Stands(k)
      ensures t == if current != null && k + 1 < |nodes| then nodes[k + 1] else null
    {
      if current == null { return null; }
      NextOf(nodes, k);
      t := current.next;
      if t.kind == Null { t := null; }
    }

    /** v_inc_current (1) */
    method IncCurrent(ghost k: nat)
      requires Valid() && Stands(k)
      modifies this`current
      ensures current == if old(current) != null && k + 1 < |nodes| then nodes[k + 1] else null
    {
      if current == null { return; }
      current := GetNext(k);
    }

    /** v_replace_current */
    method ReplaceCurrent(t: Lexeme, ghost k: nat)
      requires Valid() && 1 <= k < |nodes| && current == nodes[k] && t.kind != Null
      modifies current`kind, current`text
      ensures Valid() && Tokens() == old(Tokens())[k - 1 := t]
    {
      hide Ring, Content;
      ghost var nexts, prevs := Nexts(nodes), Prevs(nodes);
      current.kind := t.kind;
      current.text := t.text;
      assert Nexts(nodes) == nexts && Prevs(nodes) == prevs;
      assert forall i :: 0 <= i < |nodes| && i != k ==> nodes[i] != current;
      assert Tokens() == old(Tokens())[k - 1 := t];
    }

    /** Both deletions: the neighbours of the node at k are joined. */
    method Unlink(before: LexToken, after: LexToken, ghost k: nat)
      requires Valid() && 1 <= k < |nodes|
      requires before == nodes[k - 1] && after == nodes[After(|nodes|, k)]
      modifies this`nodes, before`next, after`prev
      ensures Valid() && nodes == Without(old(nodes), k)
      ensures Tokens() == old(Tokens())[..k - 1] + old(Tokens())[k..]
    {
      hide Content, Ring;
      ghost var was, nexts, prevs := nodes, Nexts(nodes), Prevs(nodes);
      RingWithout(was, nexts, prevs, k);
      WithoutDistinct(was, k);
      before.next := after;
      after.prev := before;
      ghost var nexts' := nexts[k - 1 := after];
      ghost var prevs' := prevs[After(|was|, k) := before];
      assert Nexts(was) == nexts' && Prevs(was) == prevs';
      nodes := Without(nodes, k);
      assert Nexts(nodes) == Without(nexts', k) && Prevs(nodes) == Without(prevs', k);
      assert forall i :: 0 <= i < |nodes| ==> nodes[i] == was[if i < k then i else i + 1];
      DeletedContent(k);
    }

    /** v_delete_next */
    method DeleteNext(ghost k: nat)
      requires Valid() && 1 <= k < |nodes| - 1 && current == nodes[k]
      modifies this`nodes, nodes
      ensures Valid() && nodes == Without(old(nodes), k + 1)
      ensures Tokens() == old(Tokens())[..k] + old(Tokens())[k + 1..]
    {
      NextOf(nodes, k);
      NextOf(nodes, k + 1);
      var dropped := current.next;
      Unlink(current, dropped.next, k + 1);
    }

    /** v_delete_current: the successor becomes current, which is the sentinel behind
        the last token. */
    method DeleteCurrent(ghost k: nat)
      requires Valid() && 1 <= k < |nodes| && current == nodes[k]
      modifies this`current, this`nodes, nodes
      ensures Valid() && nodes == Without(old(nodes), k) && current == nodes[if k < |nodes| then k else 0]
      ensures Tokens() == old(Tokens())[..k - 1] + old(Tokens())[k..]
    {
      NextOf(nodes, k);
      var dropped := current;
      Unlink(dropped.prev, dropped.next, k);
      current := dropped.next;
    }

    twostate lemma DeletedContent(k: nat)
      requires old(Valid()) && 1 <= k < |old(nodes)| && nodes == Without(old(nodes), k)
      requires forall n :: n in old(nodes) ==> n.kind == old(n.kind) && n.text == old(n.text)
      requires Valid()
      ensures Tokens() == old(Tokens())[..k - 1] + old(Tokens())[k..]
    {
      var ts, us := Tokens(), old(Tokens())[..k - 1] + old(Tokens())[k..];
      forall i | 0 <= i < |ts| ensures ts[i] == us[i] {
        assert nodes[1..][i] == old(nodes)[if i < k - 1 then i + 1 else i + 2];
      }
    }

    /** What the pass will have made of the list once it is through, when the
        tokens before index k are final. */
    ghost function Outlook(k: nat): seq<Lexeme>
      requires Valid() && 1 <= k <= |nodes|
      reads this`first, this`nodes, nodes
    {
      Tokens()[..k - 1] + Rewrite(Tokens()[k - 1..])
    }

    lemma OutlookEnds()
      requires Valid()
      ensures Outlook(1) == Rewrite(Tokens())
      ensures |nodes| > 1 ==> Outlook(|nodes| - 1) == Tokens()
      ensures |nodes| == 1 ==> Rewrite(Tokens()) == Tokens()
    {
      hide Content, Linked, Distinct;
      var ts := Tokens();
      assert ts[..0] + Rewrite(ts[0..]) == Rewrite(ts) by { assert ts[0..] == ts; }
      if |nodes| > 1 { assert ts[..|nodes| - 2] + ts[|nodes| - 2..] == ts; }
    }

    /** ltp_last points at the last token, or at the sentinel of an empty list. */
    ghost predicate LastRight()
      requires nodes != []
      reads this`last, this`nodes
    {
      last == nodes[|nodes| - 1]
    }

    /** ltp_last is right and will stay so, when the tokens before index k are final. */
    ghost predicate LastLasts(k: nat)
      requires Valid() && 1 <= k < |nodes|
      reads this`first, this`last, this`nodes, nodes
    {
      LastRight() && !LastMerges(Tokens()[k - 1..])
    }

    lemma LastEnds()
      requires Valid()
      ensures |nodes| == 1 ==> !LastMerges(Tokens())
      ensures |nodes| > 1 ==> (LastLasts(1) <==> LastRight() && !LastMerges(Tokens()))
      ensures |nodes| > 1 ==> (LastLasts(|nodes| - 1) <==> LastRight())
    {
      hide Content, Linked, Distinct;
      var ts := Tokens();
      assert ts[0..] == ts;
    }

    /** One turn of the switch, on a token that has a successor. */
    method Step(next: LexToken, ghost k: nat) returns (ghost k': nat)
      requires Valid() && 1 <= k < |nodes| - 1 && current == nodes[k] && next == nodes[k + 1]
      modifies this`current, this`nodes, nodes
      ensures Valid() && 1 <= k' < |nodes| && current == nodes[k'] && |nodes| - k' < |old(nodes)| - k
      ensures forall i :: 0 <= i < |nodes| ==> nodes[i] in old(nodes)
      ensures Outlook(k') == old(Outlook(k))
      ensures old(LastRight()) ==> LastLasts(k') == old(LastLasts(k)) && (LastRight() || k' == |nodes| - 1)
    {
      hide Content, Rewrite, Linked, Distinct, LastMerges;
      ghost var before := Tokens();
      Neighbour(nodes, k);
      LastStep(before, k);
      assert before[k - 1].kind == current.kind && before[k].kind == next.kind;
      var merged := Merge(current.kind, next.kind);
      k' := k;
      if merged.Some? {
        MergeStep(before, k);
        ReplaceCurrent(merged.value, k);
        DeleteNext(k);
      } else if current.kind == Space {
        SpaceStep(before, k);
        DeleteCurrent(k);
      } else {
        KeepStep(before, k);
        IncCurrent(k);
        k' := k + 1;
      }
    }

    /** v_tokenize_expression: for every ring, one pass leaves the greedy
        rewriting of its tokens in a ring that is still circular both ways. */
    method TokenizeExpression()
      requires Valid()
      modifies this`current, this`nodes, nodes
      ensures Valid() && Tokens() == Rewrite(old(Tokens()))
      ensures last == old(last)
      ensures old(LastRight()) ==> (LastRight() <==> !LastMerges(old(Tokens())))
      ensures forall i :: 0 <= i < |nodes| ==> nodes[i] in old(nodes)
    {
      hide Outlook, Tokens, Content, Linked, Distinct;
      OutlookEnds();
      LastEnds();
      SetCurrentTop();
      if current == null {
        return;
      }
      ghost var k := 1;
      var next := GetNext(k);
      while next != null
        invariant Valid() && 1 <= k < |nodes| && current == nodes[k]
        invariant next == if k + 1 < |nodes| then nodes[k + 1] else null
        invariant forall i :: 0 <= i < |nodes| ==> nodes[i] in old(nodes)
        invariant Outlook(k) == Rewrite(old(Tokens()))
        invariant old(LastRight()) ==> LastLasts(k) == !LastMerges(old(Tokens())) && (LastRight() || k == |nodes| - 1)
        decreases |nodes| - k
      {
        k := Step(next, k);
        next := GetNext(k);
      }
      OutlookEnds();
      LastEnds();
    }
  }

  // One turn of the loop, on token lists.

  lemma MergeStep(ts: seq<Lexeme>, k: nat)
    requires 1 <= k < |ts| && Merge(ts[k - 1].kind, ts[k].kind).Some?
    ensures var m := Merge(ts[k - 1].kind, ts[k].kind).value;
            var us := ts[k - 1 := m][..k] + ts[k - 1 := m][k + 1..];
            ts[..k - 1] + Rewrite(ts[k - 1..]) == us[..k - 1] + Rewrite(us[k - 1..])
  {
    var m := Merge(ts[k - 1].kind, ts[k].kind).value;
    var us := ts[k - 1 := m][..k] + ts[k - 1 := m][k + 1..];
    var rest := ts[k + 1..];
    assert ts[k - 1..][2..] == rest;
    assert us[k - 1..] == [m] + rest && us[..k - 1] == ts[..k - 1];
    MergedHead(m, rest);
  }

  /** A merged token never merges again. */
  lemma MergedHead(m: Lexeme, rest: seq<Lexeme>)
    requires m.kind != Space && forall b :: Merge(m.kind, b).None?
    ensures Rewrite([m] + rest) == [m] + Rewrite(rest)
  {
    assert ([m] + rest)[1..] == rest;
  }

  /** A turn makes no difference to whether the last token will be deleted, except that
      merging the last two tokens deletes it. */
  lemma LastStep(ts: seq<Lexeme>, k: nat)
    requires 1 <= k < |ts|
    ensures var merged := Merge(ts[k - 1].kind, ts[k].kind);
            if merged.Some? then
              var us := ts[k - 1 := merged.value][..k] + ts[k - 1 := merged.value][k + 1..];
              LastMerges(ts[k - 1..]) == (k + 1 == |ts| || LastMerges(us[k - 1..]))
            else if ts[k - 1].kind == Space then
              LastMerges(ts[k - 1..]) == LastMerges((ts[..k - 1] + ts[k..])[k - 1..])
            else LastMerges(ts[k - 1..]) == LastMerges(ts[k..])
  {
    var merged := Merge(ts[k - 1].kind, ts[k].kind);
    assert ts[k - 1..][1..] == ts[k..] && ts[k - 1..][2..] == ts[k + 1..];
    if merged.Some? {
      var us := ts[k - 1 := merged.value][..k] + ts[k - 1 := merged.value][k + 1..];
      assert us[k - 1..] == [merged.value] + ts[k + 1..];
      assert us[k - 1..][1..] == ts[k + 1..];
      if k + 1 < |ts| { MergedIsFinal(ts[k - 1].kind, ts[k].kind, ts[k + 1].kind); }
    } else if ts[k - 1].kind == Space {
      assert (ts[..k - 1] + ts[k..])[k - 1..] == ts[k..];
    }
  }

  lemma SpaceStep(ts: seq<Lexeme>, k: nat)
    requires 1 <= k < |ts| && ts[k - 1].kind == Space
    ensures var us := ts[..k - 1] + ts[k..];
            ts[..k - 1] + Rewrite(ts[k - 1..]) == us[..k - 1] + Rewrite(us[k - 1..])
  {
    var us := ts[..k - 1] + ts[k..];
    assert ts[k - 1..][1..] == ts[k..] && us[k - 1..] == ts[k..] && us[..k - 1] == ts[..k - 1];
  }

  lemma KeepStep(ts: seq<Lexeme>, k: nat)
    requires 1 <= k < |ts| && ts[k - 1].kind != Space && Merge(ts[k - 1].kind, ts[k].kind).None?
    ensures ts[..k - 1] + Rewrite(ts[k - 1..]) == ts[..k] + Rewrite(ts[k..])
  {
    KeepHead(ts[k - 1..]);
    hide Rewrite, Merge;
    assert ts[k - 1..][1..] == ts[k..];
    var rest := Rewrite(ts[k..]);
    assert ts[..k - 1] + ([ts[k - 1]] + rest) == ts[..k] + rest;
  }

  lemma KeepHead(ts: seq<Lexeme>)
    requires |ts| >= 2 && ts[0].kind != Space && Merge(ts[0].kind, ts[1].kind).None?
    ensures Rewrite(ts) == [ts[0]] + Rewrite(ts[1..])
  {
  }
}
