/** What one pass of v_tokenize_expression makes of a token list: it cuts the list into pairs
    and single tokens, from the left. */
module TokenPieces {
  import opened Options
  import opened TokenRing

  /** The operators of two characters. */
  const OPERATORS: seq<(Kind, Kind, Kind, string)> := [
    (Colon, Colon, TwoColon, "::"), (Slash, Slash, TwoSlash, "//"), (Exclam, EqualSign, NotEqual, "!="),
    (LessThan, EqualSign, LessEqual, "<="), (GreaterThan, EqualSign, GreaterEqual, ">="), (Dot, Dot, TwoDot, "..")]

  predicate Operator(a: Kind, b: Kind, m: Lexeme) {
    exists i :: 0 <= i < 6 && OPERATORS[i] == (a, b, m.kind, m.text)
  }

  lemma OperatorIsMerge(a: Kind, b: Kind, m: Lexeme)
    ensures Operator(a, b, m) <==> Merge(a, b) == Some(m)
  {
    if Merge(a, b) == Some(m) {
      var i := match a case Colon => 0 case Slash => 1 case Exclam => 2 case LessThan => 3 case GreaterThan => 4 case _ => 5;
      assert OPERATORS[i] == (a, b, m.kind, m.text);
    }
  }

  predicate Apart(a: Kind, b: Kind) { forall i :: 0 <= i < 6 ==> OPERATORS[i].0 != a || OPERATORS[i].1 != b }

  lemma ApartIsNoMerge(a: Kind, b: Kind)
    ensures Apart(a, b) <==> Merge(a, b).None?
  {
    if Merge(a, b).Some? {
      OperatorIsMerge(a, b, Merge(a, b).value);
    } else {
      forall i | 0 <= i < 6 ensures OPERATORS[i].0 != a || OPERATORS[i].1 != b { RowMerges(i); }
    }
  }

  lemma RowMerges(i: nat)
    requires i < 6
    ensures Merge(OPERATORS[i].0, OPERATORS[i].1).Some?
  {
  }

  /** A piece of the list: a pair that makes an operator, or one token. */
  datatype Piece = Pair(left: Lexeme, right: Lexeme, merged: Lexeme) | Single(token: Lexeme)

  function Tokens(p: Piece): seq<Lexeme> { if p.Pair? then [p.left, p.right] else [p.token] }

  function First(p: Piece): Lexeme { if p.Pair? then p.left else p.token }

  function All(ps: seq<Piece>): seq<Lexeme> { if ps == [] then [] else Tokens(ps[0]) + All(ps[1..]) }

  /** Pairs make operators, and a single token makes none with the token behind it. */
  predicate FromTheLeft(ps: seq<Piece>) { forall i :: 0 <= i < |ps| ==> Cut(ps, i) }

  predicate Cut(ps: seq<Piece>, i: nat)
    requires i < |ps|
  {
    if ps[i].Pair? then Operator(ps[i].left.kind, ps[i].right.kind, ps[i].merged)
    else i + 1 < |ps| ==> Apart(ps[i].token.kind, First(ps[i + 1]).kind)
  }

  /** Spaces go, unless they end the list. */
  function Kept(ps: seq<Piece>): seq<Lexeme> {
    if ps == [] then []
    else
      (if ps[0].Pair? then [ps[0].merged] else if ps[0].token.kind == Space && |ps| > 1 then [] else [ps[0].token]) + Kept(ps[1..])
  }

  /** However a list is cut that way, the pass leaves what is kept. */
  lemma {:induction false} PassKeepsPieces(ps: seq<Piece>)
    requires FromTheLeft(ps)
    ensures Rewrite(All(ps)) == Kept(ps)
  {
    if ps != [] {
      var ts, rest := All(ps), All(ps[1..]);
      assert FromTheLeft(ps[1..]) by { assert forall i :: 0 <= i < |ps[1..]| ==> Cut(ps, i + 1) && ps[1..][i] == ps[i + 1]; }
      assert Cut(ps, 0);
      PassKeepsPieces(ps[1..]);
      if ps[0].Pair? {
        OperatorIsMerge(ps[0].left.kind, ps[0].right.kind, ps[0].merged);
        assert ts == [ps[0].left, ps[0].right] + rest;
        assert ts[2..] == rest;
      } else if |ps| == 1 {
        assert ts == [ps[0].token];
      } else {
        assert ts == [ps[0].token] + rest && ts[1..] == rest;
        FirstOfAll(ps[1..]);
        ApartIsNoMerge(ps[0].token.kind, First(ps[1]).kind);
      }
    }
  }

  lemma FirstOfAll(ps: seq<Piece>)
    requires ps != []
    ensures All(ps) != [] && All(ps)[0] == First(ps[0])
  {
  }

  function Pieces(ts: seq<Lexeme>): seq<Piece> {
    if ts == [] then []
    else if |ts| >= 2 && Merge(ts[0].kind, ts[1].kind).Some? then
      [Pair(ts[0], ts[1], Merge(ts[0].kind, ts[1].kind).value)] + Pieces(ts[2..])
    else [Single(ts[0])] + Pieces(ts[1..])
  }

  /** And every list can be cut that way. */
  lemma {:induction false} EveryListHasPieces(ts: seq<Lexeme>)
    ensures exists ps :: FromTheLeft(ps) && All(ps) == ts
  {
    PiecesOf(ts);
  }

  lemma {:induction false} PiecesOf(ts: seq<Lexeme>)
    ensures FromTheLeft(Pieces(ts)) && All(Pieces(ts)) == ts
    ensures ts != [] ==> Pieces(ts) != [] && First(Pieces(ts)[0]) == ts[0]
    decreases |ts|
  {
    if ts != [] {
      var pair := |ts| >= 2 && Merge(ts[0].kind, ts[1].kind).Some?;
      var tail := if pair then ts[2..] else ts[1..];
      PiecesOf(tail);
      if pair {
        var m := Merge(ts[0].kind, ts[1].kind).value;
        OperatorIsMerge(ts[0].kind, ts[1].kind, m);
        OneMorePiece(Pair(ts[0], ts[1], m), Pieces(tail));
        assert ts == [ts[0], ts[1]] + tail;
      } else {
        if |ts| > 1 { ApartIsNoMerge(ts[0].kind, ts[1].kind); }
        OneMorePiece(Single(ts[0]), Pieces(tail));
        assert ts == [ts[0]] + tail;
      }
    }
  }

  lemma {:induction false} OneMorePiece(p: Piece, ps: seq<Piece>)
    requires FromTheLeft(ps)
    requires if p.Pair? then Operator(p.left.kind, p.right.kind, p.merged) else ps != [] ==> Apart(p.token.kind, First(ps[0]).kind)
    ensures FromTheLeft([p] + ps) && All([p] + ps) == Tokens(p) + All(ps)
  {
    hide Operator, Apart;
    var qs := [p] + ps;
    assert qs[1..] == ps;
    forall i | 0 <= i < |qs| ensures Cut(qs, i) {
      if i > 0 { assert Cut(ps, i - 1) && qs[i] == ps[i - 1] && (i + 1 < |qs| ==> qs[i + 1] == ps[i]); }
    }
  }
}
