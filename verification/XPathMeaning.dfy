/** What the operators of section 3 of XPath 1.0 leave on the result stack, stated on the
    rules and sub-rules of the tape and on runs of the operands' own tapes. */
module XPathMeaning {
  import opened Options
  import opened XPathTape

  // --------------------------------------------------------------- running

  function Run(lib: Library, t: Node): Outcome {
    Exec(lib, Tape(t), |Tape(t)| - 1, [], t.action.rule, false)
  }

  /** The tape of a tree, run on its own, is used up and leaves one value. */
  ghost predicate Yields(lib: Library, t: Node, v: Value) { Run(lib, t) == Done(-1, [v]) }

  ghost predicate Fails(lib: Library, t: Node) { Run(lib, t) == Thrown }

  lemma RunIsEval(lib: Library, t: Node)
    requires Shaped(t)
    ensures Run(lib, t) == match Eval(lib, Abstract(t)) case None => Thrown case Some(v) => Done(-1, [v])
  {
    hide Tape, Exec, Shaped, Abstract, Eval;
    assert Tape(t)[0..0 + |Tape(t)|] == Tape(t);
    ExecIsEval(lib, t, Tape(t), 0, []);
    assert forall v: Value :: [] + [v] == [v];
  }

  lemma YieldsIff(lib: Library, t: Node, v: Value)
    requires Shaped(t)
    ensures Yields(lib, t, v) <==> Eval(lib, Abstract(t)) == Some(v)
    ensures Fails(lib, t) <==> Eval(lib, Abstract(t)) == None
  {
    RunIsEval(lib, t);
    hide Run, Shaped, Abstract, Eval;
    var e := Eval(lib, Abstract(t));
    if e.Some? && [e.value] == [v] { assert [e.value][0] == [v][0]; }
  }

  /** Every tree yields one value or fails, and does the same wherever its tape stands and
      whatever is on the stack. */
  lemma RunsAnywhere(lib: Library, t: Node, tape: seq<Action>, p: nat, stack: seq<Value>)
    requires Shaped(t) && At(tape, p, Tape(t))
    ensures Fails(lib, t) || exists v :: Yields(lib, t, v)
    ensures var o := Exec(lib, tape, p + |Tape(t)| - 1, stack, t.action.rule, false);
            && (Fails(lib, t) ==> o == Thrown)
            && (forall v :: Yields(lib, t, v) ==> o == Done(p - 1, stack + [v]))
  {
    RunIsEval(lib, t);
    hide Run, Shaped, Abstract, Eval, Tape, Exec, At;
    ExecIsEval(lib, t, tape, p, stack);
    var e := Eval(lib, Abstract(t));
    if e.Some? {
      YieldsIff(lib, t, e.value);
      forall v | Yields(lib, t, v) ensures v == e.value { YieldsIff(lib, t, v); }
    }
  }

  // --------------------------------------------------------------- grammar

  /** Productions [21] to [27] of XPath 1.0, and [15], [18] to [20] as far as they lead to
      numbers, literals, calls and parentheses.  Sums and disjunctions of three or more have
      the longer operand on the left. */
  function Parts(rule: Rule, sub: Sub): Option<seq<Rule>> {
    match (rule, sub)
    case (OrExpr, Simple) => Some([AndExpr])
    case (OrExpr, Or) => Some([AndExpr, AndExpr])
    case (OrExpr, OrMore) => Some([OrExpr, AndExpr])
    case (AndExpr, Simple) => Some([EqualityExpr])
    case (AndExpr, And) => Some([EqualityExpr, EqualityExpr])
    case (EqualityExpr, Simple) => Some([RelationalExpr])
    case (EqualityExpr, Equal) => Some([RelationalExpr, RelationalExpr])
    case (EqualityExpr, NotEqual) => Some([RelationalExpr, RelationalExpr])
    case (RelationalExpr, Simple) => Some([AdditiveExpr])
    case (RelationalExpr, Lt) => Some([AdditiveExpr, AdditiveExpr])
    case (RelationalExpr, Gt) => Some([AdditiveExpr, AdditiveExpr])
    case (RelationalExpr, Lte) => Some([AdditiveExpr, AdditiveExpr])
    case (RelationalExpr, Gte) => Some([AdditiveExpr, AdditiveExpr])
    case (AdditiveExpr, Simple) => Some([MultiplicativeExpr])
    case (AdditiveExpr, Plus) => Some([MultiplicativeExpr, MultiplicativeExpr])
    case (AdditiveExpr, Minus) => Some([MultiplicativeExpr, MultiplicativeExpr])
    case (AdditiveExpr, MorePlus) => Some([AdditiveExpr, MultiplicativeExpr])
    case (AdditiveExpr, MoreMinus) => Some([AdditiveExpr, MultiplicativeExpr])
    case (MultiplicativeExpr, Simple) => Some([UnaryExpr])
    case (MultiplicativeExpr, Star) => Some([UnaryExpr, UnaryExpr])
    case (MultiplicativeExpr, Div) => Some([UnaryExpr, UnaryExpr])
    case (MultiplicativeExpr, Mod) => Some([UnaryExpr, UnaryExpr])
    case (UnaryExpr, Simple) => Some([UnionExpr])
    case (UnaryExpr, Opposite) => Some([UnaryExpr])
    case (UnionExpr, Simple) => Some([PathExpr])
    case (PathExpr, Filter) => Some([FilterExpr])
    case (FilterExpr, Primary) => Some([PrimaryExpr])
    case (PrimaryExpr, Paren) => Some([Expr])
    case (PrimaryExpr, Function) => Some([FunctionCall])
    case (PrimaryExpr, LiteralText) => Some([])
    case (PrimaryExpr, NumberText) => Some([])
    case _ => None
  }

  predicate Produces(t: Node, parts: seq<Rule>) {
    |parts| == |t.kids| && forall i :: 0 <= i < |parts| ==> t.kids[i].action.rule == parts[i] && Shaped(t.kids[i])
  }

  predicate Expression(rule: Rule) {
    rule !in {Expr, Argument, FunctionCall, QName, LocalPart, Prefix}
  }

  lemma PartsCases(a: Action)
    requires Expression(a.rule)
    ensures Parts(a.rule, a.sub) ==
            if Unit(a).Some? then Some([Unit(a).value])
            else if Operator(a).Some? then Some([Operator(a).value.left, Operator(a).value.right])
            else if a.rule == UnaryExpr && a.sub == Opposite then Some([UnaryExpr])
            else if a.rule == PrimaryExpr && (a.sub == LiteralText || a.sub == NumberText) then Some([])
            else None
    ensures Operator(a).Some? ==> Unit(a).None?
  {
  }

  /** The trees are exactly those of the productions. */
  lemma {:induction false} ShapedIsGrammar(t: Node)
    requires Expression(t.action.rule)
    ensures Shaped(t) <==> Parts(t.action.rule, t.action.sub).Some? && Produces(t, Parts(t.action.rule, t.action.sub).value)
  {
    PartsCases(t.action);
    hide NameShaped, Unit, Operator, Parts;
  }

  // ----------------------------------------------------------- conversions

  /** What a value is as an int: a double loses its fraction. */
  ghost predicate AsInt(lib: Library, v: Value, i: int) {
    match v
    case VInt(j) => i == j
    case VBool(b) => i == if b then 1 else 0
    case VText(s) => i == lib.atoi(s)
    case VReal(r) => WholePart(r, i)
  }

  ghost predicate WholePart(r: real, i: int) {
    if r >= 0.0 then i as real <= r < i as real + 1.0 else i as real - 1.0 < r <= i as real
  }

  ghost predicate AsReal(lib: Library, v: Value, x: real) {
    match v
    case VInt(j) => x == j as real
    case VBool(b) => x == if b then 1.0 else 0.0
    case VText(s) => x == lib.atof(s)
    case VReal(r) => x == r
  }

  /** The code takes a double for true when it is zero. */
  ghost predicate AsBool(v: Value, b: bool) {
    match v
    case VInt(j) => b <==> j != 0
    case VBool(c) => b <==> c
    case VText(s) => b <==> s != ""
    case VReal(r) => b <==> r == 0.0
  }

  ghost predicate AsText(lib: Library, v: Value, s: string) {
    match v
    case VInt(j) => s == lib.intText(j)
    case VBool(b) => s == if b then "true" else "false"
    case VText(t) => s == t
    case VReal(r) => s == lib.realText(r)
  }

  lemma WholePartIs(r: real)
    ensures WholePart(r, Truncate(r))
    ensures forall i :: WholePart(r, i) ==> i == Truncate(r)
  {
  }

  lemma Conversions(lib: Library, v: Value)
    ensures forall i :: AsInt(lib, v, i) <==> i == GetInt(lib, v)
    ensures forall x :: AsReal(lib, v, x) <==> x == GetReal(lib, v)
    ensures forall b :: AsBool(v, b) <==> b == GetBool(v)
    ensures forall s :: AsText(lib, v, s) <==> s == GetText(lib, v)
  {
    if v.VReal? { WholePartIs(v.r); }
    hide Truncate, WholePart;
  }

  // ------------------------------------------------------------- operators

  /** A tree of an operator whose operands, on their own, yield a and b. */
  ghost predicate Operands(lib: Library, t: Node, a: Value, b: Value) {
    Shaped(t) && |t.kids| == 2 && Expression(t.action.rule) && Yields(lib, t.kids[0], a) && Yields(lib, t.kids[1], b)
  }

  /** What such a tree yields, through the operator functions. */
  lemma OperandsCombine(lib: Library, t: Node, a: Value, b: Value)
    requires Operands(lib, t, a, b)
    ensures Parts(t.action.rule, t.action.sub).Some? && Operator(t.action).Some?
    ensures forall v :: Yields(lib, t, v) <==> Combine(lib, Operator(t.action).value.op, a, b) == Some(v)
    ensures Fails(lib, t) <==> Combine(lib, Operator(t.action).value.op, a, b) == None
  {
    ShapedIsGrammar(t);
    PartsCases(t.action);
    InfixShape(t);
    YieldsIff(lib, t.kids[0], a);
    YieldsIff(lib, t.kids[1], b);
    forall v ensures Yields(lib, t, v) <==> Eval(lib, Abstract(t)) == Some(v) { YieldsIff(lib, t, v); }
    YieldsIff(lib, t, a);
    hide Yields, Fails, Shaped, Abstract, Operator, Parts, Combine, Minuses, MinusesAll, Produces;
  }

  predicate Floating(a: Value, b: Value) { a.VReal? || b.VReal? }

  /** The operands as ints and as doubles. */
  ghost predicate Numbers(lib: Library, a: Value, b: Value, i: int, j: int, x: real, y: real) {
    AsInt(lib, a, i) && AsInt(lib, b, j) && AsReal(lib, a, x) && AsReal(lib, b, y)
  }

  lemma NumbersAre(lib: Library, a: Value, b: Value, i: int, j: int, x: real, y: real)
    requires Numbers(lib, a, b, i, j, x, y)
    ensures i == GetInt(lib, a) && j == GetInt(lib, b) && x == GetReal(lib, a) && y == GetReal(lib, b)
  {
    Conversions(lib, a);
    Conversions(lib, b);
  }

  /** <, >, <= and >= compare doubles when one of the operands is a double, else ints. */
  lemma Relations(lib: Library, t: Node, a: Value, b: Value, i: int, j: int, x: real, y: real)
    requires Operands(lib, t, a, b) && t.action.rule == RelationalExpr && Numbers(lib, a, b, i, j, x, y)
    ensures t.action.sub == Lt ==> Yields(lib, t, VBool(if Floating(a, b) then x < y else i < j))
    ensures t.action.sub == Gt ==> Yields(lib, t, VBool(if Floating(a, b) then x > y else i > j))
    ensures t.action.sub == Lte ==> Yields(lib, t, VBool(if Floating(a, b) then x <= y else i <= j))
    ensures t.action.sub == Gte ==> Yields(lib, t, VBool(if Floating(a, b) then x >= y else i >= j))
    ensures t.action.sub in {Lt, Gt, Lte, Gte}
  {
    NumbersAre(lib, a, b, i, j, x, y);
    OperandsCombine(lib, t, a, b);
    hide Yields, Fails, Operands, GetInt, GetReal;
  }

  lemma SumIs(lib: Library, a: Value, b: Value)
    ensures Combine(lib, OpPlus, a, b) ==
            Some(if Floating(a, b) then VReal(GetReal(lib, a) + GetReal(lib, b)) else VInt(GetInt(lib, a) + GetInt(lib, b)))
    ensures Combine(lib, OpMinus, a, b) ==
            Some(if Floating(a, b) then VReal(GetReal(lib, a) - GetReal(lib, b)) else VInt(GetInt(lib, a) - GetInt(lib, b)))
  {
    hide GetInt, GetReal;
  }

  /** +, - and their chains. */
  lemma Arithmetic(lib: Library, t: Node, a: Value, b: Value, i: int, j: int, x: real, y: real)
    requires Operands(lib, t, a, b) && Numbers(lib, a, b, i, j, x, y)
    requires t.action.rule == AdditiveExpr
    ensures t.action.sub in {Plus, MorePlus} ==> Yields(lib, t, if Floating(a, b) then VReal(x + y) else VInt(i + j))
    ensures t.action.sub in {Minus, MoreMinus} ==> Yields(lib, t, if Floating(a, b) then VReal(x - y) else VInt(i - j))
    ensures t.action.sub in {Plus, MorePlus, Minus, MoreMinus}
  {
    hide *;
    NumbersAre(lib, a, b, i, j, x, y);
    OperandsCombine(lib, t, a, b);
    OperatorOf(t.action);
    SumIs(lib, a, b);
  }

  /** The operators of sums and products by their sub-rules. */
  lemma OperatorOf(a: Action)
    requires Operator(a).Some?
    ensures a.rule == AdditiveExpr && a.sub in {Plus, MorePlus} ==> Operator(a).value.op == OpPlus
    ensures a.rule == AdditiveExpr && a.sub in {Minus, MoreMinus} ==> Operator(a).value.op == OpMinus
    ensures a.rule == AdditiveExpr ==> a.sub in {Plus, MorePlus, Minus, MoreMinus}
    ensures a.rule == MultiplicativeExpr && a.sub == Star ==> Operator(a).value.op == OpStar
  {
  }

  lemma Product(lib: Library, t: Node, a: Value, b: Value, i: int, j: int, x: real, y: real)
    requires Operands(lib, t, a, b) && Numbers(lib, a, b, i, j, x, y)
    requires t.action.rule == MultiplicativeExpr && t.action.sub == Star
    ensures Yields(lib, t, if Floating(a, b) then VReal(x * y) else VInt(i * j))
  {
    hide *;
    NumbersAre(lib, a, b, i, j, x, y);
    OperandsCombine(lib, t, a, b);
    OperatorOf(t.action);
    TimesIs(lib, a, b);
    var v := Combine(lib, OpStar, a, b).value;
    assert Yields(lib, t, v);
    SameProduct(v, Floating(a, b), x * y, i * j);
  }

  lemma SameProduct(v: Value, floating: bool, p: real, k: int)
    requires if floating then v.VReal? && v.r == p else v == VInt(k)
    ensures v == if floating then VReal(p) else VInt(k)
  {
  }

  lemma TimesIs(lib: Library, a: Value, b: Value)
    ensures var c := Combine(lib, OpStar, a, b);
            && c.Some?
            && (if Floating(a, b) then c.value.VReal? && c.value.r == GetReal(lib, a) * GetReal(lib, b)
                else c.value == VInt(GetInt(lib, a) * GetInt(lib, b)))
  {
    hide GetInt, GetReal;
  }

  /** div always divides doubles, and throws within a millionth of zero. */
  lemma Division(lib: Library, t: Node, a: Value, b: Value, x: real, y: real)
    requires Operands(lib, t, a, b) && t.action.rule == MultiplicativeExpr && t.action.sub == Div
    requires AsReal(lib, a, x) && AsReal(lib, b, y)
    ensures if -0.000001 < y < 0.000001 then Fails(lib, t) else exists q: real :: q * y == x && Yields(lib, t, VReal(q))
  {
    Conversions(lib, a);
    Conversions(lib, b);
    OperandsCombine(lib, t, a, b);
    hide Yields, Fails, Operands, GetReal, AsReal;
    if !(-0.000001 < y < 0.000001) { assert (x / y) * y == x; }
  }

  /** mod takes the remainder of whole numbers, with the sign of the dividend; of doubles
      the whole parts are taken. */
  lemma Remainder(lib: Library, t: Node, a: Value, b: Value, i: int, j: int, x: real, y: real, m: int, n: int)
    requires Operands(lib, t, a, b) && t.action.rule == MultiplicativeExpr && t.action.sub == Mod
    requires Numbers(lib, a, b, i, j, x, y)
    requires if Floating(a, b) then WholePart(x, m) && WholePart(y, n) else m == i && n == j
    ensures n == 0 ==> Fails(lib, t)
    ensures n != 0 ==> exists q, r :: IsRemainder(m, n, q, r) && Yields(lib, t, if Floating(a, b) then VReal(r as real) else VInt(r))
  {
    NumbersAre(lib, a, b, i, j, x, y);
    WholePartIs(x);
    WholePartIs(y);
    OperandsCombine(lib, t, a, b);
    ModIs(lib, a, b);
    hide Yields, Fails, Operands, GetInt, GetReal, Truncate, CMod, WholePart, Combine;
    if n != 0 {
      var q := CModQuotient(m, n);
      assert IsRemainder(m, n, q, CMod(m, n));
    }
  }

  lemma ModIs(lib: Library, a: Value, b: Value)
    ensures Combine(lib, OpMod, a, b) ==
            if Floating(a, b) then
              if Truncate(GetReal(lib, b)) == 0 then None
              else Some(VReal(CMod(Truncate(GetReal(lib, a)), Truncate(GetReal(lib, b))) as real))
            else if GetInt(lib, b) == 0 then None
            else Some(VInt(CMod(GetInt(lib, a), GetInt(lib, b))))
  {
    hide GetInt, GetReal, CMod, Truncate;
  }

  function Magnitude(n: int): nat { if n < 0 then -n else n }

  /** m is q times n and a rest smaller than n, which is zero or has the sign of m. */
  predicate IsRemainder(m: int, n: int, q: int, r: int) {
    m == q * n + r && Magnitude(r) < Magnitude(n) && (m >= 0 ==> r >= 0) && (m <= 0 ==> r <= 0)
  }

  lemma CModQuotient(m: int, n: int) returns (q: int)
    requires n != 0
    ensures IsRemainder(m, n, q, CMod(m, n))
  {
    var a: int, b: int := Magnitude(m), Magnitude(n);
    var d: int := a / b;
    assert a == d * b + a % b;
    q := if (m < 0) == (n < 0) then d else -d;
    assert q * n == if m < 0 then -(d * b) else d * b;
  }

  /** = by the type cases of section 3.4: as booleans when one is a boolean, else as numbers
      when one is a number, else as texts; and != its negation. */
  lemma Equality(lib: Library, t: Node, a: Value, b: Value, c: bool, d: bool, x: real, y: real, p: string, q: string)
    requires Operands(lib, t, a, b) && t.action.rule == EqualityExpr
    requires AsBool(a, c) && AsBool(b, d) && AsReal(lib, a, x) && AsReal(lib, b, y) && AsText(lib, a, p) && AsText(lib, b, q)
    ensures var same := if a.VBool? || b.VBool? then c == d
                        else if !(a.VText? && b.VText?) then x == y
                        else p == q;
            && (t.action.sub == Equal ==> Yields(lib, t, VBool(same)))
            && (t.action.sub == NotEqual ==> Yields(lib, t, VBool(!same)))
    ensures t.action.sub in {Equal, NotEqual}
  {
    Conversions(lib, a);
    Conversions(lib, b);
    OperandsCombine(lib, t, a, b);
    hide Yields, Fails, Operands, GetReal, GetBool, GetText, AsReal, AsBool, AsText;
  }

  lemma Junctions(lib: Library, t: Node, a: Value, b: Value, c: bool, d: bool)
    requires Operands(lib, t, a, b) && AsBool(a, c) && AsBool(b, d)
    ensures t.action.rule == OrExpr ==> Yields(lib, t, VBool(c || d))
    ensures t.action.rule == AndExpr ==> Yields(lib, t, VBool(c && d))
  {
    Conversions(lib, a);
    Conversions(lib, b);
    OperandsCombine(lib, t, a, b);
    hide Yields, Fails, Operands, GetBool, AsBool;
  }

  /** An operator throws when one of its operands does. */
  lemma FailingOperand(lib: Library, t: Node)
    requires Shaped(t) && Expression(t.action.rule) && |t.kids| == 2
    requires Fails(lib, t.kids[0]) || Fails(lib, t.kids[1])
    ensures Fails(lib, t)
  {
    ShapedIsGrammar(t);
    PartsCases(t.action);
    InfixShape(t);
    YieldsIff(lib, t.kids[0], VInt(0));
    YieldsIff(lib, t.kids[1], VInt(0));
    YieldsIff(lib, t, VInt(0));
    hide Yields, Fails, Shaped, Abstract, Operator, Parts, Combine, Minuses, MinusesAll, Produces;
  }

  // ------------------------------------------------- minus, leaves and calls

  /** Rules without an operator yield what their only part yields. */
  lemma PassedOn(lib: Library, t: Node, v: Value)
    requires Shaped(t) && |t.kids| == 1 && !(t.action.rule == UnaryExpr && t.action.sub == Opposite)
    requires (Expression(t.action.rule) || t.action.rule in {Expr, Argument})
    ensures Yields(lib, t, v) <==> Yields(lib, t.kids[0], v)
    ensures Fails(lib, t) <==> Fails(lib, t.kids[0])
  {
    if Expression(t.action.rule) {
      ShapedIsGrammar(t);
      PartsCases(t.action);
    }
    UnitShape(t);
    YieldsIff(lib, t, v);
    YieldsIff(lib, t.kids[0], v);
  }

  /** Minus negates a double as a double and everything else as an int. */
  lemma Negation(lib: Library, t: Node, a: Value, i: int)
    requires Shaped(t) && t.action.rule == UnaryExpr && t.action.sub == Opposite && |t.kids| == 1
    requires Yields(lib, t.kids[0], a) && AsInt(lib, a, i)
    ensures Yields(lib, t, if a.VReal? then VReal(-a.r) else VInt(-i))
  {
    hide *;
    Conversions(lib, a);
    MinusParts(t);
    MinusEvaluated(lib, Abstract(t.kids[0]), a);
    YieldsIff(lib, t.kids[0], a);
    YieldsIff(lib, t, if a.VReal? then VReal(-a.r) else VInt(-i));
  }

  lemma MinusParts(t: Node)
    requires Shaped(t) && t.action.rule == UnaryExpr && t.action.sub == Opposite
    ensures |t.kids| == 1 && Shaped(t.kids[0]) && Abstract(t) == Minus1(Abstract(t.kids[0]))
  {
    NoOtherMinus(t.action);
    hide Shaped, Abstract, Operator, Unit, Minuses, MinusesAll;
    OtherShape(t);
  }

  lemma NoOtherMinus(a: Action)
    requires a.rule == UnaryExpr && a.sub == Opposite
    ensures Unit(a).None? && Operator(a).None?
  {
  }

  lemma MinusEvaluated(lib: Library, x: Ast, a: Value)
    ensures Eval(lib, x) == Some(a) ==> Eval(lib, Minus1(x)) == Some(if a.VReal? then VReal(-a.r) else VInt(-GetInt(lib, a)))
    ensures Eval(lib, x) == None <==> Eval(lib, Minus1(x)) == None
  {
    hide GetInt;
  }

  lemma FailingNegation(lib: Library, t: Node)
    requires Shaped(t) && t.action.rule == UnaryExpr && t.action.sub == Opposite && |t.kids| == 1
    ensures Fails(lib, t) <==> Fails(lib, t.kids[0])
  {
    hide *;
    MinusParts(t);
    MinusEvaluated(lib, Abstract(t.kids[0]), VInt(0));
    YieldsIff(lib, t.kids[0], VInt(0));
    YieldsIff(lib, t, VInt(0));
  }

  /** A literal is a text; a number with a dot in it is a double, any other an int. */
  lemma Leaves(lib: Library, t: Node)
    requires t.action.rule == PrimaryExpr && t.kids == []
    ensures t.action.sub == LiteralText ==> Yields(lib, t, VText(t.action.literal))
    ensures t.action.sub == NumberText && '.' in t.action.literal ==> Yields(lib, t, VReal(lib.atof(t.action.literal)))
    ensures t.action.sub == NumberText && '.' !in t.action.literal ==> Yields(lib, t, VInt(lib.atoi(t.action.literal)))
  {
    LeafTape(t);
    var q := |Tape(t)| - 1;
    if t.action.sub == LiteralText || t.action.sub == NumberText { OtherExec(lib, Tape(t), q, [], false); }
    assert forall v: Value :: [] + [v] == [v];
    hide Exec, Tape;
  }

  /** The name of a call, with its prefix if it has one. */
  ghost predicate Names(t: Node, name: string) {
    if |t.kids| == 2 then name == t.kids[0].action.literal + ":" + t.kids[1].action.literal
    else |t.kids| == 1 && name == t.kids[0].action.literal
  }

  /** A call applies the function of its name to the values of its arguments in source order. */
  lemma Calls(lib: Library, t: Node, name: string, vs: seq<Value>, v: Value)
    requires Shaped(t) && t.action.rule == FunctionCall && Names(t.kids[0], name)
    requires |t.kids| == 1 + |vs| && forall i :: 0 <= i < |vs| ==> Yields(lib, t.kids[i + 1], vs[i])
    ensures Yields(lib, t, v) <==> lib.call(name, vs) == Some(v)
    ensures Fails(lib, t) <==> lib.call(name, vs) == None
  {
    hide Yields, Fails, Shaped, Unit, Operator, Minuses, MinusesAll, NameShaped, Abstract, NameOf, EvalAll, AbstractAll;
    CallParts(t, name);
    var args := t.kids[1..];
    assert forall i :: 0 <= i < |args| ==> args[i] == t.kids[i + 1];
    ArgumentValues(lib, args, vs);
    YieldsIff(lib, t, v);
  }

  lemma CallParts(t: Node, name: string)
    requires Shaped(t) && t.action.rule == FunctionCall && Names(t.kids[0], name)
    ensures Arguments(t.kids[1..]) && Abstract(t) == Call(name, AbstractAll(t.kids[1..]))
  {
    assert Unit(t.action).None? && Operator(t.action).None?;
    hide Shaped, Abstract, Arguments, AbstractAll, Minuses, MinusesAll, Unit, Operator, NameShaped, NameOf;
    OtherShape(t);
    NameIs(t.kids[0], name);
  }

  lemma NameIs(t: Node, name: string)
    requires NameShaped(t) && Names(t, name)
    ensures NameOf(t) == name
  {
  }

  lemma {:induction false} ArgumentValues(lib: Library, ts: seq<Node>, vs: seq<Value>)
    requires Arguments(ts) && |ts| == |vs| && forall i :: 0 <= i < |vs| ==> Yields(lib, ts[i], vs[i])
    ensures EvalAll(lib, AbstractAll(ts)) == Some(vs)
    decreases |ts|
  {
    hide EvalAll, Abstract, Eval, Yields, Shaped;
    if ts == [] {
      NoArguments(lib, [], 0, []);
      assert ts == [] && vs == [];
    } else {
      var k := |ts| - 1;
      assert Arguments(ts[..k]) && forall i :: 0 <= i < k ==> ts[..k][i] == ts[i] && vs[..k][i] == vs[i];
      ArgumentValues(lib, ts[..k], vs[..k]);
      YieldsIff(lib, ts[k], vs[k]);
      EvalLast(lib, ts);
      hide AbstractAll, Arguments;
      assert vs == vs[..k] + [vs[k]];
    }
  }

  lemma {:induction false} FailingArgument(lib: Library, t: Node, name: string, i: nat)
    requires Shaped(t) && t.action.rule == FunctionCall && Names(t.kids[0], name)
    requires 1 <= i < |t.kids| && Fails(lib, t.kids[i])
    ensures Fails(lib, t)
  {
    hide Yields, Fails, Shaped, Unit, Operator, Minuses, MinusesAll, NameShaped, Abstract, NameOf, EvalAll, AbstractAll;
    CallParts(t, name);
    ArgumentFails(lib, t.kids[1..], i - 1);
    YieldsIff(lib, t, VInt(0));
  }

  lemma {:induction false} ArgumentFails(lib: Library, ts: seq<Node>, i: nat)
    requires Arguments(ts) && i < |ts| && Fails(lib, ts[i])
    ensures EvalAll(lib, AbstractAll(ts)) == None
    decreases |ts|
  {
    hide EvalAll, AbstractAll, Abstract, Eval, Fails, Shaped;
    var k := |ts| - 1;
    assert Arguments(ts[..k]);
    if i < k { ArgumentFails(lib, ts[..k], i); }
    YieldsIff(lib, ts[i], VInt(0));
    EvalLast(lib, ts);
  }

  // -------------------------------------------------------------- examples

  /** A tape with the action of one more rule behind it. */
  function With(tape: seq<Action>, rule: Rule, sub: Sub): seq<Action> { tape + [Action(rule, sub, 0, "")] }

  /** The tape of a number from its primary_expr up to additive_expr. */
  function NumberTape(text: string): seq<Action> {
    With(With(With(With(With(With([Action(PrimaryExpr, NumberText, 0, text)],
      FilterExpr, Primary), PathExpr, Filter), UnionExpr, Simple), UnaryExpr, Simple), MultiplicativeExpr, Simple), AdditiveExpr, Simple)
  }

  /** The tape of the whole expression s < u for two whole numbers. */
  function LessTape(s: string, u: string): seq<Action> {
    With(With(With(With(With(NumberTape(s) + NumberTape(u),
      RelationalExpr, Lt), EqualityExpr, Simple), AndExpr, Simple), OrExpr, Simple), Expr, Simple)
  }

  /** A tree, its rule, the value it yields and its tape. */
  ghost predicate Built(lib: Library, t: Node, rule: Rule, v: Value, tape: seq<Action>) {
    Shaped(t) && t.action.rule == rule && Yields(lib, t, v) && Tape(t) == tape
  }

  /** A rule on top of a tree that it only passes on. */
  lemma {:induction false} OnTop(lib: Library, rule: Rule, sub: Sub, t: Node, below: Rule, v: Value, tape: seq<Action>)
    requires Unit(Action(rule, sub, 0, "")) == Some(below) && Built(lib, t, below, v, tape)
    ensures Built(lib, Over(rule, sub, t), rule, v, With(tape, rule, sub))
  {
    hide *;
    var o := Over(rule, sub, t);
    BuiltParts(lib, t, below, v, tape);
    OverParts(rule, sub, t, below);
    PassedOn(lib, o, v);
    BuiltOf(lib, o, v);
  }

  lemma BuiltParts(lib: Library, t: Node, rule: Rule, v: Value, tape: seq<Action>)
    requires Built(lib, t, rule, v, tape)
    ensures Shaped(t) && t.action.rule == rule && Yields(lib, t, v) && Tape(t) == tape
  {
  }

  lemma BuiltOf(lib: Library, t: Node, v: Value)
    requires Shaped(t) && Yields(lib, t, v)
    ensures Built(lib, t, t.action.rule, v, Tape(t))
  {
  }

  lemma OverParts(rule: Rule, sub: Sub, t: Node, below: Rule)
    requires Shaped(t) && Unit(Action(rule, sub, 0, "")) == Some(below) && t.action.rule == below
    ensures var o := Over(rule, sub, t);
            && Shaped(o) && o.action.rule == rule && o.kids == [t] && !(rule == UnaryExpr && o.action.sub == Opposite)
            && (Expression(rule) || rule in {Expr, Argument}) && Tape(o) == With(Tape(t), rule, sub)
  {
    hide Shaped, Tape;
    OverShape(rule, sub, t);
    TapeOne(t);
    TapeOf(Over(rule, sub, t));
  }

  lemma UnitTable()
    ensures Unit(Action(FilterExpr, Primary, 0, "")) == Some(PrimaryExpr) && Unit(Action(PathExpr, Filter, 0, "")) == Some(FilterExpr)
    ensures Unit(Action(UnionExpr, Simple, 0, "")) == Some(PathExpr) && Unit(Action(UnaryExpr, Simple, 0, "")) == Some(UnionExpr)
    ensures Unit(Action(MultiplicativeExpr, Simple, 0, "")) == Some(UnaryExpr) && Unit(Action(AdditiveExpr, Simple, 0, "")) == Some(MultiplicativeExpr)
    ensures Unit(Action(EqualityExpr, Simple, 0, "")) == Some(RelationalExpr) && Unit(Action(AndExpr, Simple, 0, "")) == Some(EqualityExpr)
    ensures Unit(Action(OrExpr, Simple, 0, "")) == Some(AndExpr) && Unit(Action(Expr, Simple, 0, "")) == Some(OrExpr)
  {
  }

  lemma LeafBuilt(lib: Library, text: string)
    requires '.' !in text
    ensures var a := Action(PrimaryExpr, NumberText, 0, text); Built(lib, Node(a, []), PrimaryExpr, VInt(lib.atoi(text)), [a])
  {
    var leaf := Node(Action(PrimaryExpr, NumberText, 0, text), []);
    LeafShape(leaf);
    LeafTape(leaf);
    Leaves(lib, leaf);
    hide Shaped, Tape, Yields;
  }

  lemma NumberRuns(lib: Library, text: string) returns (t: Node)
    requires '.' !in text
    ensures Built(lib, t, AdditiveExpr, VInt(lib.atoi(text)), NumberTape(text))
  {
    var v := VInt(lib.atoi(text));
    var leaf := Node(Action(PrimaryExpr, NumberText, 0, text), []);
    LeafBuilt(lib, text);
    UnitTable();
    hide Built, Over, With, Unit;
    var t0 := [leaf.action];
    OnTop(lib, FilterExpr, Primary, leaf, PrimaryExpr, v, t0);
    var filter, t1 := Over(FilterExpr, Primary, leaf), With(t0, FilterExpr, Primary);
    OnTop(lib, PathExpr, Filter, filter, FilterExpr, v, t1);
    var path, t2 := Over(PathExpr, Filter, filter), With(t1, PathExpr, Filter);
    OnTop(lib, UnionExpr, Simple, path, PathExpr, v, t2);
    var union, t3 := Over(UnionExpr, Simple, path), With(t2, UnionExpr, Simple);
    OnTop(lib, UnaryExpr, Simple, union, UnionExpr, v, t3);
    var unary, t4 := Over(UnaryExpr, Simple, union), With(t3, UnaryExpr, Simple);
    OnTop(lib, MultiplicativeExpr, Simple, unary, UnaryExpr, v, t4);
    var product, t5 := Over(MultiplicativeExpr, Simple, unary), With(t4, MultiplicativeExpr, Simple);
    OnTop(lib, AdditiveExpr, Simple, product, MultiplicativeExpr, v, t5);
    t := Over(AdditiveExpr, Simple, product);
  }

  lemma ComparisonRuns(lib: Library, s: string, u: string) returns (t: Node)
    requires '.' !in s && '.' !in u
    ensures Built(lib, t, RelationalExpr, VBool(lib.atoi(s) < lib.atoi(u)), With(NumberTape(s) + NumberTape(u), RelationalExpr, Lt))
  {
    var i, j := lib.atoi(s), lib.atoi(u);
    var l := NumberRuns(lib, s);
    var r := NumberRuns(lib, u);
    hide NumberTape, Tape, Yields;
    t := Node(Action(RelationalExpr, Lt, 0, ""), [l, r]);
    ShapedIsGrammar(t);
    TapeTwo(l, r);
    TapeOf(t);
    Relations(lib, t, VInt(i), VInt(j), i, j, i as real, j as real);
  }

  /** Running the tape of s < u: its answer is whether the first number is the smaller. */
  lemma LessRuns(lib: Library, s: string, u: string)
    requires '.' !in s && '.' !in u
    ensures var tape := LessTape(s, u);
            Exec(lib, tape, |tape| - 1, [], Expr, false) == Done(-1, [VBool(lib.atoi(s) < lib.atoi(u))])
  {
    var v := VBool(lib.atoi(s) < lib.atoi(u));
    var less := ComparisonRuns(lib, s, u);
    UnitTable();
    hide Built, Over, NumberTape, With, Unit;
    var t0 := With(NumberTape(s) + NumberTape(u), RelationalExpr, Lt);
    OnTop(lib, EqualityExpr, Simple, less, RelationalExpr, v, t0);
    var equality, t1 := Over(EqualityExpr, Simple, less), With(t0, EqualityExpr, Simple);
    OnTop(lib, AndExpr, Simple, equality, EqualityExpr, v, t1);
    var conjunction, t2 := Over(AndExpr, Simple, equality), With(t1, AndExpr, Simple);
    OnTop(lib, OrExpr, Simple, conjunction, AndExpr, v, t2);
    var disjunction, t3 := Over(OrExpr, Simple, conjunction), With(t2, OrExpr, Simple);
    OnTop(lib, Expr, Simple, disjunction, OrExpr, v, t3);
    BuiltRuns(lib, Over(Expr, Simple, disjunction), Expr, v, LessTape(s, u));
  }

  lemma BuiltRuns(lib: Library, t: Node, rule: Rule, v: Value, tape: seq<Action>)
    requires Built(lib, t, rule, v, tape)
    ensures Exec(lib, tape, |tape| - 1, [], rule, false) == Done(-1, [v])
  {
  }

  lemma TapeOf(t: Node)
    ensures Tape(t) == TapeAll(t.kids) + [t.action]
  {
  }
}
