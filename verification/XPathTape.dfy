/** TinyXPath execution: the syntax analyser leaves a tape of actions, each rule
    after its parts, and v_execute_one walks the tape backwards with a result
    stack.  Location paths, predicates and node sets are outside this model. */
module XPathTape {
  import opened Options

  datatype Rule =
    | Expr | OrExpr | AndExpr | EqualityExpr | RelationalExpr | AdditiveExpr
    | MultiplicativeExpr | UnaryExpr | UnionExpr | PathExpr | FilterExpr | PrimaryExpr
    | FunctionCall | Argument | QName | LocalPart | Prefix

  /** Sub-rule numbers; `Simple` also stands for the rules that have none. */
  datatype Sub =
    | Simple | Or | OrMore | And | Equal | NotEqual | Lt | Gt | Lte | Gte
    | Plus | Minus | MorePlus | MoreMinus | Star | Div | Mod | Opposite
    | Filter | Primary | Paren | LiteralText | NumberText | Function | WithArguments | Colon

  /** One entry of the action store: rule, sub-rule, parameter, literal. */
  datatype Action = Action(rule: Rule, sub: Sub, variable: nat, literal: string)

  // -------------------------------------------------------------- values

  datatype Value = VInt(i: int) | VReal(r: real) | VBool(b: bool) | VText(s: string)

  /** C library conversions and the XPath function table. */
  datatype Library = Library(
    atoi: string -> int, atof: string -> real, intText: int -> string, realText: real -> string,
    call: (string, seq<Value>) -> Option<Value>)

  /** C's conversion of a double to an int, toward zero. */
  function Truncate(r: real): int { if r >= 0.0 then r.Floor else -((-r).Floor) }

  function GetInt(lib: Library, v: Value): int {
    match v
    case VInt(i) => i
    case VBool(b) => if b then 1 else 0
    case VReal(r) => Truncate(r)
    case VText(s) => lib.atoi(s)
  }

  function GetReal(lib: Library, v: Value): real {
    match v
    case VReal(r) => r
    case VInt(i) => i as real
    case VBool(b) => if b then 1.0 else 0.0
    case VText(s) => lib.atof(s)
  }

  function GetText(lib: Library, v: Value): string {
    match v
    case VText(s) => s
    case VInt(i) => lib.intText(i)
    case VReal(r) => lib.realText(r)
    case VBool(b) => if b then "true" else "false"
  }

  /** o_get_bool; for doubles the code answers true for zero. */
  function GetBool(v: Value): bool {
    match v
    case VInt(i) => i != 0
    case VReal(r) => r == 0.0
    case VText(s) => |s| > 0
    case VBool(b) => b
  }

  /** The boolean function of section 4.3 of XPath 1.0. */
  function XPathBoolean(v: Value): bool {
    match v
    case VInt(i) => i != 0
    case VReal(r) => r != 0.0
    case VText(s) => s != ""
    case VBool(b) => b
  }

  /** o_get_bool is that function exactly for values other than doubles. */
  lemma GetBoolIff(v: Value)
    ensures GetBool(v) == XPathBoolean(v) <==> !v.VReal?
  {
  }

  datatype Op = OpOr | OpAnd | OpEqual | OpNotEqual | OpLt | OpGt | OpLte | OpGte
              | OpPlus | OpMinus | OpStar | OpDiv | OpMod

  /** C's remainder truncates toward zero. */
  function CMod(a: int, b: int): int
    requires b != 0
  {
    var m := (if a < 0 then -a else a) % (if b < 0 then -b else b);
    if a < 0 then -m else m
  }

  /** v_function_equal on values that are not node sets. */
  predicate SameValue(lib: Library, a: Value, b: Value) {
    if a.VBool? || b.VBool? then GetBool(a) == GetBool(b)
    else if a.VInt? || b.VInt? || a.VReal? || b.VReal? then GetReal(lib, a) == GetReal(lib, b)
    else GetText(lib, a) == GetText(lib, b)
  }

  /** The binary operator functions; None is a thrown execution error. */
  function Combine(lib: Library, op: Op, a: Value, b: Value): Option<Value> {
    var floating := a.VReal? || b.VReal?;
    var (i, j) := (GetInt(lib, a), GetInt(lib, b));
    var (x, y) := (GetReal(lib, a), GetReal(lib, b));
    match op
    case OpOr => Some(VBool(GetBool(a) || GetBool(b)))
    case OpAnd => Some(VBool(GetBool(a) && GetBool(b)))
    case OpEqual => Some(VBool(SameValue(lib, a, b)))
    case OpNotEqual => Some(VBool(!SameValue(lib, a, b)))
    case OpLt => Some(VBool(if floating then x < y else i < j))
    case OpGt => Some(VBool(if floating then x > y else i > j))
    case OpLte => Some(VBool(if floating then x <= y else i <= j))
    case OpGte => Some(VBool(if floating then x >= y else i >= j))
    case OpPlus => Some(if floating then VReal(x + y) else VInt(i + j))
    case OpMinus => Some(if floating then VReal(x - y) else VInt(i - j))
    case OpStar => Some(if floating then VReal(x * y) else VInt(i * j))
    case OpDiv => if -0.000001 < y < 0.000001 then None else Some(VReal(x / y))
    case OpMod =>
      if floating then
        if Truncate(y) == 0 then None else Some(VReal(CMod(Truncate(x), Truncate(y)) as real))
      else if j == 0 then None else Some(VInt(CMod(i, j)))
  }

  /** v_function_opposite */
  function Negate(lib: Library, v: Value): Value {
    if v.VReal? then VReal(-v.r) else VInt(-GetInt(lib, v))
  }

  function NumberValue(lib: Library, text: string): Value {
    if '.' in text then VReal(lib.atof(text)) else VInt(lib.atoi(text))
  }

  // ---------------------------------------------------------- expressions

  /** What an expression means, independently of rules and tapes. */
  datatype Ast =
    | Literal(text: string)
    | Number(text: string)
    | Binary(op: Op, left: Ast, right: Ast)
    | Minus1(operand: Ast)
    | Call(name: string, args: seq<Ast>)

  function Eval(lib: Library, e: Ast): Option<Value>
    decreases e, 1
  {
    match e
    case Literal(s) => Some(VText(s))
    case Number(s) => Some(NumberValue(lib, s))
    case Binary(op, l, r) =>
      (match (Eval(lib, l), Eval(lib, r))
       case (Some(a), Some(b)) => Combine(lib, op, a, b)
       case _ => None)
    case Minus1(x) => (match Eval(lib, x) case Some(a) => Some(Negate(lib, a)) case None => None)
    case Call(name, args) => (match EvalAll(lib, args) case Some(vs) => lib.call(name, vs) case None => None)
  }

  function EvalAll(lib: Library, es: seq<Ast>): (r: Option<seq<Value>>)
    decreases es, 0
  {
    if es == [] then Some([])
    else
      match (EvalAll(lib, es[..|es| - 1]), Eval(lib, es[|es| - 1]))
      case (Some(vs), Some(v)) => Some(vs + [v])
      case _ => None
  }

  // --------------------------------------------------------------- trees

  /** A parse tree: a rule with its parts in source order. */
  datatype Node = Node(action: Action, kids: seq<Node>)

  /** Rules that only pass on to one other rule. */
  function Unit(a: Action): Option<Rule> {
    var simple := a.sub == Simple;
    match a.rule
    case Expr => Some(OrExpr)
    case OrExpr => if simple then Some(AndExpr) else None
    case AndExpr => if simple then Some(EqualityExpr) else None
    case EqualityExpr => if simple then Some(RelationalExpr) else None
    case RelationalExpr => if simple then Some(AdditiveExpr) else None
    case AdditiveExpr => if simple then Some(MultiplicativeExpr) else None
    case MultiplicativeExpr => if simple then Some(UnaryExpr) else None
    case UnaryExpr => if simple then Some(UnionExpr) else None
    case UnionExpr => if simple then Some(PathExpr) else None
    case PathExpr => if a.sub == Filter then Some(FilterExpr) else None
    case FilterExpr => if a.sub == Primary then Some(PrimaryExpr) else None
    case PrimaryExpr => if a.sub == Paren then Some(Expr) else if a.sub == Function then Some(FunctionCall) else None
    case Argument => Some(Expr)
    case _ => None
  }

  datatype Infix = Infix(op: Op, left: Rule, right: Rule)

  /** Rules with an operator between two operands. */
  function Operator(a: Action): Option<Infix> {
    match a.rule
    case OrExpr =>
      if a.sub == Or then Some(Infix(OpOr, AndExpr, AndExpr))
      else if a.sub == OrMore then Some(Infix(OpOr, OrExpr, AndExpr)) else None
    case AndExpr => if a.sub == And then Some(Infix(OpAnd, EqualityExpr, EqualityExpr)) else None
    case EqualityExpr =>
      if a.sub == Equal then Some(Infix(OpEqual, RelationalExpr, RelationalExpr))
      else if a.sub == NotEqual then Some(Infix(OpNotEqual, RelationalExpr, RelationalExpr)) else None
    case RelationalExpr =>
      if a.sub == Lt then Some(Infix(OpLt, AdditiveExpr, AdditiveExpr))
      else if a.sub == Gt then Some(Infix(OpGt, AdditiveExpr, AdditiveExpr))
      else if a.sub == Lte then Some(Infix(OpLte, AdditiveExpr, AdditiveExpr))
      else if a.sub == Gte then Some(Infix(OpGte, AdditiveExpr, AdditiveExpr)) else None
    case AdditiveExpr =>
      if a.sub == Plus then Some(Infix(OpPlus, MultiplicativeExpr, MultiplicativeExpr))
      else if a.sub == Minus then Some(Infix(OpMinus, MultiplicativeExpr, MultiplicativeExpr))
      else if a.sub == MorePlus then Some(Infix(OpPlus, AdditiveExpr, MultiplicativeExpr))
      else if a.sub == MoreMinus then Some(Infix(OpMinus, AdditiveExpr, MultiplicativeExpr)) else None
    case MultiplicativeExpr =>
      if a.sub == Star then Some(Infix(OpStar, UnaryExpr, UnaryExpr))
      else if a.sub == Div then Some(Infix(OpDiv, UnaryExpr, UnaryExpr))
      else if a.sub == Mod then Some(Infix(OpMod, UnaryExpr, UnaryExpr)) else None
    case _ => None
  }

  /** The name under a q_name node. */
  function NameOf(t: Node): string {
    if t.action.sub == Colon && |t.kids| == 2 then t.kids[0].action.literal + ":" + t.kids[1].action.literal
    else if |t.kids| == 1 then t.kids[0].action.literal
    else ""
  }

  predicate NameShaped(t: Node) {
    && t.action.rule == QName
    && (match t.action.sub
        case Colon => |t.kids| == 2 && t.kids[0].action.rule == Prefix && t.kids[1].action.rule == LocalPart
        case Simple => |t.kids| == 1 && t.kids[0].action.rule == LocalPart
        case _ => false)
    && forall i :: 0 <= i < |t.kids| ==> t.kids[i].kids == []
  }

  /** The trees the analyser produces for expressions without location paths. */
  predicate Shaped(t: Node)
    decreases t
  {
    var ks := t.kids;
    if Unit(t.action).Some? then |ks| == 1 && ks[0].action.rule == Unit(t.action).value && Shaped(ks[0])
    else if Operator(t.action).Some? then
      var f := Operator(t.action).value;
      |ks| == 2 && ks[0].action.rule == f.left && ks[1].action.rule == f.right && Shaped(ks[0]) && Shaped(ks[1])
    else if t.action.rule == UnaryExpr then
      t.action.sub == Opposite && |ks| == 1 && ks[0].action.rule == UnaryExpr && Shaped(ks[0])
    else if t.action.rule == PrimaryExpr then ks == [] && (t.action.sub == LiteralText || t.action.sub == NumberText)
    else
      && t.action.rule == FunctionCall && (t.action.sub == Simple || t.action.sub == WithArguments)
      && |ks| == 1 + (if t.action.sub == Simple then 0 else t.action.variable) && NameShaped(ks[0])
      && forall i :: 1 <= i < |ks| ==> ks[i].action.rule == Argument && Shaped(ks[i])
  }

  function Abstract(t: Node): Ast
    requires Shaped(t)
    decreases t, 1
  {
    if Unit(t.action).Some? then Abstract(t.kids[0])
    else if Operator(t.action).Some? then
      Binary(Operator(t.action).value.op, Abstract(t.kids[0]), Abstract(t.kids[1]))
    else if t.action.rule == UnaryExpr then Minus1(Abstract(t.kids[0]))
    else if t.action.sub == LiteralText then Literal(t.action.literal)
    else if t.action.sub == NumberText then Number(t.action.literal)
    else Call(NameOf(t.kids[0]), AbstractAll(t.kids[1..]))
  }

  predicate Arguments(ts: seq<Node>) { forall i :: 0 <= i < |ts| ==> ts[i].action.rule == Argument && Shaped(ts[i]) }

  function AbstractAll(ts: seq<Node>): (r: seq<Ast>)
    requires Arguments(ts)
    ensures |r| == |ts|
    decreases ts, 0
  {
    if ts == [] then [] else AbstractAll(ts[..|ts| - 1]) + [Abstract(ts[|ts| - 1])]
  }

  /** The tape of a tree: the parts in source order, then the rule itself. */
  function Tape(t: Node): (a: seq<Action>)
    ensures a != [] && a[|a| - 1] == t.action
    decreases t, 1
  {
    TapeAll(t.kids) + [t.action]
  }

  function TapeAll(ts: seq<Node>): seq<Action>
    decreases ts, 0
  {
    if ts == [] then [] else TapeAll(ts[..|ts| - 1]) + Tape(ts[|ts| - 1])
  }

  // ------------------------------------------------------------- machine

  /** What v_execute_one leaves: the tape position and the result stack (top
      last), or an exception. */
  datatype Outcome = Thrown | Done(position: int, stack: seq<Value>)

  /** The result on top of the stack, taken off. */
  datatype Popped = Empty | Popped(top: Value, rest: seq<Value>)

  function Pop(stack: seq<Value>): Popped {
    if stack == [] then Empty else Popped(stack[|stack| - 1], stack[..|stack| - 1])
  }

  datatype ArgOutcome = ArgThrown | Args(position: int, stack: seq<Value>, args: seq<Value>)

  /** Actions not yet popped. */
  function Left(pos: int): nat { if pos < 0 then 0 else pos + 1 }

  /** v_execute_one */
  function Exec(lib: Library, tape: seq<Action>, pos: int, stack: seq<Value>, rule: Rule, skip: bool): (o: Outcome)
    ensures o.Done? ==> -1 <= o.position < pos
    decreases Left(pos), 0
  {
    if !(0 <= pos < |tape|) || tape[pos].rule != rule then Thrown
    else
      var a := tape[pos];
      if Unit(a).Some? then Exec(lib, tape, pos - 1, stack, Unit(a).value, skip)
      else if Operator(a).Some? then ExecInfix(lib, tape, pos, stack, Operator(a).value, skip)
      else
        match a.rule
        case UnaryExpr =>
          if a.sub == Opposite then Replace(lib, Exec(lib, tape, pos - 1, stack, UnaryExpr, skip)) else Done(pos - 1, stack)
        case PrimaryExpr =>
          if skip then Done(pos - 1, stack)
          else if a.sub == LiteralText then Done(pos - 1, stack + [VText(a.literal)])
          else if a.sub == NumberText then Done(pos - 1, stack + [NumberValue(lib, a.literal)])
          else Done(pos - 1, stack)
        case FunctionCall => ExecCall(lib, tape, pos, stack, skip)
        case QName => ExecName(lib, tape, pos, stack, skip)
        case LocalPart => Done(pos - 1, if skip then stack else stack + [VText(a.literal)])
        case Prefix => if skip then Done(pos - 1, stack) else AddPrefix(lib, a.literal, pos - 1, stack)
        case _ => Done(pos - 1, stack)
  }

  /** The local part is nearer on the tape than its prefix. */
  function ExecName(lib: Library, tape: seq<Action>, pos: int, stack: seq<Value>, skip: bool): (o: Outcome)
    requires 0 <= pos < |tape|
    ensures o.Done? ==> -1 <= o.position < pos
    decreases Left(pos - 1), 1
  {
    if tape[pos].sub == Simple then Exec(lib, tape, pos - 1, stack, LocalPart, skip)
    else if tape[pos].sub == Colon then
      match Exec(lib, tape, pos - 1, stack, LocalPart, skip)
      case Thrown => Thrown
      case Done(p, s) => Exec(lib, tape, p, s, Prefix, skip)
    else Done(pos - 1, stack)
  }

  /** The local name on the stack becomes the qualified name. */
  function AddPrefix(lib: Library, prefix: string, pos: int, stack: seq<Value>): Outcome {
    match Pop(stack)
    case Empty => Thrown
    case Popped(top, rest) => Done(pos, rest + [VText(prefix + ":" + GetText(lib, top))])
  }

  /** v_function_opposite runs in skip mode too. */
  function Replace(lib: Library, o: Outcome): Outcome {
    match o
    case Thrown => Thrown
    case Done(p, s) =>
      match Pop(s)
      case Empty => Thrown
      case Popped(top, rest) => Done(p, rest + [Negate(lib, top)])
  }

  /** The operand on the right is nearer on the tape: it runs first and fills
      slot 1, the left operand fills slot 0. */
  function ExecInfix(lib: Library, tape: seq<Action>, pos: int, stack: seq<Value>, f: Infix, skip: bool): (o: Outcome)
    requires 0 <= pos < |tape|
    ensures o.Done? ==> -1 <= o.position < pos
    decreases Left(pos - 1), 1
  {
    match Exec(lib, tape, pos - 1, stack, f.right, skip)
    case Thrown => Thrown
    case Done(p, s) =>
      if skip then Exec(lib, tape, p, s, f.left, skip)
      else
        match Pop(s)
        case Empty => Thrown
        case Popped(right, s1) =>
          match Exec(lib, tape, p, s1, f.left, skip)
          case Thrown => Thrown
          case Done(p2, s2) =>
            match Pop(s2)
            case Empty => Thrown
            case Popped(left, s3) =>
              match Combine(lib, f.op, left, right)
              case None => Thrown
              case Some(v) => Done(p2, s3 + [v])
  }

  function ExecCall(lib: Library, tape: seq<Action>, pos: int, stack: seq<Value>, skip: bool): (o: Outcome)
    requires 0 <= pos < |tape|
    ensures o.Done? ==> -1 <= o.position < pos
    decreases Left(pos - 1), 2 + tape[pos].variable
  {
    var a := tape[pos];
    match ExecArgs(lib, tape, pos - 1, stack, if a.sub == Simple then 0 else a.variable, skip)
    case ArgThrown => Thrown
    case Args(p, s, args) =>
      match Exec(lib, tape, p, s, QName, skip)
      case Thrown => Thrown
      case Done(p2, s2) =>
        if skip then Done(p2, s2)
        else
          match Pop(s2)
          case Empty => Thrown
          case Popped(name, s3) =>
            match lib.call(GetText(lib, name), args)
            case None => Thrown
            case Some(v) => Done(p2, s3 + [v])
  }

  /** The argument loop: the last argument comes first and goes to the end. */
  function ExecArgs(lib: Library, tape: seq<Action>, pos: int, stack: seq<Value>, n: nat, skip: bool): (o: ArgOutcome)
    ensures o.Args? ==> o.position <= pos && (pos >= -1 ==> o.position >= -1)
    decreases Left(pos), 1 + n
  {
    if n == 0 then Args(pos, stack, [])
    else
      match Exec(lib, tape, pos, stack, Argument, skip)
      case Thrown => ArgThrown
      case Done(p, s) =>
        if skip then ExecArgs(lib, tape, p, s, n - 1, skip)
        else
          match Pop(s)
          case Empty => ArgThrown
          case Popped(top, rest) =>
            match ExecArgs(lib, tape, p, rest, n - 1, skip)
            case ArgThrown => ArgThrown
            case Args(p2, s2, args) => Args(p2, s2, args + [top])
  }

  // ---------------------------------------------------------- correctness

  /** The tape of `t` sits at offset p. */
  predicate At(tape: seq<Action>, p: nat, part: seq<Action>) {
    p + |part| <= |tape| && tape[p..p + |part|] == part
  }

  lemma AtSplit(tape: seq<Action>, p: nat, a: seq<Action>, b: seq<Action>)
    requires At(tape, p, a + b)
    ensures At(tape, p, a) && At(tape, p + |a|, b)
  {
    var whole := tape[p..p + |a + b|];
    assert whole[..|a|] == a && whole[|a|..] == b;
    assert tape[p..p + |a|] == whole[..|a|] && tape[p + |a|..p + |a| + |b|] == whole[|a|..];
  }

  /** The rule itself is the last action; its parts lie right before it. */
  lemma AtNode(tape: seq<Action>, p: nat, t: Node)
    requires At(tape, p, Tape(t))
    ensures p + |Tape(t)| <= |tape| && |Tape(t)| == |TapeAll(t.kids)| + 1
    ensures At(tape, p, TapeAll(t.kids)) && tape[p + |Tape(t)| - 1] == t.action
  {
    hide TapeAll, At;
    AtSplit(tape, p, TapeAll(t.kids), [t.action]);
    AtLast(tape, p + |TapeAll(t.kids)|, t.action);
  }

  lemma AtLast(tape: seq<Action>, q: nat, a: Action)
    requires At(tape, q, [a])
    ensures q < |tape| && tape[q] == a
  {
    assert tape[q..q + 1][0] == a;
  }

  // The shape of a tree, case by case.

  lemma UnitShape(t: Node)
    requires Shaped(t) && Unit(t.action).Some?
    ensures |t.kids| == 1 && t.kids[0].action.rule == Unit(t.action).value && Shaped(t.kids[0])
    ensures Abstract(t) == Abstract(t.kids[0])
    ensures Minuses(t) == MinusesAll(t.kids) && t.kids == [t.kids[0]]
  {
    UnitIsNoMinus(t.action);
    hide NameShaped, MinusesAll, NameOf, Operator, Unit, Arguments, AbstractAll;
  }

  lemma UnitIsNoMinus(a: Action)
    requires Unit(a).Some?
    ensures !(a.rule == UnaryExpr && a.sub == Opposite)
  {
  }

  lemma OperatorIsNotUnit(a: Action)
    requires Operator(a).Some?
    ensures Unit(a).None? && a.rule != UnaryExpr
  {
  }

  lemma InfixShape(t: Node)
    requires Shaped(t) && Operator(t.action).Some?
    ensures Unit(t.action).None? && |t.kids| == 2 && t.kids == [t.kids[0], t.kids[1]]
    ensures var f := Operator(t.action).value;
            && t.kids[0].action.rule == f.left && t.kids[1].action.rule == f.right
            && Shaped(t.kids[0]) && Shaped(t.kids[1])
            && Abstract(t) == Binary(f.op, Abstract(t.kids[0]), Abstract(t.kids[1]))
    ensures Minuses(t) == MinusesAll(t.kids)
  {
    hide NameShaped, Unit, Operator, MinusesAll, NameOf;
    OperatorIsNotUnit(t.action);
  }

  lemma OtherShape(t: Node)
    requires Shaped(t) && Unit(t.action).None? && Operator(t.action).None?
    ensures t.action.rule == UnaryExpr ==>
              && t.action.sub == Opposite && |t.kids| == 1 && t.kids == [t.kids[0]] && t.kids[0].action.rule == UnaryExpr
              && Shaped(t.kids[0]) && Abstract(t) == Minus1(Abstract(t.kids[0])) && Minuses(t) == 1 + MinusesAll(t.kids)
    ensures t.action.rule == PrimaryExpr ==>
              && t.kids == [] && (t.action.sub == LiteralText || t.action.sub == NumberText) && Minuses(t) == MinusesAll(t.kids)
              && Abstract(t) == if t.action.sub == LiteralText then Literal(t.action.literal) else Number(t.action.literal)
    ensures t.action.rule == FunctionCall ==>
              && |t.kids| == 1 + (if t.action.sub == Simple then 0 else t.action.variable) && t.kids == [t.kids[0]] + t.kids[1..]
              && NameShaped(t.kids[0]) && Arguments(t.kids[1..]) && Minuses(t) == MinusesAll(t.kids)
              && Abstract(t) == Call(NameOf(t.kids[0]), AbstractAll(t.kids[1..]))
    ensures t.action.rule == UnaryExpr || t.action.rule == PrimaryExpr || t.action.rule == FunctionCall
  {
    hide NameShaped, Unit, Operator, MinusesAll, NameOf, AbstractAll;
  }

  lemma TapeOne(k: Node)
    ensures TapeAll([k]) == Tape(k)
  {
    assert [k][..0] == [];
  }

  lemma TapeTwo(l: Node, r: Node)
    ensures TapeAll([l, r]) == Tape(l) + Tape(r)
  {
    TapeOne(l);
    assert [l, r][..1] == [l];
  }

  lemma {:induction false} TapeFront(k: Node, ts: seq<Node>)
    ensures TapeAll([k] + ts) == Tape(k) + TapeAll(ts)
  {
    hide Tape;
    if ts == [] {
      TapeOne(k);
      assert [k] + ts == [k];
    } else {
      var front, last, all := ts[..|ts| - 1], ts[|ts| - 1], [k] + ts;
      TapeFront(k, front);
      assert all[..|all| - 1] == [k] + front && all[|all| - 1] == last;
      assert TapeAll(all) == TapeAll([k] + front) + Tape(last);
      assert TapeAll(ts) == TapeAll(front) + Tape(last);
      hide TapeAll;
      assert Tape(k) + TapeAll(front) + Tape(last) == Tape(k) + (TapeAll(front) + Tape(last));
    }
  }

  /** Running the tape of an expression backwards consumes exactly its actions
      and pushes exactly the value of the expression, or throws when evaluating
      it fails; everything already on the stack stays. */
  lemma {:induction false} ExecIsEval(lib: Library, t: Node, tape: seq<Action>, p: nat, stack: seq<Value>)
    requires Shaped(t) && At(tape, p, Tape(t))
    ensures Exec(lib, tape, p + |Tape(t)| - 1, stack, t.action.rule, false) == Evaluated(lib, t, p, stack)
    decreases t, 3
  {
    hide Tape, TapeAll, Shaped, Unit, Operator, Abstract, NameShaped, ExecInfix, ExecCall, ExecName, At, Replace, Eval, NumberValue;
    AtNode(tape, p, t);
    if Unit(t.action).Some? {
      UnitShape(t);
      TapeOne(t.kids[0]);
      ExecIsEval(lib, t.kids[0], tape, p, stack);
    } else if Operator(t.action).Some? {
      InfixIsEval(lib, t, tape, p, stack);
    } else {
      OtherIsEval(lib, t, tape, p, stack);
    }
  }

  lemma {:induction false} OtherIsEval(lib: Library, t: Node, tape: seq<Action>, p: nat, stack: seq<Value>)
    requires Shaped(t) && At(tape, p, Tape(t)) && Unit(t.action).None? && Operator(t.action).None?
    ensures Exec(lib, tape, p + |Tape(t)| - 1, stack, t.action.rule, false) == Evaluated(lib, t, p, stack)
    decreases t, 2
  {
    hide Tape, TapeAll, Shaped, Unit, Operator, Abstract, NameShaped, Exec, ExecCall, At, Replace, Eval, NumberValue, Evaluated;
    AtNode(tape, p, t);
    OtherShape(t);
    OtherExec(lib, tape, p + |Tape(t)| - 1, stack, false);
    if t.action.rule == UnaryExpr {
      TapeOne(t.kids[0]);
      ExecIsEval(lib, t.kids[0], tape, p, stack);
      MinusIsEval(lib, t, p, stack);
    } else if t.action.rule == FunctionCall {
      CallIsEval(lib, t, tape, p, stack);
    } else {
      EmptyTape();
      LeafEvaluated(lib, t, p, stack);
    }
  }

  lemma LeafEvaluated(lib: Library, t: Node, p: nat, stack: seq<Value>)
    requires Shaped(t) && Unit(t.action).None? && t.action.rule == PrimaryExpr
    ensures Evaluated(lib, t, p, stack) ==
            Done(p - 1, stack + [if t.action.sub == LiteralText then VText(t.action.literal) else NumberValue(lib, t.action.literal)])
  {
    LeafIsEval(lib, t);
    hide Eval, Abstract, Shaped, NumberValue, Unit;
  }

  /** The rules that are neither handed on nor operators, by one step. */
  lemma OtherExec(lib: Library, tape: seq<Action>, q: int, stack: seq<Value>, skip: bool)
    requires 0 <= q < |tape| && Unit(tape[q]).None? && Operator(tape[q]).None?
    ensures var a := tape[q]; var o := Exec(lib, tape, q, stack, a.rule, skip);
            && (a.rule == UnaryExpr && a.sub == Opposite ==> o == Replace(lib, Exec(lib, tape, q - 1, stack, UnaryExpr, skip)))
            && (a.rule == FunctionCall ==> o == ExecCall(lib, tape, q, stack, skip))
            && (a.rule == PrimaryExpr && skip ==> o == Done(q - 1, stack))
            && (a.rule == PrimaryExpr && !skip && a.sub == LiteralText ==> o == Done(q - 1, stack + [VText(a.literal)]))
            && (a.rule == PrimaryExpr && !skip && a.sub == NumberText ==> o == Done(q - 1, stack + [NumberValue(lib, a.literal)]))
  {
    hide Unit, Operator, NumberValue, Replace, ExecCall, ExecInfix, ExecName;
  }

  lemma MinusIsEval(lib: Library, t: Node, p: nat, stack: seq<Value>)
    requires Shaped(t) && Unit(t.action).None? && t.action.rule == UnaryExpr
    requires |t.kids| == 1 && Shaped(t.kids[0]) && Abstract(t) == Minus1(Abstract(t.kids[0]))
    ensures Replace(lib, Evaluated(lib, t.kids[0], p, stack)) == Evaluated(lib, t, p, stack)
  {
    hide Shaped, Abstract, Pop;
    var e := Eval(lib, Abstract(t.kids[0]));
    if e.Some? { PopPushed(stack, e.value); }
  }

  lemma LeafIsEval(lib: Library, t: Node)
    requires Shaped(t) && Unit(t.action).None? && t.action.rule == PrimaryExpr
    ensures Eval(lib, Abstract(t)) == Some(if t.action.sub == LiteralText then VText(t.action.literal) else NumberValue(lib, t.action.literal))
  {
  }

  /** The value of the expression pushed, or the exception. */
  function Evaluated(lib: Library, t: Node, p: nat, stack: seq<Value>): Outcome
    requires Shaped(t)
  {
    match Eval(lib, Abstract(t))
    case None => Thrown
    case Some(v) => Done(p - 1, stack + [v])
  }

  lemma PopPushed(stack: seq<Value>, v: Value)
    ensures Pop(stack + [v]) == Popped(v, stack)
  {
    assert (stack + [v])[..|stack|] == stack;
  }

  lemma EmptyTape()
    ensures TapeAll([]) == []
  {
  }

  lemma {:induction false} InfixIsEval(lib: Library, t: Node, tape: seq<Action>, p: nat, stack: seq<Value>)
    requires Shaped(t) && Operator(t.action).Some?
    requires At(tape, p, TapeAll(t.kids)) && |Tape(t)| == |TapeAll(t.kids)| + 1 && p + |Tape(t)| <= |tape|
    ensures ExecInfix(lib, tape, p + |Tape(t)| - 1, stack, Operator(t.action).value, false) == Evaluated(lib, t, p, stack)
    decreases t, 1
  {
    hide Tape, TapeAll, Combine, Exec, Shaped, Unit, Operator, Abstract, At;
    InfixShape(t);
    var l, r := t.kids[0], t.kids[1];
    TapeTwo(l, r);
    AtSplit(tape, p, Tape(l), Tape(r));
    ExecIsEval(lib, r, tape, p + |Tape(l)|, stack);
    ExecIsEval(lib, l, tape, p, stack);
    var a, b := Eval(lib, Abstract(l)), Eval(lib, Abstract(r));
    if b.Some? { PopPushed(stack, b.value); }
    if a.Some? { PopPushed(stack, a.value); }
  }

  /** A leaf of the tape on its own. */
  lemma LeafTape(k: Node)
    requires k.kids == []
    ensures Tape(k) == [k.action]
  {
    EmptyTape();
  }

  /** The name of a called function, with or without a prefix. */
  lemma NameRuns(lib: Library, t: Node, tape: seq<Action>, p: nat, stack: seq<Value>)
    requires NameShaped(t) && At(tape, p, Tape(t))
    ensures Exec(lib, tape, p + |Tape(t)| - 1, stack, QName, false) == Done(p - 1, stack + [VText(NameOf(t))])
    ensures Exec(lib, tape, p + |Tape(t)| - 1, stack, QName, true) == Done(p - 1, stack)
  {
    hide Tape, TapeAll, At, ExecInfix, ExecCall, ExecName, Pop;
    AtNode(tape, p, t);
    var pos := p + |Tape(t)| - 1;
    assert Exec(lib, tape, pos, stack, QName, false) == ExecName(lib, tape, pos, stack, false);
    assert Exec(lib, tape, pos, stack, QName, true) == ExecName(lib, tape, pos, stack, true);
    NameSteps(lib, t, tape, p, stack);
  }

  lemma NameSteps(lib: Library, t: Node, tape: seq<Action>, p: nat, stack: seq<Value>)
    requires NameShaped(t) && At(tape, p, TapeAll(t.kids)) && |Tape(t)| == |TapeAll(t.kids)| + 1
    requires p + |Tape(t)| <= |tape| && tape[p + |Tape(t)| - 1] == t.action
    ensures ExecName(lib, tape, p + |Tape(t)| - 1, stack, false) == Done(p - 1, stack + [VText(NameOf(t))])
    ensures ExecName(lib, tape, p + |Tape(t)| - 1, stack, true) == Done(p - 1, stack)
  {
    hide Tape, TapeAll, At, Exec, Pop;
    if t.action.sub == Colon {
      var x, y := t.kids[0], t.kids[1];
      assert t.kids == [x, y];
      TapeTwo(x, y);
      LeafTape(x); LeafTape(y);
      AtSplit(tape, p, [x.action], [y.action]);
      AtLast(tape, p, x.action);
      AtLast(tape, p + 1, y.action);
      PopPushed(stack, VText(y.action.literal));
      LocalExec(lib, tape, p + 1, stack);
      PrefixExec(lib, tape, p, stack + [VText(y.action.literal)]);
      PrefixExec(lib, tape, p, stack);
    } else {
      var y := t.kids[0];
      assert t.kids == [y];
      TapeOne(y);
      LeafTape(y);
      AtLast(tape, p, y.action);
      LocalExec(lib, tape, p, stack);
    }
  }

  lemma LocalExec(lib: Library, tape: seq<Action>, q: nat, stack: seq<Value>)
    requires q < |tape| && tape[q].rule == LocalPart
    ensures Exec(lib, tape, q, stack, LocalPart, false) == Done(q - 1, stack + [VText(tape[q].literal)])
    ensures Exec(lib, tape, q, stack, LocalPart, true) == Done(q - 1, stack)
  {
  }

  lemma PrefixExec(lib: Library, tape: seq<Action>, q: nat, stack: seq<Value>)
    requires q < |tape| && tape[q].rule == Prefix
    ensures Exec(lib, tape, q, stack, Prefix, false) == AddPrefix(lib, tape[q].literal, q - 1, stack)
    ensures Exec(lib, tape, q, stack, Prefix, true) == Done(q - 1, stack)
  {
    hide AddPrefix;
  }

  lemma {:induction false} CallIsEval(lib: Library, t: Node, tape: seq<Action>, p: nat, stack: seq<Value>)
    requires Shaped(t) && t.action.rule == FunctionCall && Unit(t.action).None? && Operator(t.action).None?
    requires At(tape, p, TapeAll(t.kids)) && |Tape(t)| == |TapeAll(t.kids)| + 1
    requires p + |Tape(t)| <= |tape| && tape[p + |Tape(t)| - 1] == t.action
    ensures ExecCall(lib, tape, p + |Tape(t)| - 1, stack, false) == Evaluated(lib, t, p, stack)
    decreases t, 1
  {
    hide Tape, TapeAll, Exec, ExecArgs, NameShaped, Shaped, Unit, Operator, Abstract, At, Pop, NameOf, AbstractAll, EvalAll, Minuses, MinusesAll;
    OtherShape(t);
    var name, args := t.kids[0], t.kids[1..];
    TapeFront(name, args);
    AtSplit(tape, p, Tape(name), TapeAll(args));
    ArgsAreEval(lib, args, tape, p + |Tape(name)|, stack);
    NameRuns(lib, name, tape, p, stack);
    PopPushed(stack, VText(NameOf(name)));
  }

  lemma {:induction false} ArgsAreEval(lib: Library, ts: seq<Node>, tape: seq<Action>, p: nat, stack: seq<Value>)
    requires Arguments(ts) && At(tape, p, TapeAll(ts))
    ensures ExecArgs(lib, tape, p + |TapeAll(ts)| - 1, stack, |ts|, false) ==
            match EvalAll(lib, AbstractAll(ts))
            case None => ArgThrown
            case Some(vs) => Args(p - 1, stack, vs)
    decreases ts, 0
  {
    hide Tape, TapeAll, Exec, Abstract, AbstractAll, EvalAll, Shaped, Eval, At, Pop, Arguments, ExecArgs;
    if ts == [] {
      EmptyTape();
      NoArguments(lib, tape, p - 1, stack);
    } else {
      var front, last := ts[..|ts| - 1], ts[|ts| - 1];
      FrontArguments(ts);
      AtSplit(tape, p, TapeAll(front), Tape(last));
      ExecIsEval(lib, last, tape, p + |TapeAll(front)|, stack);
      ArgsAreEval(lib, front, tape, p, stack);
      EvalLast(lib, ts);
      LastArgument(lib, tape, p + |TapeAll(ts)| - 1, stack, |ts|);
      var v := Eval(lib, Abstract(last));
      if v.Some? { PopPushed(stack, v.value); }
    }
  }

  lemma NoArguments(lib: Library, tape: seq<Action>, pos: int, stack: seq<Value>)
    ensures ExecArgs(lib, tape, pos, stack, 0, false) == Args(pos, stack, [])
    ensures EvalAll(lib, AbstractAll([])) == Some([])
  {
  }

  lemma FrontArguments(ts: seq<Node>)
    requires ts != [] && Arguments(ts)
    ensures Arguments(ts[..|ts| - 1]) && ts[|ts| - 1].action.rule == Argument && Shaped(ts[|ts| - 1])
    ensures TapeAll(ts) == TapeAll(ts[..|ts| - 1]) + Tape(ts[|ts| - 1])
  {
    hide Shaped, Tape;
  }

  /** One turn of the argument loop. */
  lemma LastArgument(lib: Library, tape: seq<Action>, pos: int, stack: seq<Value>, n: nat)
    requires n > 0
    ensures ExecArgs(lib, tape, pos, stack, n, false) ==
            match Exec(lib, tape, pos, stack, Argument, false)
            case Thrown => ArgThrown
            case Done(p, s) =>
              match Pop(s)
              case Empty => ArgThrown
              case Popped(top, rest) =>
                match ExecArgs(lib, tape, p, rest, n - 1, false)
                case ArgThrown => ArgThrown
                case Args(p2, s2, args) => Args(p2, s2, args + [top])
  {
    hide Exec, Pop;
  }

  lemma EvalLast(lib: Library, ts: seq<Node>)
    requires ts != [] && Arguments(ts) && Arguments(ts[..|ts| - 1])
    ensures EvalAll(lib, AbstractAll(ts)) ==
            match (EvalAll(lib, AbstractAll(ts[..|ts| - 1])), Eval(lib, Abstract(ts[|ts| - 1])))
            case (Some(vs), Some(v)) => Some(vs + [v])
            case _ => None
  {
    hide Eval, Abstract, Shaped;
    var es := AbstractAll(ts);
    assert es[..|es| - 1] == AbstractAll(ts[..|ts| - 1]) && es[|es| - 1] == Abstract(ts[|ts| - 1]);
  }

  // ------------------------------------------------------------ skip mode

  /** Unary minuses in a tree. */
  function Minuses(t: Node): nat
    decreases t, 1
  {
    (if t.action.rule == UnaryExpr && t.action.sub == Opposite then 1 else 0) + MinusesAll(t.kids)
  }

  function MinusesAll(ts: seq<Node>): nat
    decreases ts, 0
  {
    if ts == [] then 0 else MinusesAll(ts[..|ts| - 1]) + Minuses(ts[|ts| - 1])
  }

  /** Negating the value on top of the stack k times. */
  function NegateTop(lib: Library, stack: seq<Value>, k: nat): Option<seq<Value>>
    decreases k
  {
    if k == 0 then Some(stack)
    else
      match Pop(stack)
      case Empty => None
      case Popped(top, rest) => NegateTop(lib, rest + [Negate(lib, top)], k - 1)
  }

  lemma {:induction false} NegateTopAdds(lib: Library, stack: seq<Value>, j: nat, k: nat)
    ensures NegateTop(lib, stack, j + k) ==
            match NegateTop(lib, stack, j) case None => None case Some(s) => NegateTop(lib, s, k)
    decreases j
  {
    if j > 0 && stack != [] {
      NegateTopAdds(lib, stack[..|stack| - 1] + [Negate(lib, stack[|stack| - 1])], j - 1, k);
    }
  }

  function Skipped(lib: Library, stack: seq<Value>, k: nat, position: int): Outcome {
    match NegateTop(lib, stack, k)
    case None => Thrown
    case Some(s) => Done(position, s)
  }

  /** Skipping consumes exactly the actions running would, and its whole effect
      on the stack is one negation of the top value per unary minus; without a
      unary minus the stack is untouched. */
  lemma {:induction false} SkipConsumesSame(lib: Library, t: Node, tape: seq<Action>, p: nat, stack: seq<Value>)
    requires Shaped(t) && At(tape, p, Tape(t))
    ensures Exec(lib, tape, p + |Tape(t)| - 1, stack, t.action.rule, true) == Skipped(lib, stack, Minuses(t), p - 1)
    decreases t, 3
  {
    hide Tape, TapeAll, Shaped, Unit, Operator, Abstract, NameShaped, ExecInfix, ExecCall, ExecName, At, MinusesAll, NegateTop, Minuses, Replace, NumberValue, Skipped, AbstractAll, NameOf, Arguments;
    AtNode(tape, p, t);
    if Unit(t.action).Some? {
      UnitShape(t);
      TapeOne(t.kids[0]);
      MinusesOne(t.kids[0]);
      SkipConsumesSame(lib, t.kids[0], tape, p, stack);
    } else if Operator(t.action).Some? {
      SkipInfix(lib, t, tape, p, stack);
    } else {
      SkipOther(lib, t, tape, p, stack);
    }
  }

  lemma {:induction false} SkipOther(lib: Library, t: Node, tape: seq<Action>, p: nat, stack: seq<Value>)
    requires Shaped(t) && At(tape, p, Tape(t)) && Unit(t.action).None? && Operator(t.action).None?
    ensures Exec(lib, tape, p + |Tape(t)| - 1, stack, t.action.rule, true) == Skipped(lib, stack, Minuses(t), p - 1)
    decreases t, 2
  {
    hide Tape, TapeAll, Shaped, Unit, Operator, Abstract, NameShaped, Exec, ExecCall, At, MinusesAll, NegateTop, Minuses, Replace, NumberValue, Skipped, AbstractAll, NameOf, Arguments;
    AtNode(tape, p, t);
    OtherShape(t);
    OtherExec(lib, tape, p + |Tape(t)| - 1, stack, true);
    if t.action.rule == UnaryExpr {
      TapeOne(t.kids[0]);
      MinusesOne(t.kids[0]);
      SkipConsumesSame(lib, t.kids[0], tape, p, stack);
      OneMore(lib, stack, Minuses(t.kids[0]), p - 1);
    } else if t.action.rule == FunctionCall {
      SkipCall(lib, t, tape, p, stack);
    } else {
      EmptyTape();
      MinusesNone();
      SkippedNone(lib, stack, p - 1);
    }
  }

  /** k negations give a value back exactly when there are none, or it is a number and
      their count is even or the number zero. */
  predicate Unmoved(v: Value, k: nat) {
    k == 0 || (v.VInt? && (k % 2 == 0 || v.i == 0)) || (v.VReal? && (k % 2 == 0 || v.r == 0.0))
  }

  /** The value on top after k negations, from the first on a number. */
  function Negated(lib: Library, v: Value, k: nat): Value {
    if k == 0 then v
    else if v.VReal? then VReal(if k % 2 == 0 then v.r else -v.r)
    else VInt(if k % 2 == 0 then GetInt(lib, v) else -GetInt(lib, v))
  }

  lemma {:induction false} NegateTopIs(lib: Library, below: seq<Value>, v: Value, k: nat)
    ensures NegateTop(lib, below + [v], k) == Some(below + [Negated(lib, v, k)])
    decreases k
  {
    if k > 0 {
      PopPushed(below, v);
      NegateTopIs(lib, below, Negate(lib, v), k - 1);
    }
  }

  /** Skip mode leaves the stack untouched exactly when the expression holds no unary
      minus, or the top of the stack is a number that its minuses give back. */
  lemma SkipLeavesStackIff(lib: Library, t: Node, tape: seq<Action>, p: nat, stack: seq<Value>)
    requires Shaped(t) && At(tape, p, Tape(t))
    ensures Exec(lib, tape, p + |Tape(t)| - 1, stack, t.action.rule, true) == Done(p - 1, stack) <==>
            if stack == [] then Minuses(t) == 0 else Unmoved(stack[|stack| - 1], Minuses(t))
  {
    SkipConsumesSame(lib, t, tape, p, stack);
    var k := Minuses(t);
    hide Exec, Shaped, Tape, At, Minuses;
    if stack != [] {
      var below, v := stack[..|stack| - 1], stack[|stack| - 1];
      assert stack == below + [v];
      NegateTopIs(lib, below, v, k);
      UnmovedIff(lib, v, k);
      hide Unmoved, Negated, NegateTop;
      if below + [Negated(lib, v, k)] == stack { assert (below + [Negated(lib, v, k)])[|below|] == v; }
    }
  }

  /** In particular without a unary minus. */
  lemma SkipLeavesStack(lib: Library, t: Node, tape: seq<Action>, p: nat, stack: seq<Value>)
    requires Shaped(t) && At(tape, p, Tape(t)) && Minuses(t) == 0
    ensures Exec(lib, tape, p + |Tape(t)| - 1, stack, t.action.rule, true) == Done(p - 1, stack)
  {
    SkipLeavesStackIff(lib, t, tape, p, stack);
    hide Exec, Shaped, Tape, At, Minuses;
  }

  lemma UnmovedIff(lib: Library, v: Value, k: nat)
    ensures Negated(lib, v, k) == v <==> Unmoved(v, k)
  {
  }

  /** Skipping -1 with 5 on the stack leaves -5; with nothing on it, it fails. */
  lemma SkippedMinusNegates(lib: Library)
    ensures var tape := Tape(MINUS_ONE);
            && Exec(lib, tape, |tape| - 1, [VInt(5)], UnaryExpr, true) == Done(-1, [VInt(-5)])
            && Exec(lib, tape, |tape| - 1, [], UnaryExpr, true) == Thrown
  {
    MinusOneShape();
    hide Exec, Shaped, Tape, Minuses, MINUS_ONE;
    OneMinusSkipped(lib, MINUS_ONE);
  }

  lemma OneMinusSkipped(lib: Library, t: Node)
    requires Shaped(t) && Minuses(t) == 1
    ensures Exec(lib, Tape(t), |Tape(t)| - 1, [VInt(5)], t.action.rule, true) == Done(-1, [VInt(-5)])
    ensures Exec(lib, Tape(t), |Tape(t)| - 1, [], t.action.rule, true) == Thrown
  {
    hide Exec, Shaped, Tape, Minuses;
    assert Tape(t)[0..0 + |Tape(t)|] == Tape(t);
    SkipConsumesSame(lib, t, Tape(t), 0, [VInt(5)]);
    SkipConsumesSame(lib, t, Tape(t), 0, []);
    NegateTopIs(lib, [], VInt(5), 1);
    assert [] + [VInt(5)] == [VInt(5)] && [] + [VInt(-5)] == [VInt(-5)];
  }

  function Over(rule: Rule, sub: Sub, t: Node): Node { Node(Action(rule, sub, 0, ""), [t]) }

  /** The tree of the expression -1 from its unary_expr on. */
  const MINUS_ONE := Over(UnaryExpr, Opposite, Over(UnaryExpr, Simple, Over(UnionExpr, Simple, ONE_PATH)))

  lemma OverShape(rule: Rule, sub: Sub, t: Node)
    requires Shaped(t) && (Unit(Action(rule, sub, 0, "")) == Some(t.action.rule) || (rule == UnaryExpr && sub == Opposite && t.action.rule == UnaryExpr))
    ensures Shaped(Over(rule, sub, t))
    ensures Minuses(Over(rule, sub, t)) == (if rule == UnaryExpr && sub == Opposite then 1 else 0) + Minuses(t)
  {
    MinusesOne(t);
    hide MinusesAll;
  }

  const ONE_PATH := Over(PathExpr, Filter, Over(FilterExpr, Primary, Node(Action(PrimaryExpr, NumberText, 0, "1"), [])))

  lemma LeafShape(t: Node)
    requires t.action.rule == PrimaryExpr && t.action.sub == NumberText && t.kids == []
    ensures Shaped(t) && Minuses(t) == 0
  {
    MinusesNone();
  }

  lemma OnePathShape()
    ensures Shaped(ONE_PATH) && Minuses(ONE_PATH) == 0 && ONE_PATH.action.rule == PathExpr
  {
    var number := Node(Action(PrimaryExpr, NumberText, 0, "1"), []);
    LeafShape(number);
    hide Shaped, Minuses, MinusesAll;
    var filter := Over(FilterExpr, Primary, number);
    OverShape(FilterExpr, Primary, number);
    OverShape(PathExpr, Filter, filter);
  }

  lemma MinusOneShape()
    ensures Shaped(MINUS_ONE) && Minuses(MINUS_ONE) == 1 && MINUS_ONE.action.rule == UnaryExpr
  {
    OnePathShape();
    hide Shaped, Minuses, ONE_PATH;
    var union := Over(UnionExpr, Simple, ONE_PATH);
    OverShape(UnionExpr, Simple, ONE_PATH);
    var unary := Over(UnaryExpr, Simple, union);
    OverShape(UnaryExpr, Simple, union);
    OverShape(UnaryExpr, Opposite, unary);
  }

  lemma {:induction false} SkipInfix(lib: Library, t: Node, tape: seq<Action>, p: nat, stack: seq<Value>)
    requires Shaped(t) && Operator(t.action).Some?
    requires At(tape, p, TapeAll(t.kids)) && |Tape(t)| == |TapeAll(t.kids)| + 1 && p + |Tape(t)| <= |tape|
    ensures ExecInfix(lib, tape, p + |Tape(t)| - 1, stack, Operator(t.action).value, true) == Skipped(lib, stack, Minuses(t), p - 1)
    decreases t, 1
  {
    hide Tape, TapeAll, Exec, Shaped, Unit, Operator, Abstract, At, Minuses, MinusesAll, NegateTop;
    InfixShape(t);
    var l, r := t.kids[0], t.kids[1];
    TapeTwo(l, r);
    MinusesTwo(l, r);
    AtSplit(tape, p, Tape(l), Tape(r));
    SkipConsumesSame(lib, r, tape, p + |Tape(l)|, stack);
    var s := NegateTop(lib, stack, Minuses(r));
    if s.Some? { SkipConsumesSame(lib, l, tape, p, s.value); }
    NegateTopAdds(lib, stack, Minuses(r), Minuses(l));
  }

  lemma SkippedNone(lib: Library, stack: seq<Value>, position: int)
    ensures Skipped(lib, stack, 0, position) == Done(position, stack)
  {
  }

  lemma NegateNone(lib: Library, stack: seq<Value>)
    ensures NegateTop(lib, stack, 0) == Some(stack)
  {
  }

  lemma MinusesNone()
    ensures MinusesAll([]) == 0
  {
  }

  lemma MinusesOne(k: Node)
    ensures MinusesAll([k]) == Minuses(k)
  {
    assert [k][..0] == [];
  }

  lemma MinusesTwo(l: Node, r: Node)
    ensures MinusesAll([l, r]) == Minuses(l) + Minuses(r)
  {
    MinusesOne(l);
    assert [l, r][..1] == [l];
  }

  lemma {:induction false} MinusesFront(k: Node, ts: seq<Node>)
    ensures MinusesAll([k] + ts) == Minuses(k) + MinusesAll(ts)
  {
    if ts == [] {
      MinusesOne(k);
      assert [k] + ts == [k];
    } else {
      MinusesFront(k, ts[..|ts| - 1]);
      assert ([k] + ts)[..|ts|] == [k] + ts[..|ts| - 1];
    }
  }

  lemma OneMore(lib: Library, stack: seq<Value>, k: nat, position: int)
    ensures Replace(lib, Skipped(lib, stack, k, position)) == Skipped(lib, stack, k + 1, position)
  {
    NegateTopAdds(lib, stack, k, 1);
    var s := NegateTop(lib, stack, k);
    if s.Some? && s.value != [] {
      NegateNone(lib, s.value[..|s.value| - 1] + [Negate(lib, s.value[|s.value| - 1])]);
    }
  }

  lemma {:induction false} SkipCall(lib: Library, t: Node, tape: seq<Action>, p: nat, stack: seq<Value>)
    requires Shaped(t) && t.action.rule == FunctionCall && Unit(t.action).None? && Operator(t.action).None?
    requires At(tape, p, TapeAll(t.kids)) && |Tape(t)| == |TapeAll(t.kids)| + 1
    requires p + |Tape(t)| <= |tape| && tape[p + |Tape(t)| - 1] == t.action
    ensures ExecCall(lib, tape, p + |Tape(t)| - 1, stack, true) == Skipped(lib, stack, Minuses(t), p - 1)
    decreases t, 1
  {
    hide Tape, TapeAll, Exec, ExecArgs, NegateTop, MinusesAll, NameShaped, Shaped, Unit, Operator, Abstract, At, Minuses, NameOf, AbstractAll, Pop;
    OtherShape(t);
    var name, args := t.kids[0], t.kids[1..];
    TapeFront(name, args);
    MinusesFront(name, args);
    NameHasNoMinus(name);
    AtSplit(tape, p, Tape(name), TapeAll(args));
    SkipArgs(lib, args, tape, p + |Tape(name)|, stack);
    var s := NegateTop(lib, stack, MinusesAll(args));
    if s.Some? { NameRuns(lib, name, tape, p, s.value); }
  }

  lemma NameHasNoMinus(t: Node)
    requires NameShaped(t)
    ensures Minuses(t) == 0
  {
    MinusesNone();
    if t.action.sub == Colon {
      assert t.kids == [t.kids[0], t.kids[1]];
      MinusesTwo(t.kids[0], t.kids[1]);
    } else {
      assert t.kids == [t.kids[0]];
      MinusesOne(t.kids[0]);
    }
  }

  lemma {:induction false} SkipArgs(lib: Library, ts: seq<Node>, tape: seq<Action>, p: nat, stack: seq<Value>)
    requires Arguments(ts) && At(tape, p, TapeAll(ts))
    ensures ExecArgs(lib, tape, p + |TapeAll(ts)| - 1, stack, |ts|, true) ==
            match NegateTop(lib, stack, MinusesAll(ts))
            case None => ArgThrown
            case Some(s) => Args(p - 1, s, [])
    decreases ts, 0
  {
    hide Tape, Exec, Shaped, NegateTop, Minuses, At;
    if ts == [] {
      NegateNone(lib, stack);
    } else {
      var front, last := ts[..|ts| - 1], ts[|ts| - 1];
      AtSplit(tape, p, TapeAll(front), Tape(last));
      SkipConsumesSame(lib, last, tape, p + |TapeAll(front)|, stack);
      var s := NegateTop(lib, stack, Minuses(last));
      if s.Some? { SkipArgs(lib, front, tape, p, s.value); }
      NegateTopAdds(lib, stack, Minuses(last), MinusesAll(front));
    }
  }

  // ------------------------------------------------------------ whole runs

  /** v_execute_stack on the tape of a whole expression leaves one result, its
      value, which is what er_compute_xpath accepts. */
  lemma WholeExpression(lib: Library, t: Node)
    requires Shaped(t) && t.action.rule == Expr
    ensures Exec(lib, Tape(t), |Tape(t)| - 1, [], Expr, false) ==
            match Eval(lib, Abstract(t)) case None => Thrown case Some(v) => Done(-1, [v])
  {
    hide Tape, Exec, Shaped, Abstract, Eval;
    assert Tape(t)[0..0 + |Tape(t)|] == Tape(t);
    ExecIsEval(lib, t, Tape(t), 0, []);
    assert forall v: Value :: [] + [v] == [v];
  }

  /** a - b - c is (a - b) - c. */
  lemma SubtractionChainsLeft(lib: Library, t: Node, x: int, y: int, z: int)
    requires Shaped(t) && t.action.rule == AdditiveExpr && t.action.sub == MoreMinus
    requires |t.kids| == 2 && t.kids[0].action.sub == Minus && |t.kids[0].kids| == 2
    requires Shaped(t.kids[1]) && Shaped(t.kids[0].kids[0]) && Shaped(t.kids[0].kids[1])
    requires Eval(lib, Abstract(t.kids[0].kids[0])) == Some(VInt(x)) && Eval(lib, Abstract(t.kids[0].kids[1])) == Some(VInt(y))
    requires Eval(lib, Abstract(t.kids[1])) == Some(VInt(z))
    ensures Exec(lib, Tape(t), |Tape(t)| - 1, [], AdditiveExpr, false) == Done(-1, [VInt(x - y - z)])
  {
    hide Tape, Exec, Shaped, Abstract, Unit, Eval, Minuses, MinusesAll;
    InfixShape(t);
    InfixShape(t.kids[0]);
    MinusOfInts(lib, Abstract(t.kids[0].kids[0]), Abstract(t.kids[0].kids[1]), x, y);
    MinusOfInts(lib, Abstract(t.kids[0]), Abstract(t.kids[1]), x - y, z);
    assert Tape(t)[0..0 + |Tape(t)|] == Tape(t);
    ExecIsEval(lib, t, Tape(t), 0, []);
    assert [] + [VInt(x - y - z)] == [VInt(x - y - z)];
  }

  lemma MinusOfInts(lib: Library, l: Ast, r: Ast, x: int, y: int)
    requires Eval(lib, l) == Some(VInt(x)) && Eval(lib, r) == Some(VInt(y))
    ensures Eval(lib, Binary(OpMinus, l, r)) == Some(VInt(x - y))
  {
  }
}
