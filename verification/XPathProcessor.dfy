/** xpath_processor: the tape position and the result stack, changed in place by
    v_execute_one and proved to follow XPathTape.Exec. */
module XPathProcessor {
  import opened Options
  import opened XPathMeaning
  import opened XPathTape

  class Processor {
    const lib: Library
    const tape: seq<Action>
    var position: int
    var stack: seq<Value>

    constructor (lib: Library, tape: seq<Action>)
      ensures this.lib == lib && this.tape == tape && position == |tape| - 1 && stack == []
    {
      this.lib, this.tape := lib, tape;
      position, stack := |tape| - 1, [];
    }

    /** The fields after a call, or an exception. */
    predicate Reached(o: Outcome, thrown: bool)
      reads this
    {
      match o
      case Thrown => thrown
      case Done(p, s) => !thrown && position == p && stack == s
    }

    /** Take the top of the result stack. */
    method Take() returns (v: Option<Value>)
      modifies this`stack
      ensures match Pop(old(stack))
              case Empty => v == None && stack == old(stack)
              case Popped(top, rest) => v == Some(top) && stack == rest
    {
      if stack == [] { return None; }
      v := Some(stack[|stack| - 1]);
      stack := stack[..|stack| - 1];
    }

    /** v_execute_one */
    method ExecuteOne(rule: Rule, skip: bool) returns (thrown: bool)
      modifies this
      ensures Reached(Exec(lib, tape, old(position), old(stack), rule, skip), thrown)
      decreases Left(position), 0
    {
      hide ExecInfix, ExecCall, ExecName, Unit, Operator, NumberValue, Negate;
      if !(0 <= position < |tape|) { return true; }
      var a := tape[position];
      position := position - 1;
      if a.rule != rule { return true; }
      if Unit(a).Some? {
        thrown := ExecuteOne(Unit(a).value, skip);
        return;
      }
      if Operator(a).Some? {
        thrown := ExecuteInfix(Operator(a).value, skip);
        return;
      }
      thrown := false;
      match a.rule
      case UnaryExpr =>
        if a.sub == Opposite {
          thrown := ExecuteOne(UnaryExpr, skip);
          if thrown { return; }
          thrown := FunctionOpposite();
        }
      case PrimaryExpr =>
        if !skip {
          if a.sub == LiteralText { stack := stack + [VText(a.literal)]; }
          else if a.sub == NumberText { stack := stack + [NumberValue(lib, a.literal)]; }
        }
      case FunctionCall => thrown := ExecuteCall(a, skip);
      case QName => thrown := ExecuteName(a, skip);
      case LocalPart =>
        if !skip { stack := stack + [VText(a.literal)]; }
      case Prefix =>
        if !skip {
          var top := Take();
          if top.None? { return true; }
          stack := stack + [VText(a.literal + ":" + GetText(lib, top.value))];
        }
      case _ =>
    }

    /** v_function_opposite */
    method FunctionOpposite() returns (thrown: bool)
      modifies this`stack
      ensures Reached(Replace(lib, Done(position, old(stack))), thrown)
    {
      var top := Take();
      if top.None? { return true; }
      stack := stack + [Negate(lib, top.value)];
      thrown := false;
    }

    /** Right operand to slot 1, left operand to slot 0, then the operator. */
    method ExecuteInfix(f: Infix, skip: bool) returns (thrown: bool)
      requires -1 <= position < |tape| - 1
      modifies this
      ensures Reached(ExecInfix(lib, tape, old(position) + 1, old(stack), f, skip), thrown)
      decreases Left(position), 1
    {
      hide Exec, Combine;
      thrown := ExecuteOne(f.right, skip);
      if thrown { return; }
      var right: Option<Value> := None;
      if !skip {
        right := Take();
        if right.None? { return true; }
      }
      thrown := ExecuteOne(f.left, skip);
      if thrown || skip { return; }
      var left := Take();
      if left.None? { return true; }
      match Combine(lib, f.op, left.value, right.value)
      case None => thrown := true;
      case Some(v) => stack := stack + [v];
    }

    method ExecuteName(a: Action, skip: bool) returns (thrown: bool)
      requires -1 <= position < |tape| - 1 && a == tape[position + 1]
      modifies this
      ensures Reached(ExecName(lib, tape, old(position) + 1, old(stack), skip), thrown)
      decreases Left(position), 1
    {
      hide Exec;
      thrown := false;
      if a.sub == Simple {
        thrown := ExecuteOne(LocalPart, skip);
      } else if a.sub == Colon {
        thrown := ExecuteOne(LocalPart, skip);
        if thrown { return; }
        thrown := ExecuteOne(Prefix, skip);
      }
    }

    /** The function_call case: arguments, name, call. */
    method ExecuteCall(a: Action, skip: bool) returns (thrown: bool)
      requires -1 <= position < |tape| - 1 && a == tape[position + 1]
      modifies this
      ensures Reached(ExecCall(lib, tape, old(position) + 1, old(stack), skip), thrown)
      decreases Left(position), 2 + a.variable
    {
      hide Exec, ExecArgs, GetText;
      var args;
      thrown, args := ExecuteArguments(if a.sub == Simple then 0 else a.variable, skip);
      if thrown { return; }
      thrown := ExecuteOne(QName, skip);
      if thrown || skip { return; }
      var name := Take();
      if name.None? { return true; }
      match lib.call(GetText(lib, name.value), args)
      case None => thrown := true;
      case Some(v) => stack := stack + [v];
    }

    /** The argument loop: the u_arg-th result goes to slot n - u_arg - 1. */
    method ExecuteArguments(n: nat, skip: bool) returns (thrown: bool, args: seq<Value>)
      requires position >= -1
      modifies this
      ensures match ExecArgs(lib, tape, old(position), old(stack), n, skip)
              case ArgThrown => thrown
              case Args(p, s, vs) => !thrown && position == p && stack == s && args == vs
      decreases Left(position), 1 + n
    {
      hide Exec;
      args, thrown := [], false;
      ghost var goal := ExecArgs(lib, tape, position, stack, n, skip);
      var u := 0;
      while u < n
        invariant 0 <= u <= n && -1 <= position <= old(position)
        invariant goal == Joined(ExecArgs(lib, tape, position, stack, n - u, skip), args)
      {
        ghost var rest := ExecArgs(lib, tape, position, stack, n - u, skip);
        thrown := ExecuteOne(Argument, skip);
        if thrown { return; }
        if !skip {
          var top := Take();
          if top.None? { return true, args; }
          ghost var later := ExecArgs(lib, tape, position, stack, n - u - 1, skip);
          if later.Args? { assert later.args + [top.value] + args == later.args + ([top.value] + args); }
          args := [top.value] + args;
        }
        u := u + 1;
      }
      assert [] + args == args;
    }
  }

  function Joined(o: ArgOutcome, args: seq<Value>): ArgOutcome {
    match o
    case ArgThrown => ArgThrown
    case Args(p, s, vs) => Args(p, s, vs + args)
  }

  /** v_execute_stack: one run over the whole tape of an expression. */
  method ExecuteStack(lib: Library, ghost t: Node, tape: seq<Action>) returns (result: Option<Value>)
    requires Shaped(t) && t.action.rule == Expr && tape == Tape(t)
    ensures result == Eval(lib, Abstract(t))
    ensures match result case None => Fails(lib, t) case Some(v) => Yields(lib, t, v)
  {
    hide Exec, Shaped, Tape, Abstract, Eval, Yields, Fails;
    var processor := new Processor(lib, tape);
    var thrown := processor.ExecuteOne(Expr, false);
    WholeExpression(lib, t);
    result := if thrown then None else Some(processor.stack[0]);
    YieldsIff(lib, t, if thrown then VInt(0) else result.value);
  }
}
