/** The tree-walking evaluator of `Interpreter.kt`: expressions evaluate to a
    `Value` against the scope chain, statements run against the scope chain
    and an output trace. A thrown exception becomes an `Error` that stops the
    run; the scope chain and the trace as they were when it was thrown are
    kept, since an `assign` may already have written a binding, and since
    `executeBlock` restores the enclosing scope on the way out. */
module Interpreter {
  import opened Wrappers
  import opened Errors
  import opened Tokens
  import opened Values
  import opened Ast
  import opened Environment

  // ---------------------------------------------------------------------------
  // Operators

  /** The operators `visitBinaryExpr` implements; any other kind, `>` and `<`
      among them, falls into its `else` branch. */
  predicate Implemented(kind: TokenType)
  {
    || kind == MINUS || kind == SLASH || kind == STAR || kind == PLUS
    || kind == GREATER_EQUAL || kind == LESS_EQUAL
    || kind == EQUAL_EQUAL || kind == BANG_EQUAL
  }

  /** The operators that cast both operands to `Double`. */
  predicate NumericOnly(kind: TokenType)
  {
    kind == MINUS || kind == SLASH || kind == STAR || kind == GREATER_EQUAL || kind == LESS_EQUAL
  }

  /** `!==` on the boxed operands: values of different types are never the
      same object, `null` is `null`, and the two `Boolean` boxes are shared,
      so two booleans are the same object iff they are equal. Whether two
      doubles or two strings share a box is up to the JVM. */
  function NotSame(a: Value, b: Value): (r: Result<Value, Error>)
    ensures r.Success? <==> !(a.Number? && b.Number?) && !(a.Str? && b.Str?)
    ensures r.Success? ==> r.value == Bool(a != b)
  {
    match (a, b)
    case (Number(_), Number(_)) => Failure(NotModelled)
    case (Str(_), Str(_)) => Failure(NotModelled)
    case (Nil, Nil) => Success(Bool(false))
    case (Bool(x), Bool(y)) => Success(Bool(x != y))
    case _ => Success(Bool(true))
  }

  /** The `when` of `visitBinaryExpr` on two evaluated operands. */
  function ApplyBinary(kind: TokenType, a: Value, b: Value): (r: Result<Value, Error>)
    ensures !Implemented(kind) ==> r == Failure(UnsupportedOperator)
    ensures NumericOnly(kind) && !(a.Number? && b.Number?) ==> r == Failure(TypeError)
    ensures kind == PLUS ==>
              (r.Success? <==> (a.Number? && b.Number?) || (a.Str? && b.Str?))
    ensures kind == PLUS && r.Failure? ==> r.error == TypeError
    ensures kind == EQUAL_EQUAL ==> r == Success(Bool(a == b))
    ensures kind == PLUS && a.Str? && b.Str? ==> r == Success(Str(a.s + b.s))
    ensures a.Number? && b.Number? ==>
              && (kind == PLUS ==> r == Success(Number(a.n + b.n)))
              && (kind == MINUS ==> r == Success(Number(a.n - b.n)))
              && (kind == STAR ==> r == Success(Number(a.n * b.n)))
              && (kind == SLASH && b.n != 0.0 ==> r == Success(Number(a.n / b.n)))
              && (kind == SLASH && b.n == 0.0 ==> r == Failure(NotModelled))
              && (kind == GREATER_EQUAL ==> r == Success(Bool(a.n >= b.n)))
              && (kind == LESS_EQUAL ==> r == Success(Bool(a.n <= b.n)))
    ensures kind == BANG_EQUAL ==> r == NotSame(a, b)
    ensures r.Success? && kind != BANG_EQUAL ==>
              (r.value.Number? <==> kind == MINUS || kind == SLASH || kind == STAR || (kind == PLUS && a.Number?))
  {
    if kind == MINUS then
      if a.Number? && b.Number? then Success(Number(a.n - b.n)) else Failure(TypeError)
    else if kind == SLASH then
      if !(a.Number? && b.Number?) then Failure(TypeError)
      else if b.n == 0.0 then Failure(NotModelled)
      else Success(Number(a.n / b.n))
    else if kind == STAR then
      if a.Number? && b.Number? then Success(Number(a.n * b.n)) else Failure(TypeError)
    else if kind == PLUS then
      if a.Number? && b.Number? then Success(Number(a.n + b.n))
      else if a.Str? && b.Str? then Success(Str(a.s + b.s))
      else Failure(TypeError)
    else if kind == GREATER_EQUAL then
      if a.Number? && b.Number? then Success(Bool(a.n >= b.n)) else Failure(TypeError)
    else if kind == EQUAL_EQUAL then
      Success(Bool(a == b))
    else if kind == LESS_EQUAL then
      if a.Number? && b.Number? then Success(Bool(a.n <= b.n)) else Failure(TypeError)
    else if kind == BANG_EQUAL then
      NotSame(a, b)
    else
      Failure(UnsupportedOperator)
  }

  /** `visitUnaryExpr` after its operand evaluated to `v`: `!` computes the
      truth value and drops it, `-` casts the operand to `Double` (failing if
      it is not one) and drops the product, and either way the method goes on
      to throw. */
  function UnaryFailure(kind: TokenType, v: Value): (e: Error)
    ensures e == TypeError <==> kind == MINUS && !v.Number?
    ensures e != TypeError ==> e == UnsupportedOperator
  {
    if kind == MINUS && !v.Number? then TypeError else UnsupportedOperator
  }

  // ---------------------------------------------------------------------------
  // Scope-chain shapes that evaluation and execution keep

  /** `b` binds exactly the names `a` binds, scope by scope. */
  predicate SameNames(a: Env, b: Env)
  {
    |a| == |b| && forall i | 0 <= i < |a| :: a[i].Keys == b[i].Keys
  }

  /** `b` is `a` with, at most, more names in the innermost scope. */
  predicate MoreNamesInnermost(a: Env, b: Env)
  {
    && |a| == |b|
    && (forall i | 0 <= i < |a| - 1 :: a[i].Keys == b[i].Keys)
    && a[|a| - 1].Keys <= b[|b| - 1].Keys
  }

  // ---------------------------------------------------------------------------
  // Expressions

  /** The scope chain after an evaluation, and its value or error. */
  datatype Evaluated = Evaluated(env: Env, result: Result<Value, Error>)

  /** `evaluate`: operands left to right, stopping at the first error. An
      expression never adds or removes a binding; only `Assign` changes a
      bound value. */
  function Evaluate(e: Expr, env: Env): (r: Evaluated)
    ensures SameNames(env, r.env)
    ensures !ContainsAssign(e) ==> r.env == env
    decreases e
  {
    match e
    case Literal(v) => Evaluated(env, Success(v))
    case Grouping(x) => Evaluate(x, env)
    case Variable(name) => Evaluated(env, Get(env, name.lexeme))
    case Assign(name, x) =>
      var value := Evaluate(x, env);
      if value.result.Failure? then value
      else
        var written := Environment.Assign(value.env, name.lexeme, value.result.value);
        if written.error.Some? then Evaluated(written.env, Failure(written.error.value))
        else Evaluated(written.env, value.result)
    case Unary(op, x) =>
      var operand := Evaluate(x, env);
      if operand.result.Failure? then operand
      else Evaluated(operand.env, Failure(UnaryFailure(op.kind, operand.result.value)))
    case Binary(l, op, r) =>
      var left := Evaluate(l, env);
      if left.result.Failure? then left
      else
        var right := Evaluate(r, left.env);
        if right.result.Failure? then right
        else Evaluated(right.env, ApplyBinary(op.kind, left.result.value, right.result.value))
  }

  /** An expression that can write a binding. */
  predicate ContainsAssign(e: Expr)
  {
    match e
    case Assign(_, _) => true
    case Grouping(x) => ContainsAssign(x)
    case Unary(_, x) => ContainsAssign(x)
    case Binary(l, _, r) => ContainsAssign(l) || ContainsAssign(r)
    case _ => false
  }

  // ---------------------------------------------------------------------------
  // Statements

  /** The interpreter's state: the current scope chain and the values printed
      so far. */
  datatype State = State(env: Env, out: seq<Value>)

  /** The state after running statements, and the error that stopped them. */
  datatype Executed = Executed(state: State, error: Option<Error>)

  /** The run from `a` to `b` printed only after what `a` had printed, and
      left every scope but the innermost with the names it had. */
  predicate Progress(a: State, b: State)
  {
    MoreNamesInnermost(a.env, b.env) && a.out <= b.out
  }

  /** `execute` through the `Stmt` visitor. */
  function Execute(s: Stmt, st: State): (r: Executed)
    ensures Progress(st, r.state)
    ensures s.Block? ==> SameNames(st.env, r.state.env)
    decreases s
  {
    match s
    case Expression(e) =>
      var v := Evaluate(e, st.env);
      Executed(State(v.env, st.out), if v.result.Failure? then Some(v.result.error) else None)
    case Print(e) =>
      var v := Evaluate(e, st.env);
      if v.result.Failure? then Executed(State(v.env, st.out), Some(v.result.error))
      else Executed(State(v.env, st.out + [v.result.value]), None)
    case Var(name, init) =>
      if init.None? then Executed(State(Define(st.env, name.lexeme, Nil), st.out), None)
      else
        var v := Evaluate(init.value, st.env);
        if v.result.Failure? then Executed(State(v.env, st.out), Some(v.result.error))
        else Executed(State(Define(v.env, name.lexeme, v.result.value), st.out), None)
    case Block(ss) =>
      var inner := ExecuteAll(ss, State(Push(st.env), st.out));
      Executed(State(Pop(inner.state.env), inner.state.out), inner.error)
    case If(c, t, e) =>
      var v := Evaluate(c, st.env);
      var after := State(v.env, st.out);
      if v.result.Failure? then Executed(after, Some(v.result.error))
      else if IsTruthy(v.result.value) then Execute(t, after)
      else if e.Some? then Execute(e.value, after)
      else Executed(after, None)
  }

  /** Run statements one after the other, stopping at the first one that
      raises an error. */
  function ExecuteAll(ss: seq<Stmt>, st: State): (r: Executed)
    ensures Progress(st, r.state)
    decreases ss
  {
    if |ss| == 0 then Executed(st, None)
    else
      var first := Execute(ss[0], st);
      if first.error.Some? then first
      else ExecuteAll(ss[1..], first.state)
  }

  /** `interpret`: run a program in a fresh interpreter. */
  function Interpret(program: seq<Stmt>): (r: Executed)
    ensures |r.state.env| == 1
    ensures |program| == 0 ==> r == Executed(State(Global(), []), None)
  {
    ExecuteAll(program, State(Global(), []))
  }

  // ---------------------------------------------------------------------------
  // Properties

  /** `isTruth`: exactly `nil` and `false` are falsy. */
  lemma {:induction false} TruthinessTable(v: Value)
    ensures !IsTruthy(v) <==> v == Nil || v == Bool(false)
    ensures IsTruthy(Number(0.0)) && IsTruthy(Str(""))
  {
  }

  /** A binary expression evaluates its left operand first; if that fails the
      right operand is never evaluated, otherwise the right operand is
      evaluated in the scope chain the left one left behind, and only then is
      the operator looked at. */
  lemma {:induction false} LeftBeforeRight(l: Expr, op: Token, r: Expr, env: Env)
    ensures Evaluate(l, env).result.Failure? ==> Evaluate(Binary(l, op, r), env) == Evaluate(l, env)
    ensures Evaluate(l, env).result.Success? && Evaluate(r, Evaluate(l, env).env).result.Failure? ==>
              Evaluate(Binary(l, op, r), env) == Evaluate(r, Evaluate(l, env).env)
    ensures Evaluate(l, env).result.Success? && Evaluate(r, Evaluate(l, env).env).result.Success? ==>
              Evaluate(Binary(l, op, r), env).result ==
                ApplyBinary(op.kind, Evaluate(l, env).result.value, Evaluate(r, Evaluate(l, env).env).result.value)
    ensures Evaluate(Binary(l, op, r), env).env == (if Evaluate(l, env).result.Failure? then Evaluate(l, env).env else Evaluate(r, Evaluate(l, env).env).env)
  {
  }

  /** A variable reads the innermost binding of its name, through the
      enclosing scopes, and fails with "undefined variable" when no scope
      binds it; reading changes no binding. */
  lemma {:induction false} VariableReads(name: Token, env: Env)
    ensures Evaluate(Variable(name), env).env == env
    ensures name.lexeme in env[|env| - 1] ==> Evaluate(Variable(name), env).result == Success(env[|env| - 1][name.lexeme])
    ensures forall i | 0 <= i < |env| - 1 ::
              name.lexeme in env[i] && (forall j | i < j < |env| :: name.lexeme !in env[j]) ==>
                Evaluate(Variable(name), env).result == Success(env[i][name.lexeme])
    ensures (forall i | 0 <= i < |env| :: name.lexeme !in env[i]) ==>
              Evaluate(Variable(name), env).result == Failure(UndefinedVariable)
  {
  }

  /** A literal evaluates to its own value and a grouping to what its inner
      expression evaluates to; neither touches the scope chain by itself. */
  lemma {:induction false} LiteralAndGrouping(v: Value, x: Expr, env: Env)
    ensures Evaluate(Literal(v), env) == Evaluated(env, Success(v))
    ensures Evaluate(Grouping(x), env) == Evaluate(x, env)
  {
  }

  /** Laws tying the operators to each other: `>=` is `<=` with its operands
      swapped, `==` is symmetric, `!=` is the negation of `==` wherever it is
      determined, `+` adds numbers in either order, and subtracting then
      adding back the same number gives the original. */
  lemma {:induction false} OperatorLaws(a: Value, b: Value)
    ensures ApplyBinary(GREATER_EQUAL, a, b) == ApplyBinary(LESS_EQUAL, b, a)
    ensures ApplyBinary(EQUAL_EQUAL, a, b) == ApplyBinary(EQUAL_EQUAL, b, a)
    ensures ApplyBinary(BANG_EQUAL, a, b).Success? ==>
              ApplyBinary(BANG_EQUAL, a, b).value == Bool(!ApplyBinary(EQUAL_EQUAL, a, b).value.b)
    ensures a.Number? && b.Number? ==> ApplyBinary(PLUS, a, b) == ApplyBinary(PLUS, b, a)
    ensures a.Number? && b.Number? ==> ApplyBinary(PLUS, ApplyBinary(MINUS, a, b).value, b) == Success(a)
  {
    EqualityLaws(a, b);
    SumLaws(a, b);
  }

  /** The equality half of `OperatorLaws`. */
  lemma {:induction false} EqualityLaws(a: Value, b: Value)
    ensures ApplyBinary(EQUAL_EQUAL, a, b) == ApplyBinary(EQUAL_EQUAL, b, a)
    ensures ApplyBinary(BANG_EQUAL, a, b).Success? ==>
              ApplyBinary(BANG_EQUAL, a, b).value == Bool(!ApplyBinary(EQUAL_EQUAL, a, b).value.b)
  {
  }

  /** The arithmetic half of `OperatorLaws`. */
  lemma {:induction false} SumLaws(a: Value, b: Value)
    ensures a.Number? && b.Number? ==> ApplyBinary(PLUS, a, b) == ApplyBinary(PLUS, b, a)
    ensures a.Number? && b.Number? ==> ApplyBinary(PLUS, ApplyBinary(MINUS, a, b).value, b) == Success(a)
  {
  }

  /** `>` and `<` parse, but evaluating them always fails: with the operands'
      error, or with "unsupported operator" once both operands have values. */
  lemma {:induction false} ComparisonsFail(l: Expr, op: Token, r: Expr, env: Env)
    requires op.kind == GREATER || op.kind == LESS
    ensures Evaluate(Binary(l, op, r), env).result.Failure?
    ensures Evaluate(l, env).result.Success? && Evaluate(r, Evaluate(l, env).env).result.Success? ==>
              Evaluate(Binary(l, op, r), env).result.error == UnsupportedOperator
  {
  }

  /** Every unary expression fails, after its operand has been evaluated (so
      an assignment inside the operand still takes effect). */
  lemma {:induction false} UnaryAlwaysFails(op: Token, x: Expr, env: Env)
    ensures Evaluate(Unary(op, x), env).result.Failure?
    ensures Evaluate(Unary(op, x), env).env == Evaluate(x, env).env
  {
  }

  /** An assignment yields the assigned value when the innermost scope binds
      the name; when only an enclosing scope does, the binding is still
      updated but the expression fails. */
  lemma {:induction false} AssignYieldsValue(name: Token, x: Expr, env: Env)
    requires Evaluate(x, env).result.Success?
    ensures var v := Evaluate(x, env);
            var r := Evaluate(Expr.Assign(name, x), env);
            && (name.lexeme in v.env[|v.env| - 1] ==> r.result == v.result)
            && (Nearest(v.env, name.lexeme) >= 0 ==> Get(r.env, name.lexeme) == v.result)
            && (name.lexeme !in v.env[|v.env| - 1] ==> r.result == Failure(UndefinedVariable))
  {
    var v := Evaluate(x, env);
    var written := Environment.Assign(v.env, name.lexeme, v.result.value);
    assert Evaluate(Expr.Assign(name, x), env).env == written.env;
    if Nearest(v.env, name.lexeme) >= 0 {
      GetAfterAssign(v.env, name.lexeme, v.result.value);
    }
  }

  /** `var` binds the name in the innermost scope to its initializer's value,
      or to `nil` without one. */
  lemma {:induction false} VarDefines(name: Token, init: Option<Expr>, st: State)
    requires init.Some? ==> Evaluate(init.value, st.env).result.Success?
    ensures var r := Execute(Var(name, init), st);
            && r.error.None?
            && name.lexeme in r.state.env[|r.state.env| - 1]
            && Get(r.state.env, name.lexeme) == (if init.None? then Success(Nil) else Evaluate(init.value, st.env).result)
  {
  }

  /** `print` appends the value of its expression to the output. */
  lemma {:induction false} PrintAppends(e: Expr, st: State)
    requires Evaluate(e, st.env).result.Success?
    ensures Execute(Print(e), st).state.out == st.out + [Evaluate(e, st.env).result.value]
  {
  }

  /** `if` runs the then-branch iff the condition is truthy, otherwise the
      else-branch if there is one, otherwise nothing. */
  lemma {:induction false} IfChooses(c: Expr, t: Stmt, e: Option<Stmt>, st: State)
    requires Evaluate(c, st.env).result.Success?
    ensures var v := Evaluate(c, st.env);
            IsTruthy(v.result.value) ==> Execute(If(c, t, e), st) == Execute(t, State(v.env, st.out))
    ensures var v := Evaluate(c, st.env);
            !IsTruthy(v.result.value) && e.Some? ==> Execute(If(c, t, e), st) == Execute(e.value, State(v.env, st.out))
    ensures var v := Evaluate(c, st.env);
            !IsTruthy(v.result.value) && e.None? ==> Execute(If(c, t, e), st) == Executed(State(v.env, st.out), None)
  {
  }

  /** Whatever way a block is left, normally or by an error, the scope chain
      has the depth and the names it had before: the block's own definitions
      are gone, so a name the enclosing chain did not bind is still unbound. */
  lemma {:induction false} BlockRestoresScope(ss: seq<Stmt>, st: State, name: string)
    ensures |Execute(Block(ss), st).state.env| == |st.env|
    ensures Get(st.env, name).Failure? ==> Get(Execute(Block(ss), st).state.env, name).Failure?
  {
    var r := Execute(Block(ss), st);
    NearestFrame(st.env, r.state.env, name);
  }

  /** Running `a + b` is running `a`, then, unless `a` stopped with an error,
      running `b` from where `a` left off. */
  lemma {:induction false} ExecuteAllAppend(a: seq<Stmt>, b: seq<Stmt>, st: State)
    ensures ExecuteAll(a + b, st) ==
              if ExecuteAll(a, st).error.Some? then ExecuteAll(a, st)
              else ExecuteAll(b, ExecuteAll(a, st).state)
    decreases |a|
  {
    if |a| == 0 {
      assert a + b == b;
    } else {
      assert (a + b)[0] == a[0];
      assert (a + b)[1..] == a[1..] + b;
      var first := Execute(a[0], st);
      if first.error.None? {
        ExecuteAllAppend(a[1..], b, first.state);
      }
    }
  }

  // ---------------------------------------------------------------------------
  // Arithmetic against an independent denotation

  /** Number literals combined with `+`, `-` and `*`, possibly parenthesised. */
  predicate IsArith(e: Expr)
  {
    match e
    case Literal(v) => v.Number?
    case Grouping(x) => IsArith(x)
    case Binary(l, op, r) => (op.kind == PLUS || op.kind == MINUS || op.kind == STAR) && IsArith(l) && IsArith(r)
    case _ => false
  }

  /** The real number an arithmetic expression denotes. */
  function Denote(e: Expr): real
    requires IsArith(e)
  {
    match e
    case Literal(v) => v.n
    case Grouping(x) => Denote(x)
    case Binary(l, op, r) => Arith(op.kind, Denote(l), Denote(r))
  }

  /** The real sum, difference or product, by operator. */
  function Arith(kind: TokenType, x: real, y: real): real
  {
    if kind == PLUS then x + y else if kind == MINUS then x - y else x * y
  }

  /** An arithmetic expression evaluates, in any scope chain and without
      touching it, to the number it denotes. */
  lemma {:induction false} EvaluateArith(e: Expr, env: Env)
    requires IsArith(e)
    ensures Evaluate(e, env) == Evaluated(env, Success(Number(Denote(e))))
  {
    match e
    case Literal(v) =>
    case Grouping(x) => EvaluateArith(x, env);
    case Binary(l, op, r) =>
      EvaluateArith(l, env);
      EvaluateArith(r, env);
      ArithStep(l, op, r, env, Denote(l), Denote(r));
  }

  /** `+`, `-` and `*` applied to operands that evaluate, leaving the scope
      chain alone, to two numbers give their real sum, difference and product. */
  lemma {:induction false} ArithStep(l: Expr, op: Token, r: Expr, env: Env, x: real, y: real)
    requires op.kind == PLUS || op.kind == MINUS || op.kind == STAR
    requires Evaluate(l, env) == Evaluated(env, Success(Number(x)))
    requires Evaluate(r, env) == Evaluated(env, Success(Number(y)))
    ensures Evaluate(Binary(l, op, r), env) == Evaluated(env, Success(Number(Arith(op.kind, x, y))))
  {
    ArithOperator(op.kind, Number(x), Number(y));
  }

  /** `+`, `-` and `*` on two numbers are the real sum, difference and product. */
  lemma {:induction false} ArithOperator(kind: TokenType, a: Value, b: Value)
    requires kind == PLUS || kind == MINUS || kind == STAR
    requires a.Number? && b.Number?
    ensures ApplyBinary(kind, a, b) == Success(Number(Arith(kind, a.n, b.n)))
  {
    var r := ApplyBinary(kind, a, b);
    assert r.Success? && r.value.Number?;
    if kind == STAR {
      assert r.value.n == a.n * b.n == Arith(kind, a.n, b.n);
    }
  }

  // ---------------------------------------------------------------------------
  // Whole programs

  /** `var a = 1; { var a = 2; print a; } print a;` prints 2, then 1: the
      block's `a` shadows the global one and is gone after the block. */
  lemma {:induction false} ShadowingProgram()
    ensures var a := Token(IDENTIFIER, "a", None, 0);
            Interpret([
              Var(a, Some(Literal(Number(1.0)))),
              Block([Var(a, Some(Literal(Number(2.0)))), Print(Variable(a))]),
              Print(Variable(a))
            ]) == Executed(State([map["a" := Number(1.0)]], [Number(2.0), Number(1.0)]), None)
  {
    var a := Token(IDENTIFIER, "a", None, 0);
    var one, two := Number(1.0), Number(2.0);
    var global := [map["a" := one]];
    var first := Execute(Var(a, Some(Literal(one))), State(Global(), []));
    assert first == Executed(State(global, []), None);
    var inBlock := Push(global);
    assert inBlock == [map["a" := one], map[]];
    var defined := Define(inBlock, "a", two);
    assert defined == [map["a" := one], map["a" := two]];
    var body := [Var(a, Some(Literal(two))), Print(Variable(a))];
    var declared := Execute(body[0], State(inBlock, []));
    assert declared == Executed(State(defined, []), None);
    assert Get(defined, "a") == Success(two);
    var printed := Execute(body[1], declared.state);
    assert printed == Executed(State(defined, [two]), None);
    assert ExecuteAll(body[2..], printed.state) == printed;
    assert ExecuteAll(body[1..], declared.state) == printed;
    assert ExecuteAll(body, State(inBlock, [])) == printed;
    assert Pop(defined) == global;
    var block := Execute(Block(body), first.state);
    assert block == Executed(State(global, [two]), None);
    assert Get(global, "a") == Success(one);
    var last := Execute(Print(Variable(a)), block.state);
    assert last == Executed(State(global, [two, one]), None);
    var program := [Var(a, Some(Literal(one))), Block(body), Print(Variable(a))];
    assert ExecuteAll(program[3..], last.state) == last;
    assert ExecuteAll(program[2..], block.state) == last;
    assert ExecuteAll(program[1..], first.state) == last;
  }

  /** `var a = 1; { a = 2; } print a;` writes 2 into the global `a`, but the
      assignment fails because the block's own scope does not bind `a`, so
      the run stops before printing anything. */
  lemma {:induction false} EnclosingAssignProgram()
    ensures var a := Token(IDENTIFIER, "a", None, 0);
            Interpret([
              Var(a, Some(Literal(Number(1.0)))),
              Block([Expression(Expr.Assign(a, Literal(Number(2.0))))]),
              Print(Variable(a))
            ]) == Executed(State([map["a" := Number(2.0)]], []), Some(UndefinedVariable))
  {
    var a := Token(IDENTIFIER, "a", None, 0);
    var global := [map["a" := Number(1.0)]];
    var first := Execute(Var(a, Some(Literal(Number(1.0)))), State(Global(), []));
    assert first == Executed(State(global, []), None);
    var inBlock := Push(global);
    var assign := Environment.Assign(inBlock, "a", Number(2.0));
    assert inBlock == [map["a" := Number(1.0)], map[]];
    assert Nearest(inBlock, "a") == 0;
    assert map["a" := Number(1.0)]["a" := Number(2.0)] == map["a" := Number(2.0)];
    assert assign.env == [map["a" := Number(2.0)], map[]];
    assert Pop(assign.env) == [map["a" := Number(2.0)]];
    var stmt := Expression(Expr.Assign(a, Literal(Number(2.0))));
    assert Evaluate(stmt.expr, inBlock) == Evaluated(assign.env, Failure(UndefinedVariable));
    assert ExecuteAll([stmt], State(inBlock, [])) == Executed(State(assign.env, []), Some(UndefinedVariable));
    var block := Execute(Block([Expression(Expr.Assign(a, Literal(Number(2.0))))]), first.state);
    assert block == Executed(State([map["a" := Number(2.0)]], []), Some(UndefinedVariable));
  }
}
