/** The scope chain of `Environment.kt`. Scopes nest strictly (a block's scope
    lives exactly as long as the block), so the chain of `enclosing` links is
    a stack of scopes: the global scope first, the innermost scope last. */
module Environment {
  import opened Wrappers
  import opened Errors
  import opened Values

  /** One scope's bindings; `var x;` binds `x` to `Nil`. */
  type Scope = map<string, Value>

  /** A scope chain always has at least the global scope. */
  type Env = env: seq<Scope> | |env| > 0 witness [map[]]

  /** The interpreter's initial environment: one empty global scope. */
  function Global(): (env: Env)
    ensures |env| == 1 && env[0] == map[]
  {
    [map[]]
  }

  /** Entering a block: a fresh, empty innermost scope whose enclosing chain
      is `env`. */
  function Push(env: Env): (r: Env)
    ensures |r| == |env| + 1 && r[..|env|] == env && r[|env|] == map[]
  {
    env + [map[]]
  }

  /** Leave the innermost scope, going back to its enclosing chain. */
  function Pop(env: Env): (r: Env)
    requires |env| > 1
    ensures |r| == |env| - 1 && forall i | 0 <= i < |r| :: r[i] == env[i]
  {
    env[..|env| - 1]
  }

  /** The index of the innermost scope that binds `name`, or -1 if none does. */
  function Nearest(env: seq<Scope>, name: string): (i: int)
    ensures -1 <= i < |env|
    ensures i >= 0 ==> name in env[i]
    ensures forall j | i < j < |env| :: name !in env[j]
    decreases |env|
  {
    if |env| == 0 then -1
    else if name in env[|env| - 1] then |env| - 1
    else Nearest(env[..|env| - 1], name)
  }

  /** `define(name, value)`: bind `name` in the innermost scope, replacing a
      binding it already has there. */
  function Define(env: Env, name: string, v: Value): (r: Env)
    ensures |r| == |env|
    ensures forall i | 0 <= i < |env| - 1 :: r[i] == env[i]
    ensures name in r[|env| - 1] && r[|env| - 1][name] == v
    ensures r[|env| - 1] - {name} == env[|env| - 1] - {name}
    ensures r[|env| - 1].Keys == env[|env| - 1].Keys + {name}
  {
    env[|env| - 1 := env[|env| - 1][name := v]]
  }

  /** `get(name)`: look in this scope, then ask the enclosing one; a name no
      scope binds is an error. */
  function Get(env: Env, name: string): (r: Result<Value, Error>)
    ensures r.Success? <==> Nearest(env, name) >= 0
    ensures r.Success? ==> r.value == env[Nearest(env, name)][name]
    ensures r.Failure? ==> r.error == UndefinedVariable
    decreases |env|
  {
    var current := env[|env| - 1];
    if name in current then Success(current[name])
    else if |env| > 1 then Get(env[..|env| - 1], name)
    else Failure(UndefinedVariable)
  }

  /** The environment after `assign`, and the error it raised if any. */
  datatype Assigned = Assigned(env: Env, error: Option<Error>)

  /** `assign(name, value)`: if this scope binds `name`, rebind it and return;
      otherwise let the enclosing scope try, and then raise "undefined
      variable" regardless of what it did. So an assignment succeeds only when
      the innermost scope binds the name, but the nearest binding is updated
      even when it lives in an enclosing scope. */
  function Assign(env: Env, name: string, v: Value): (r: Assigned)
    ensures |r.env| == |env|
    ensures r.error.None? <==> name in env[|env| - 1]
    ensures r.error.Some? ==> r.error.value == UndefinedVariable
    ensures Nearest(env, name) >= 0 ==>
              r.env == env[Nearest(env, name) := env[Nearest(env, name)][name := v]]
    ensures Nearest(env, name) < 0 ==> r.env == env
    decreases |env|
  {
    var current := env[|env| - 1];
    if name in current then
      Assigned(env[|env| - 1 := current[name := v]], None)
    else if |env| > 1 then
      var outer := Assign(env[..|env| - 1], name, v);
      Assigned(outer.env + [current], Some(UndefinedVariable))
    else
      Assigned(env, Some(UndefinedVariable))
  }

  // ---------------------------------------------------------------------------
  // Properties

  /** After `define(n, v)`, `get(n)` gives `v`, and every other name reads as
      before. */
  lemma {:induction false} GetAfterDefine(env: Env, name: string, v: Value, other: string)
    ensures Get(Define(env, name, v), name) == Success(v)
    ensures other != name ==> Get(Define(env, name, v), other) == Get(env, other)
  {
    var d := Define(env, name, v);
    if other != name {
      NearestFrame(env, d, other);
    }
  }

  /** Two chains that bind `name` in the same scopes agree on where the
      nearest binding of `name` is. */
  lemma {:induction false} NearestFrame(a: seq<Scope>, b: seq<Scope>, name: string)
    requires |a| == |b|
    requires forall i | 0 <= i < |a| :: (name in a[i] <==> name in b[i])
    ensures Nearest(a, name) == Nearest(b, name)
    decreases |a|
  {
    if |a| > 0 && name !in a[|a| - 1] {
      NearestFrame(a[..|a| - 1], b[..|b| - 1], name);
    }
  }

  /** Shadowing: a name bound in the innermost scope reads as that binding,
      whatever the enclosing scopes bind. */
  lemma {:induction false} InnermostShadows(env: Env, name: string)
    requires name in env[|env| - 1]
    ensures Get(env, name) == Success(env[|env| - 1][name])
  {
  }

  /** Entering a scope and defining a name there hides the enclosing binding;
      leaving the scope makes it visible again. */
  lemma {:induction false} ShadowThenLeave(env: Env, name: string, v: Value)
    ensures Get(Define(Push(env), name, v), name) == Success(v)
    ensures Pop(Define(Push(env), name, v)) == env
  {
  }

  /** Assigning a name the innermost scope binds succeeds, changes that one
      binding, and leaves every other scope and binding alone. */
  lemma {:induction false} AssignInCurrentScope(env: Env, name: string, v: Value)
    requires name in env[|env| - 1]
    ensures Assign(env, name, v) == Assigned(Define(env, name, v), None)
  {
  }

  /** The quirk: assigning a name bound only in an enclosing scope updates
      that binding and still fails with "undefined variable". */
  lemma {:induction false} AssignInEnclosingScope(env: Env, name: string, v: Value)
    requires name !in env[|env| - 1] && Nearest(env, name) >= 0
    ensures Assign(env, name, v).error == Some(UndefinedVariable)
    ensures Get(Assign(env, name, v).env, name) == Success(v)
  {
    GetAfterAssign(env, name, v);
  }

  /** After `assign(n, v)` on a name some scope binds, `get(n)` gives `v`,
      whether or not the assignment raised. */
  lemma {:induction false} GetAfterAssign(env: Env, name: string, v: Value)
    requires Nearest(env, name) >= 0
    ensures Get(Assign(env, name, v).env, name) == Success(v)
  {
    NearestAfterUpdate(env, name, v);
  }

  /** Rebinding `name` at its nearest scope keeps that scope the nearest. */
  lemma {:induction false} NearestAfterUpdate(env: Env, name: string, v: Value)
    requires Nearest(env, name) >= 0
    ensures Nearest(env[Nearest(env, name) := env[Nearest(env, name)][name := v]], name) == Nearest(env, name)
  {
    var k := Nearest(env, name);
    var e := env[k := env[k][name := v]];
    NearestUnique(e, name, k);
  }

  /** The index characterised by `Nearest`'s contract is the only one. */
  lemma {:induction false} NearestUnique(env: seq<Scope>, name: string, k: nat)
    requires k < |env| && name in env[k]
    requires forall j | k < j < |env| :: name !in env[j]
    ensures Nearest(env, name) == k
  {
  }

  /** Assigning a name no scope binds fails and changes nothing. */
  lemma {:induction false} AssignUndefined(env: Env, name: string, v: Value)
    requires Get(env, name).Failure?
    ensures Assign(env, name, v) == Assigned(env, Some(UndefinedVariable))
  {
  }
}
