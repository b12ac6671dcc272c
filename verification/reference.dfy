/** A reference semantics for the closure-free fragment (variables,
    literals, `Add`, `Eq`, `If`): a plain structural recursion over the tree
    with a single snapshot for the variables, no arena and no fuel. Agreement
    with `Eval` shows that on this fragment evaluation always finishes with
    fuel above the tree's height, allocates no environment, and fails
    exactly where the reference fails. */
module Reference {
  import opened Wrappers
  import opened Syntax
  import opened Errors
  import opened EnvArena
  import opened Evaluator

  predicate ClosureFree(e: Expr) {
    match e
    case Var(_) => true
    case Val(_) => true
    case Add(l, r) => ClosureFree(l) && ClosureFree(r)
    case Eq(l, r) => ClosureFree(l) && ClosureFree(r)
    case If(c, t, f) => ClosureFree(c) && ClosureFree(t) && ClosureFree(f)
    case Call(_, _) => false
    case Closure(_, _) => false
  }

  function Height(e: Expr): nat {
    match e
    case Add(l, r) => 1 + Max(Height(l), Height(r))
    case Eq(l, r) => 1 + Max(Height(l), Height(r))
    case If(c, t, f) => 1 + Max(Height(c), Max(Height(t), Height(f)))
    case Call(f, a) => 1 + Max(Height(f), Height(a))
    case Closure(Lambda(_, body), _) => 1 + Height(body)
    case _ => 0
  }

  function Max(x: nat, y: nat): nat {
    if x < y then y else x
  }

  function Denote(e: Expr, rho: Snapshot): Result<Expr, Error>
    requires ClosureFree(e)
  {
    match e
    case Var(x) => if x in rho then Ok(rho[x]) else Err(UnboundVariable(x))
    case Val(_) => Ok(e)
    case Add(l, r) =>
      var lv :- Denote(l, rho);
      var rv :- Denote(r, rho);
      AddValues(lv, rv)
    case Eq(l, r) =>
      var lv :- Denote(l, rho);
      var rv :- Denote(r, rho);
      EqValues(lv, rv)
    case If(c, t, f) =>
      var cv :- Denote(c, rho);
      if cv == Val(Bool(true)) then Denote(t, rho)
      else if cv == Val(Bool(false)) then Denote(f, rho)
      else Err(CondNotBool(cv))
  }

  /** `Denote`'s verdict as an evaluation outcome that leaves `arena` alone. */
  function AsOutcome(d: Result<Expr, Error>, arena: Arena): Outcome {
    match d
    case Ok(v) => Done(v, arena)
    case Err(err) => Failed(err)
  }

  lemma {:induction false} EvalMatchesReference(e: Expr, env: Env, arena: Arena, fuel: nat)
    requires ClosureFree(e) && env < |arena| && fuel > Height(e)
    ensures Eval(e, env, arena, fuel) == AsOutcome(Denote(e, arena[env]), arena)
  {
    var k := fuel - 1;
    match e
    case Var(_) =>
    case Val(_) =>
    case Add(l, r) =>
      EvalMatchesReference(l, env, arena, k);
      EvalMatchesReference(r, env, arena, k);
    case Eq(l, r) =>
      EvalMatchesReference(l, env, arena, k);
      EvalMatchesReference(r, env, arena, k);
    case If(c, t, f) =>
      EvalMatchesReference(c, env, arena, k);
      EvalMatchesReference(t, env, arena, k);
      EvalMatchesReference(f, env, arena, k);
  }
}
