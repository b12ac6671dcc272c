/** The evaluator: strict, call-by-value, substitution-free. Beta-reduction
    extends the closure's captured environment with the evaluated argument.

    The language can diverge (self-application), so evaluation carries fuel:
    every call of `Eval` spends one unit, and running dry is the outcome
    `OutOfFuel`, distinct from every language error. */
module Evaluator {
  import opened Wrappers
  import opened Syntax
  import opened Errors
  import opened EnvArena

  datatype Outcome =
    | Done(value: Expr, arena: Arena)
    | Failed(error: Error)
    | OutOfFuel
  {
    predicate IsFailure() {
      !Done?
    }

    function PropagateFailure(): Outcome
      requires !Done?
    {
      this
    }

    function Extract(): (Expr, Arena)
      requires Done?
    {
      (value, arena)
    }
  }

  /** The value combination of `Int::add`, applied to the two operands once
      both have been evaluated. In Rust's debug build an `i32` overflow
      panics; here it is the error `AddOverflow`. */
  function AddValues(left: Expr, right: Expr): (r: Result<Expr, Error>)
    ensures r.Ok? <==>
      left.Val? && left.v.Int? && right.Val? && right.v.Int? &&
      I32_MIN <= left.v.i + right.v.i <= I32_MAX
    ensures r.Ok? ==> r.value == Val(Int(left.v.i + right.v.i))
    ensures r.Err? && left.Val? && left.v.Int? && right.Val? && right.v.Int? ==>
      r.error == AddOverflow(left.v.i, right.v.i)
    ensures r.Err? && !(left.Val? && left.v.Int? && right.Val? && right.v.Int?) ==>
      r.error == AddTypeMismatch(left, right)
  {
    match (left, right)
    case (Val(Int(x)), Val(Int(y))) =>
      if I32_MIN <= x + y <= I32_MAX then Ok(Val(Int(x + y))) else Err(AddOverflow(x, y))
    case _ => Err(AddTypeMismatch(left, right))
  }

  /** The value combination of `Cond::eq`: two integers or two booleans
      compare; any other pair, a closure included, is an error, never
      `false`. */
  function EqValues(left: Expr, right: Expr): (r: Result<Expr, Error>)
    ensures r.Ok? <==>
      left.Val? && right.Val? && (left.v.Int? <==> right.v.Int?)
    ensures r.Ok? ==> r.value == Val(Bool(left == right))
    ensures r.Err? ==> r.error == EqTypeMismatch(left, right)
  {
    match (left, right)
    case (Val(Int(x)), Val(Int(y))) => Ok(Val(Bool(x == y)))
    case (Val(Bool(x)), Val(Bool(y))) => Ok(Val(Bool(x == y)))
    case _ => Err(EqTypeMismatch(left, right))
  }

  /** `Eval::eval`: the dispatch on the node kind. Every call spends one
      unit of fuel; the operations it dispatches to run with what is left.
      The arena is threaded through and returned. */
  function Eval(e: Expr, env: Env, arena: Arena, fuel: nat): (r: Outcome)
    ensures r.Done? ==> arena <= r.arena
    decreases fuel, 0
  {
    if fuel == 0 then OutOfFuel
    else
      var k := fuel - 1;
      match e
      case Val(_) => Done(e, arena)
      case Var(x) =>
        (match Get(arena, env, x)
         case Err(err) => Failed(err)
         case Ok(None) => Failed(UnboundVariable(x))
         case Ok(Some(bound)) => Done(bound, arena))
      case If(c, t, f) => IfThenElse(c, t, f, env, arena, k)
      case Call(f, a) => Apply(f, a, env, arena, k)
      case Add(l, r) => EvalAdd(l, r, env, arena, k)
      case Eq(l, r) => EvalEq(l, r, env, arena, k)
      case Closure(lam, None) => Done(Closure(lam, Some(env)), arena)
      case Closure(_, Some(_)) => Done(e, arena)
  }

  /** `Cond::if_then_else`: the condition, then only the chosen branch. */
  function IfThenElse(c: Expr, t: Expr, f: Expr, env: Env, arena: Arena, fuel: nat): (r: Outcome)
    ensures r.Done? ==> arena <= r.arena
    decreases fuel, 1
  {
    var cr :- Eval(c, env, arena, fuel);
    if cr.0 == Val(Bool(true)) then Eval(t, env, cr.1, fuel)
    else if cr.0 == Val(Bool(false)) then Eval(f, env, cr.1, fuel)
    else Failed(CondNotBool(cr.0))
  }

  /** `App::app`: the function position, a closure check, the argument,
      then the body under the captured snapshot extended with the
      parameter. */
  function Apply(f: Expr, a: Expr, env: Env, arena: Arena, fuel: nat): (r: Outcome)
    ensures r.Done? ==> arena <= r.arena
    decreases fuel, 1
  {
    var fr :- Eval(f, env, arena, fuel);
    if !fr.0.Closure? then Failed(NotAFunction(fr.0))
    else
      var ar :- Eval(a, env, fr.1, fuel);
      if fr.0.env.None? then Failed(UnboundClosureEnv(fr.0.lambda))
      else
        match Insert(ar.1, fr.0.env.value, fr.0.lambda.param, ar.0)
        case Err(err) => Failed(err)
        case Ok(ins) => Eval(fr.0.lambda.body, ins.1, ins.0, fuel)
  }

  /** `Int::add`: both operands, then the integer sum. */
  function EvalAdd(l: Expr, r: Expr, env: Env, arena: Arena, fuel: nat): (res: Outcome)
    ensures res.Done? ==> arena <= res.arena
    decreases fuel, 1
  {
    var lr :- Eval(l, env, arena, fuel);
    var rr :- Eval(r, env, lr.1, fuel);
    match AddValues(lr.0, rr.0)
    case Err(err) => Failed(err)
    case Ok(sum) => Done(sum, rr.1)
  }

  /** `Cond::eq`: both operands, then the same-kind comparison. */
  function EvalEq(l: Expr, r: Expr, env: Env, arena: Arena, fuel: nat): (res: Outcome)
    ensures res.Done? ==> arena <= res.arena
    decreases fuel, 1
  {
    var lr :- Eval(l, env, arena, fuel);
    var rr :- Eval(r, env, lr.1, fuel);
    match EqValues(lr.0, rr.0)
    case Err(err) => Failed(err)
    case Ok(b) => Done(b, rr.1)
  }
}
