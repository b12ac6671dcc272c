/** Properties of `Evaluator.Eval` that hold for every expression:
    the arena only grows, results are value forms, the
    "closure without environment" failure cannot arise, fuel only decides
    whether an answer is reached and never which answer, and the
    per-construct evaluation order of the source. */
module EvalProperties {
  import opened Wrappers
  import opened Syntax
  import opened Errors
  import opened EnvArena
  import opened Evaluator

  /** What a well-formed start guarantees of an outcome: a result is a value
      form that only names issued handles, the arena stays well formed, and
      neither of the two internal-invariant failures occurs. */
  ghost predicate Safe(r: Outcome) {
    match r
    case Done(v, a) => WellFormed(a) && ValueForm(v, |a|) && Bounded(v, |a|)
    case Failed(err) => !err.DanglingEnv? && !err.UnboundClosureEnv?
    case OutOfFuel => true
  }

  lemma {:induction false} EvalSafe(e: Expr, env: Env, arena: Arena, fuel: nat)
    requires WellFormed(arena) && env < |arena| && Bounded(e, |arena|)
    ensures Safe(Eval(e, env, arena, fuel))
    decreases fuel
  {
    if fuel == 0 {
      return;
    }
    var k := fuel - 1;
    match e
    case Val(_) =>
    case Var(_) =>
    case Closure(_, _) =>
    case If(c, t, f) =>
      EvalSafe(c, env, arena, k);
      var cr := Eval(c, env, arena, k);
      if cr.Done? {
        BoundedGrows(t, |arena|, |cr.arena|);
        BoundedGrows(f, |arena|, |cr.arena|);
        EvalSafe(t, env, cr.arena, k);
        EvalSafe(f, env, cr.arena, k);
      }
    case Add(l, r) =>
      EvalSafe(l, env, arena, k);
      var lr := Eval(l, env, arena, k);
      if lr.Done? {
        BoundedGrows(r, |arena|, |lr.arena|);
        EvalSafe(r, env, lr.arena, k);
      }
    case Eq(l, r) =>
      EvalSafe(l, env, arena, k);
      var lr := Eval(l, env, arena, k);
      if lr.Done? {
        BoundedGrows(r, |arena|, |lr.arena|);
        EvalSafe(r, env, lr.arena, k);
      }
    case Call(f, a) =>
      EvalSafe(f, env, arena, k);
      var fr := Eval(f, env, arena, k);
      if fr.Done? && fr.value.Closure? {
        BoundedGrows(a, |arena|, |fr.arena|);
        EvalSafe(a, env, fr.arena, k);
        var ar := Eval(a, env, fr.arena, k);
        if ar.Done? {
          var h := fr.value.env.value;
          var lam := fr.value.lambda;
          InsertWellFormed(ar.arena, h, lam.param, ar.value);
          var ins := Insert(ar.arena, h, lam.param, ar.value).value;
          BoundedGrows(fr.value, |fr.arena|, |ins.0|);
          EvalSafe(lam.body, ins.1, ins.0, k);
        }
      }
  }

  /** Evaluating a parser-built expression under a fresh empty environment
      never applies a closure that lacks an environment, never touches an
      unissued handle, and never yields a syntactic lambda. */
  lemma UnboundClosureEnvUnreachable(e: Expr, arena: Arena, fuel: nat)
    requires WellFormed(arena) && Syntactic(e)
    ensures var (a0, env) := Empty(arena);
      var r := Eval(e, env, a0, fuel);
      (r.Failed? ==> !r.error.UnboundClosureEnv? && !r.error.DanglingEnv?) &&
      (r.Done? ==> !(r.value.Closure? && r.value.env.None?))
  {
    var (a0, env) := Empty(arena);
    EmptyWellFormed(arena);
    SyntacticIsBounded(e, |a0|);
    EvalSafe(e, env, a0, fuel);
  }

  /** A result of evaluation is a fixpoint: evaluated again, under any
      environment and with any positive fuel, it is returned unchanged and
      the arena is untouched. */
  lemma ResultsAreFixpoints(e: Expr, env: Env, arena: Arena, fuel: nat, env': Env, fuel': nat)
    requires WellFormed(arena) && env < |arena| && Bounded(e, |arena|)
    requires Eval(e, env, arena, fuel).Done?
    requires fuel' > 0
    ensures var r := Eval(e, env, arena, fuel);
      Eval(r.value, env', r.arena, fuel') == r
  {
    EvalSafe(e, env, arena, fuel);
  }

  /** Fuel is only a bound: once evaluation finishes, more fuel yields the
      very same outcome, error or value. */
  lemma {:induction false} FuelMonotone(e: Expr, env: Env, arena: Arena, fuel: nat, more: nat)
    requires fuel <= more
    requires !Eval(e, env, arena, fuel).OutOfFuel?
    ensures Eval(e, env, arena, more) == Eval(e, env, arena, fuel)
    decreases fuel, 0
  {
    if fuel == 0 {
      return;
    }
    var k, k' := fuel - 1, more - 1;
    match e
    case Val(_) =>
    case Var(_) =>
    case Closure(_, _) =>
    case If(c, t, f) => FuelMonotoneIf(c, t, f, env, arena, k, k');
    case Add(l, r) => FuelMonotoneAdd(l, r, env, arena, k, k');
    case Eq(l, r) => FuelMonotoneEq(l, r, env, arena, k, k');
    case Call(f, a) => FuelMonotoneCall(f, a, env, arena, k, k');
  }

  lemma {:induction false} FuelMonotoneIf(c: Expr, t: Expr, f: Expr, env: Env, arena: Arena, fuel: nat, more: nat)
    requires fuel <= more
    requires !IfThenElse(c, t, f, env, arena, fuel).OutOfFuel?
    ensures IfThenElse(c, t, f, env, arena, more) == IfThenElse(c, t, f, env, arena, fuel)
    decreases fuel, 1
  {
    FuelMonotone(c, env, arena, fuel, more);
    var cr := Eval(c, env, arena, fuel);
    if cr.Done? {
      if cr.value == Val(Bool(true)) {
        FuelMonotone(t, env, cr.arena, fuel, more);
      } else if cr.value == Val(Bool(false)) {
        FuelMonotone(f, env, cr.arena, fuel, more);
      }
    }
  }

  lemma {:induction false} FuelMonotoneAdd(l: Expr, r: Expr, env: Env, arena: Arena, fuel: nat, more: nat)
    requires fuel <= more
    requires !EvalAdd(l, r, env, arena, fuel).OutOfFuel?
    ensures EvalAdd(l, r, env, arena, more) == EvalAdd(l, r, env, arena, fuel)
    decreases fuel, 1
  {
    FuelMonotone(l, env, arena, fuel, more);
    var lr := Eval(l, env, arena, fuel);
    if lr.Done? {
      FuelMonotone(r, env, lr.arena, fuel, more);
    }
  }

  lemma {:induction false} FuelMonotoneEq(l: Expr, r: Expr, env: Env, arena: Arena, fuel: nat, more: nat)
    requires fuel <= more
    requires !EvalEq(l, r, env, arena, fuel).OutOfFuel?
    ensures EvalEq(l, r, env, arena, more) == EvalEq(l, r, env, arena, fuel)
    decreases fuel, 1
  {
    FuelMonotone(l, env, arena, fuel, more);
    var lr := Eval(l, env, arena, fuel);
    if lr.Done? {
      FuelMonotone(r, env, lr.arena, fuel, more);
    }
  }

  lemma {:induction false} FuelMonotoneCall(f: Expr, a: Expr, env: Env, arena: Arena, fuel: nat, more: nat)
    requires fuel <= more
    requires !Apply(f, a, env, arena, fuel).OutOfFuel?
    ensures Apply(f, a, env, arena, more) == Apply(f, a, env, arena, fuel)
    decreases fuel, 1
  {
    FuelMonotone(f, env, arena, fuel, more);
    var fr := Eval(f, env, arena, fuel);
    if fr.Done? && fr.value.Closure? {
      FuelMonotone(a, env, fr.arena, fuel, more);
      var ar := Eval(a, env, fr.arena, fuel);
      if ar.Done? && fr.value.env.Some? {
        var ins := Insert(ar.arena, fr.value.env.value, fr.value.lambda.param, ar.value);
        if ins.Ok? {
          FuelMonotone(fr.value.lambda.body, ins.value.1, ins.value.0, fuel, more);
        }
      }
    }
  }

  /** Literal values and closures that already carry an environment
      evaluate to themselves and leave the arena as it was. */
  lemma ValueFormsSelfEvaluate(e: Expr, env: Env, arena: Arena, fuel: nat)
    requires e.Val? || (e.Closure? && e.env.Some?)
    requires fuel > 0
    ensures Eval(e, env, arena, fuel) == Done(e, arena)
  {
  }

  /** A variable yields its binding exactly as stored, without evaluating it
      again; an absent name is `UnboundVariable`. */
  lemma VarLookup(x: Name, env: Env, arena: Arena, fuel: nat)
    requires env < |arena| && fuel > 0
    ensures x in arena[env] ==> Eval(Var(x), env, arena, fuel) == Done(arena[env][x], arena)
    ensures x !in arena[env] ==> Eval(Var(x), env, arena, fuel) == Failed(UnboundVariable(x))
  {
  }

  /** A syntactic lambda captures the current environment, whatever it is,
      and allocates nothing. */
  lemma LambdaCapturesEnv(param: Name, body: Expr, env: Env, arena: Arena, fuel: nat)
    requires fuel > 0
    ensures Eval(Fun(param, body), env, arena, fuel) == Done(Closure(Lambda(param, body), Some(env)), arena)
  {
  }

  /** `If` evaluates the condition and then only the chosen branch: the
      branch not taken can be replaced by anything, even a failing
      expression, without changing the outcome. */
  lemma IfEvaluatesOneBranch(c: Expr, t: Expr, f: Expr, t': Expr, f': Expr,
                             env: Env, arena: Arena, fuel: nat)
    requires fuel > 0
    ensures var cr := Eval(c, env, arena, fuel - 1);
      cr.Done? && cr.value == Val(Bool(true)) ==>
        Eval(If(c, t, f), env, arena, fuel) == Eval(If(c, t, f'), env, arena, fuel)
          == Eval(t, env, cr.arena, fuel - 1)
    ensures var cr := Eval(c, env, arena, fuel - 1);
      cr.Done? && cr.value == Val(Bool(false)) ==>
        Eval(If(c, t, f), env, arena, fuel) == Eval(If(c, t', f), env, arena, fuel)
          == Eval(f, env, cr.arena, fuel - 1)
    ensures var cr := Eval(c, env, arena, fuel - 1);
      cr.Done? && cr.value != Val(Bool(true)) && cr.value != Val(Bool(false)) ==>
        Eval(If(c, t, f), env, arena, fuel) == Eval(If(c, t', f'), env, arena, fuel)
          == Failed(CondNotBool(cr.value))
    ensures var cr := Eval(c, env, arena, fuel - 1);
      !cr.Done? ==> Eval(If(c, t, f), env, arena, fuel) == cr
  {
  }

  /** `Add` and `Eq` evaluate the left operand, then the right one, and only
      then look at the kinds: an error in either operand wins over a kind
      mismatch. */
  lemma BinaryOperandsFirst(l: Expr, r: Expr, env: Env, arena: Arena, fuel: nat)
    requires fuel > 0
    ensures var lr := Eval(l, env, arena, fuel - 1);
      !lr.Done? ==> Eval(Add(l, r), env, arena, fuel) == lr == Eval(Eq(l, r), env, arena, fuel)
    ensures var lr := Eval(l, env, arena, fuel - 1);
      lr.Done? && !Eval(r, env, lr.arena, fuel - 1).Done? ==>
        Eval(Add(l, r), env, arena, fuel) == Eval(r, env, lr.arena, fuel - 1)
          == Eval(Eq(l, r), env, arena, fuel)
  {
  }

  /** Integer addition: two integer results add, with an `i32` overflow an
      error; any other kind of operand, a closure included, is an error. */
  lemma AddSemantics(l: Expr, r: Expr, env: Env, arena: Arena, fuel: nat)
    requires fuel > 0
    requires Eval(l, env, arena, fuel - 1).Done?
    requires Eval(r, env, Eval(l, env, arena, fuel - 1).arena, fuel - 1).Done?
    ensures var lr := Eval(l, env, arena, fuel - 1);
      var rr := Eval(r, env, lr.arena, fuel - 1);
      var sum := Eval(Add(l, r), env, arena, fuel);
      (sum.Done? <==> lr.value.Val? && lr.value.v.Int? && rr.value.Val? && rr.value.v.Int? &&
                      I32_MIN <= lr.value.v.i + rr.value.v.i <= I32_MAX) &&
      (sum.Done? ==> sum == Done(Val(Int(lr.value.v.i + rr.value.v.i)), rr.arena)) &&
      !sum.OutOfFuel? &&
      (sum.Failed? && lr.value.Val? && lr.value.v.Int? && rr.value.Val? && rr.value.v.Int? ==>
         sum.error == AddOverflow(lr.value.v.i, rr.value.v.i)) &&
      (sum.Failed? && !(lr.value.Val? && lr.value.v.Int? && rr.value.Val? && rr.value.v.Int?) ==>
         sum.error == AddTypeMismatch(lr.value, rr.value))
  {
  }

  /** Equality: same-kind values compare, a mixed pair or a closure operand
      is an error rather than `false`. */
  lemma EqSemantics(l: Expr, r: Expr, env: Env, arena: Arena, fuel: nat)
    requires fuel > 0
    requires Eval(l, env, arena, fuel - 1).Done?
    requires Eval(r, env, Eval(l, env, arena, fuel - 1).arena, fuel - 1).Done?
    ensures var lr := Eval(l, env, arena, fuel - 1);
      var rr := Eval(r, env, lr.arena, fuel - 1);
      var eq := Eval(Eq(l, r), env, arena, fuel);
      (eq.Done? <==> lr.value.Val? && rr.value.Val? && (lr.value.v.Int? <==> rr.value.v.Int?)) &&
      (eq.Done? ==> eq == Done(Val(Bool(lr.value == rr.value)), rr.arena)) &&
      (!eq.Done? ==> eq == Failed(EqTypeMismatch(lr.value, rr.value)))
  {
  }

  /** `Call` evaluates the function position first; if that is not a
      closure it fails with `NotAFunction` before the argument is looked
      at, so any argument gives the same outcome. */
  lemma CallChecksFunctionFirst(f: Expr, a: Expr, a': Expr, env: Env, arena: Arena, fuel: nat)
    requires fuel > 0
    requires Eval(f, env, arena, fuel - 1).Done?
    requires !Eval(f, env, arena, fuel - 1).value.Closure?
    ensures Eval(Call(f, a), env, arena, fuel)
         == Eval(Call(f, a'), env, arena, fuel)
         == Failed(NotAFunction(Eval(f, env, arena, fuel - 1).value))
  {
  }

  /** Every failure on the way to the body reaches the caller unchanged:
      one of the function position, then one of the argument, and a closure
      without a captured environment is rejected only after the argument
      has been evaluated. */
  lemma CallPropagates(f: Expr, a: Expr, env: Env, arena: Arena, fuel: nat)
    requires fuel > 0
    ensures var fr := Eval(f, env, arena, fuel - 1);
      !fr.Done? ==> Eval(Call(f, a), env, arena, fuel) == fr
    ensures var fr := Eval(f, env, arena, fuel - 1);
      fr.Done? && fr.value.Closure? && !Eval(a, env, fr.arena, fuel - 1).Done? ==>
        Eval(Call(f, a), env, arena, fuel) == Eval(a, env, fr.arena, fuel - 1)
    ensures var fr := Eval(f, env, arena, fuel - 1);
      fr.Done? && fr.value.Closure? && fr.value.env.None? &&
      Eval(a, env, fr.arena, fuel - 1).Done? ==>
        Eval(Call(f, a), env, arena, fuel) == Failed(UnboundClosureEnv(fr.value.lambda))
  {
  }

  /** Beta-reduction: with the function evaluated to a closure and then the
      argument evaluated, the body runs under a new snapshot that extends
      the captured one with the parameter bound to the argument value, and
      every earlier snapshot is left as it was. */
  lemma CallBeta(f: Expr, a: Expr, env: Env, arena: Arena, fuel: nat)
    requires fuel > 0
    requires WellFormed(arena) && env < |arena| && Bounded(f, |arena|) && Bounded(a, |arena|)
    requires Eval(f, env, arena, fuel - 1).Done?
    requires Eval(f, env, arena, fuel - 1).value.Closure?
    requires Eval(a, env, Eval(f, env, arena, fuel - 1).arena, fuel - 1).Done?
    ensures var fr := Eval(f, env, arena, fuel - 1);
      var ar := Eval(a, env, fr.arena, fuel - 1);
      var lam := fr.value.lambda;
      fr.value.env.Some? && fr.value.env.value < |ar.arena| &&
      var h := fr.value.env.value;
      var a3 := ar.arena + [ar.arena[h][lam.param := ar.value]];
      Eval(Call(f, a), env, arena, fuel) == Eval(lam.body, |ar.arena|, a3, fuel - 1) &&
      Get(a3, |ar.arena|, lam.param) == Ok(Some(ar.value)) &&
      (forall x :: x != lam.param ==> Get(a3, |ar.arena|, x) == Get(ar.arena, h, x))
  {
    EvalSafe(f, env, arena, fuel - 1);
    var fr := Eval(f, env, arena, fuel - 1);
    var ar := Eval(a, env, fr.arena, fuel - 1);
    var h := fr.value.env.value;
    var lam := fr.value.lambda;
    assert Insert(ar.arena, h, lam.param, ar.value).Ok?;
  }
}
