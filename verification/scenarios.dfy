/** The evaluation facts the source's test suite checks, stated for an
    arbitrary arena and an arbitrary valid environment handle (the suite
    evaluates under a shared, lazily created empty environment, and the
    arena may already hold other snapshots). Each gives a fuel bound above
    which the outcome is fixed. */
module Scenarios {
  import opened Wrappers
  import opened Syntax
  import opened Errors
  import opened EnvArena
  import opened Evaluator

  lemma IntAddition(env: Env, a: Arena, fuel: nat)
    requires fuel >= 2
    ensures Eval(Add(IntLit(2), IntLit(3)), env, a, fuel) == Done(IntLit(5), a)
  {
    assert EvalAdd(IntLit(2), IntLit(3), env, a, fuel - 1) == Done(IntLit(5), a);
  }

  /** Adding an integer to a boolean is a kind error, not a value. */
  lemma IntAdditionMixedKinds(env: Env, a: Arena, fuel: nat)
    requires fuel >= 2
    ensures Eval(Add(IntLit(2), BoolLit(true)), env, a, fuel) == Failed(AddTypeMismatch(IntLit(2), BoolLit(true)))
  {
    assert EvalAdd(IntLit(2), BoolLit(true), env, a, fuel - 1)
        == Failed(AddTypeMismatch(IntLit(2), BoolLit(true)));
  }

  /** `i32` overflow is reported, not wrapped. */
  lemma IntAdditionOverflow(env: Env, a: Arena, fuel: nat)
    requires fuel >= 2
    ensures Eval(Add(IntLit(I32_MAX), IntLit(1)), env, a, fuel) == Failed(AddOverflow(I32_MAX, 1))
  {
    assert EvalAdd(IntLit(I32_MAX), IntLit(1), env, a, fuel - 1) == Failed(AddOverflow(I32_MAX, 1));
  }

  lemma Equality(env: Env, a: Arena, fuel: nat)
    requires fuel >= 2
    ensures Eval(Eq(BoolLit(true), BoolLit(true)), env, a, fuel) == Done(BoolLit(true), a)
    ensures Eval(Eq(BoolLit(true), BoolLit(false)), env, a, fuel) == Done(BoolLit(false), a)
    ensures Eval(Eq(IntLit(10), IntLit(10)), env, a, fuel) == Done(BoolLit(true), a)
    ensures Eval(Eq(IntLit(10), IntLit(20)), env, a, fuel) == Done(BoolLit(false), a)
  {
    assert EvalEq(BoolLit(true), BoolLit(true), env, a, fuel - 1) == Done(BoolLit(true), a);
    assert EvalEq(BoolLit(true), BoolLit(false), env, a, fuel - 1) == Done(BoolLit(false), a);
    assert EvalEq(IntLit(10), IntLit(10), env, a, fuel - 1) == Done(BoolLit(true), a);
    assert EvalEq(IntLit(10), IntLit(20), env, a, fuel - 1) == Done(BoolLit(false), a);
  }

  /** Comparing an integer with a boolean is an error rather than `false`. */
  lemma EqualityMixedKinds(env: Env, a: Arena, fuel: nat)
    requires fuel >= 2
    ensures Eval(Eq(IntLit(1), BoolLit(true)), env, a, fuel) == Failed(EqTypeMismatch(IntLit(1), BoolLit(true)))
  {
    assert EvalEq(IntLit(1), BoolLit(true), env, a, fuel - 1)
        == Failed(EqTypeMismatch(IntLit(1), BoolLit(true)));
  }

  lemma Conditionals(env: Env, a: Arena, fuel: nat)
    requires fuel >= 2
    ensures Eval(If(BoolLit(true), IntLit(42), IntLit(7)), env, a, fuel) == Done(IntLit(42), a)
    ensures Eval(If(BoolLit(false), IntLit(42), IntLit(7)), env, a, fuel) == Done(IntLit(7), a)
  {
    assert IfThenElse(BoolLit(true), IntLit(42), IntLit(7), env, a, fuel - 1) == Done(IntLit(42), a);
    assert IfThenElse(BoolLit(false), IntLit(42), IntLit(7), env, a, fuel - 1) == Done(IntLit(7), a);
  }

  /** The branch not taken is never evaluated, even when it would fail. */
  lemma IfShortCircuits(env: Env, a: Arena, fuel: nat)
    requires fuel >= 2
    ensures Eval(If(BoolLit(true), IntLit(42), Add(IntLit(1), BoolLit(false))), env, a, fuel) == Done(IntLit(42), a)
  {
    assert IfThenElse(BoolLit(true), IntLit(42), Add(IntLit(1), BoolLit(false)), env, a, fuel - 1)
        == Done(IntLit(42), a);
  }

  /** (5 + 3 == 8) && (2 + 2 == 4), written with nested conditionals. */
  lemma CombinedExpression(env: Env, a: Arena, fuel: nat)
    requires fuel >= 4
    ensures Eval(If(Eq(Add(IntLit(5), IntLit(3)), IntLit(8)), Eq(Add(IntLit(2), IntLit(2)), IntLit(4)), BoolLit(false)), env, a, fuel)
         == Done(BoolLit(true), a)
  {
    var c1 := Eq(Add(IntLit(5), IntLit(3)), IntLit(8));
    var c2 := Eq(Add(IntLit(2), IntLit(2)), IntLit(4));
    assert EvalAdd(IntLit(5), IntLit(3), env, a, fuel - 3) == Done(IntLit(8), a);
    assert EvalEq(Add(IntLit(5), IntLit(3)), IntLit(8), env, a, fuel - 2) == Done(BoolLit(true), a);
    assert Eval(c1, env, a, fuel - 1) == Done(BoolLit(true), a);
    assert EvalAdd(IntLit(2), IntLit(2), env, a, fuel - 3) == Done(IntLit(4), a);
    assert EvalEq(Add(IntLit(2), IntLit(2)), IntLit(4), env, a, fuel - 2) == Done(BoolLit(true), a);
    assert Eval(c2, env, a, fuel - 1) == Done(BoolLit(true), a);
    assert IfThenElse(c1, c2, BoolLit(false), env, a, fuel - 1) == Done(BoolLit(true), a);
  }

  /** An unbound name fails with `UnboundVariable` under an empty snapshot. */
  lemma UnboundName(env: Env, a: Arena, fuel: nat)
    requires env < |a| && a[env] == map[] && fuel >= 1
    ensures Eval(Var("q"), env, a, fuel) == Failed(UnboundVariable("q"))
  {
  }

  /** Both operands are evaluated before their kinds are examined, so the
      right operand's failure is reported, not the kind mismatch. */
  lemma OperandErrorBeforeKindError(env: Env, a: Arena, fuel: nat)
    requires env < |a| && a[env] == map[] && fuel >= 2
    ensures Eval(Add(BoolLit(true), Var("q")), env, a, fuel) == Failed(UnboundVariable("q"))
  {
    assert EvalAdd(BoolLit(true), Var("q"), env, a, fuel - 1) == Failed(UnboundVariable("q"));
  }

  /** Applying a non-function fails before the argument is evaluated. */
  lemma ApplyNonFunction(env: Env, a: Arena, fuel: nat)
    requires env < |a| && a[env] == map[] && fuel >= 2
    ensures Eval(Call(IntLit(1), Var("q")), env, a, fuel) == Failed(NotAFunction(IntLit(1)))
  {
    assert Apply(IntLit(1), Var("q"), env, a, fuel - 1) == Failed(NotAFunction(IntLit(1)));
  }

  /** (λx. x + 1) 41 == 42 */
  lemma LambdaAndApplication(env: Env, a: Arena, fuel: nat)
    requires env < |a| && fuel >= 4
    ensures var r := Eval(Call(Fun("x", Add(Var("x"), IntLit(1))), IntLit(41)), env, a, fuel);
      r.Done? && r.value == IntLit(42)
  {
    var a1 := a + [a[env]["x" := IntLit(41)]];
    assert Eval(Var("x"), |a|, a1, fuel - 2) == Done(IntLit(41), a1);
    assert EvalAdd(Var("x"), IntLit(1), |a|, a1, fuel - 2) == Done(IntLit(42), a1);
    assert Eval(Add(Var("x"), IntLit(1)), |a|, a1, fuel - 1) == Done(IntLit(42), a1);
    assert Apply(Fun("x", Add(Var("x"), IntLit(1))), IntLit(41), env, a, fuel - 1) == Done(IntLit(42), a1);
  }

  /** The increment and add-ten functions of the composition test. */
  const Inc: Expr := Fun("x", Add(Var("x"), IntLit(1)))
  const AddTen: Expr := Fun("x", Add(Var("x"), IntLit(10)))

  lemma ApplyInc(arg: Expr, n: I32, env: Env, a: Arena, fuel: nat)
    requires env < |a| && fuel >= 4 && n < I32_MAX
    requires Eval(arg, env, a, fuel - 1).Done? && Eval(arg, env, a, fuel - 1).value == IntLit(n)
    ensures var r := Eval(Call(Inc, arg), env, a, fuel);
      r.Done? && r.value == IntLit(n + 1)
  {
    var ar := Eval(arg, env, a, fuel - 1);
    var a1 := ar.arena + [ar.arena[env]["x" := IntLit(n)]];
    assert Eval(Var("x"), |ar.arena|, a1, fuel - 2) == Done(IntLit(n), a1);
    assert EvalAdd(Var("x"), IntLit(1), |ar.arena|, a1, fuel - 2) == Done(IntLit(n + 1), a1);
    assert Eval(Add(Var("x"), IntLit(1)), |ar.arena|, a1, fuel - 1) == Done(IntLit(n + 1), a1);
    assert Eval(Inc, env, a, fuel - 1) == Done(Closure(Inc.lambda, Some(env)), a);
    assert Apply(Inc, arg, env, a, fuel - 1) == Done(IntLit(n + 1), a1);
  }

  lemma ApplyAddTen(arg: Expr, n: I32, env: Env, a: Arena, fuel: nat)
    requires env < |a| && fuel >= 4 && n <= I32_MAX - 10
    requires Eval(arg, env, a, fuel - 1).Done? && Eval(arg, env, a, fuel - 1).value == IntLit(n)
    ensures var r := Eval(Call(AddTen, arg), env, a, fuel);
      r.Done? && r.value == IntLit(n + 10)
  {
    var ar := Eval(arg, env, a, fuel - 1);
    var a1 := ar.arena + [ar.arena[env]["x" := IntLit(n)]];
    assert Eval(Var("x"), |ar.arena|, a1, fuel - 2) == Done(IntLit(n), a1);
    assert EvalAdd(Var("x"), IntLit(10), |ar.arena|, a1, fuel - 2) == Done(IntLit(n + 10), a1);
    assert Eval(Add(Var("x"), IntLit(10)), |ar.arena|, a1, fuel - 1) == Done(IntLit(n + 10), a1);
    assert Eval(AddTen, env, a, fuel - 1) == Done(Closure(AddTen.lambda, Some(env)), a);
    assert Apply(AddTen, arg, env, a, fuel - 1) == Done(IntLit(n + 10), a1);
  }

  /** g(5) == 15 and then f(15) == 16; and h = λx. f (g x) gives h(5) == 16. */
  lemma FunctionComposition(env: Env, a: Arena, fuel: nat)
    requires env < |a| && fuel >= 8
    ensures var r := Eval(Call(AddTen, IntLit(5)), env, a, fuel);
      r.Done? && r.value == IntLit(15) &&
      var s := Eval(Call(Inc, r.value), env, r.arena, fuel);
      s.Done? && s.value == IntLit(16)
    ensures var r := Eval(Call(Fun("x", Call(Inc, Call(AddTen, Var("x")))), IntLit(5)), env, a, fuel);
      r.Done? && r.value == IntLit(16)
  {
    ApplyAddTen(IntLit(5), 5, env, a, fuel);
    var r := Eval(Call(AddTen, IntLit(5)), env, a, fuel);
    ApplyInc(IntLit(15), 15, env, r.arena, fuel);
    // h(5): the body runs under a snapshot binding x to 5
    var a1 := a + [a[env]["x" := IntLit(5)]];
    assert Eval(Var("x"), |a|, a1, fuel - 3) == Done(IntLit(5), a1);
    ApplyAddTen(Var("x"), 5, |a|, a1, fuel - 2);
    ApplyInc(Call(AddTen, Var("x")), 15, |a|, a1, fuel - 1);
    var hr := Eval(Call(Inc, Call(AddTen, Var("x"))), |a|, a1, fuel - 1);
    assert Apply(Fun("x", Call(Inc, Call(AddTen, Var("x")))), IntLit(5), env, a, fuel - 1) == hr;
  }

  /** outer = λx. λy. x + y */
  const Outer: Expr := Fun("x", Fun("y", Add(Var("x"), Var("y"))))

  /** outer(10) is a closure over a new snapshot binding x to 10. */
  lemma PartialApplicationCaptures(env: Env, a: Arena, fuel: nat)
    requires env < |a| && fuel >= 3
    ensures var r := Eval(Call(Outer, IntLit(10)), env, a, fuel);
      r.Done? &&
      r.value == Closure(Lambda("y", Add(Var("x"), Var("y"))), Some(|a|)) &&
      |a| < |r.arena| && Get(r.arena, |a|, "x") == Ok(Some(IntLit(10)))
  {
    var a1 := a + [a[env]["x" := IntLit(10)]];
    var inner := Closure(Lambda("y", Add(Var("x"), Var("y"))), Some(|a|));
    assert Eval(Fun("y", Add(Var("x"), Var("y"))), |a|, a1, fuel - 1) == Done(inner, a1);
    assert Apply(Outer, IntLit(10), env, a, fuel - 1) == Done(inner, a1);
  }

  /** Applying the captured closure later, under any environment of any
      larger arena, still sees x == 10: outer(10)(5) == 15. */
  lemma CapturedClosureApplied(env: Env, a: Arena, fuel: nat, env': Env, later: Arena, fuel': nat)
    requires env < |a| && fuel >= 3 && fuel' >= 3
    requires var g := Eval(Call(Outer, IntLit(10)), env, a, fuel);
      g.Done? && g.arena <= later && env' < |later|
    ensures var g := Eval(Call(Outer, IntLit(10)), env, a, fuel).value;
      var r := Eval(Call(g, IntLit(5)), env', later, fuel');
      r.Done? && r.value == IntLit(15)
  {
    PartialApplicationCaptures(env, a, fuel);
    var g := Eval(Call(Outer, IntLit(10)), env, a, fuel);
    assert later[|a|] == g.arena[|a|];
    var a2 := later + [later[|a|]["y" := IntLit(5)]];
    assert Eval(Var("x"), |later|, a2, fuel' - 2) == Done(IntLit(10), a2);
    assert Eval(Var("y"), |later|, a2, fuel' - 2) == Done(IntLit(5), a2);
    assert EvalAdd(Var("x"), Var("y"), |later|, a2, fuel' - 2) == Done(IntLit(15), a2);
    assert Eval(Add(Var("x"), Var("y")), |later|, a2, fuel' - 1) == Done(IntLit(15), a2);
    assert Apply(g.value, IntLit(5), env', later, fuel' - 1) == Done(IntLit(15), a2);
  }

  /** outer(20)(6) == 26 in a single expression. */
  lemma CurriedApplication(env: Env, a: Arena, fuel: nat)
    requires env < |a| && fuel >= 5
    ensures var r := Eval(Call(Call(Outer, IntLit(20)), IntLit(6)), env, a, fuel);
      r.Done? && r.value == IntLit(26)
  {
    var a1 := a + [a[env]["x" := IntLit(20)]];
    var inner := Closure(Lambda("y", Add(Var("x"), Var("y"))), Some(|a|));
    assert Eval(Fun("y", Add(Var("x"), Var("y"))), |a|, a1, fuel - 2) == Done(inner, a1);
    assert Apply(Outer, IntLit(20), env, a, fuel - 2) == Done(inner, a1);
    assert Eval(Call(Outer, IntLit(20)), env, a, fuel - 1) == Done(inner, a1);
    var a2 := a1 + [a1[|a|]["y" := IntLit(6)]];
    assert Eval(Var("x"), |a1|, a2, fuel - 2) == Done(IntLit(20), a2);
    assert Eval(Var("y"), |a1|, a2, fuel - 2) == Done(IntLit(6), a2);
    assert EvalAdd(Var("x"), Var("y"), |a1|, a2, fuel - 2) == Done(IntLit(26), a2);
    assert Eval(Add(Var("x"), Var("y")), |a1|, a2, fuel - 1) == Done(IntLit(26), a2);
    assert Apply(Call(Outer, IntLit(20)), IntLit(6), env, a, fuel - 1) == Done(IntLit(26), a2);
  }
}
