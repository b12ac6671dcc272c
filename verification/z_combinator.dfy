/** The triangular-number program of the source's test suite. The language
    has no recursion primitive; recursion comes from the strict fixed-point
    combinator Z = λf. (λx. f (λv. (x x) v)) (λx. f (λv. (x x) v)).

    Every unfolding of the recursion allocates fresh snapshots, but they
    always have the same shape; the predicates below describe that shape
    independently of the handle numbers, and the two mutually inductive
    lemmas show that calling the resulting function on `n` gives
    `n * (n + 1) / 2` whenever that sum fits in an `i32`. */
module ZCombinator {
  import opened Wrappers
  import opened Syntax
  import opened Errors
  import opened EnvArena
  import opened Evaluator

  /** λv. (x x) v */
  const InnerLam: Lambda := Lambda("v", Call(Call(Var("x"), Var("x")), Var("v")))
  /** λx. f (λv. (x x) v) */
  const OuterLam: Lambda := Lambda("x", Call(Var("f"), Closure(InnerLam, None)))
  /** Z */
  const ZComb: Expr := Fun("f", Call(Closure(OuterLam, None), Closure(OuterLam, None)))

  /** if n == 0 then 0 else n + tri_rec (n + -1) */
  const TriBody: Expr :=
    If(Eq(Var("n"), IntLit(0)), IntLit(0), Add(Var("n"), Call(Var("tri_rec"), Add(Var("n"), IntLit(-1)))))
  const NLam: Lambda := Lambda("n", TriBody)
  /** λtri_rec. λn. … */
  const TriLam: Lambda := Lambda("tri_rec", Closure(NLam, None))
  /** λf. tri f */
  const GLam: Lambda := Lambda("f", Call(Closure(TriLam, None), Var("f")))
  /** Z (λf. tri f) */
  const TriFunc: Expr := Call(ZComb, Closure(GLam, None))

  /** 0 + 1 + … + n */
  function TriSum(n: nat): nat {
    if n == 0 then 0 else n + TriSum(n - 1)
  }

  lemma {:induction false} TriSumClosedForm(n: nat)
    ensures 2 * TriSum(n) == n * (n + 1)
  {
    if n > 0 {
      TriSumClosedForm(n - 1);
    }
  }

  /** Snapshot `h1` binds `f` to the closure of λf. tri f. */
  ghost predicate OuterEnvOk(h1: Env, a: Arena) {
    h1 < |a| && "f" in a[h1] &&
    var g := a[h1]["f"];
    g.Closure? && g.lambda == GLam && g.env.Some? && g.env.value < |a|
  }

  /** `ic` is the closure λv. (x x) v whose snapshot binds `x` to the
      closure λx. f (…) over a snapshot as `OuterEnvOk` describes. */
  ghost predicate InnerOk(ic: Expr, a: Arena) {
    ic.Closure? && ic.lambda == InnerLam && ic.env.Some? && ic.env.value < |a| &&
    "x" in a[ic.env.value] &&
    var oc := a[ic.env.value]["x"];
    oc.Closure? && oc.lambda == OuterLam && oc.env.Some? && OuterEnvOk(oc.env.value, a)
  }

  /** Snapshot `h` is one the body of λn. … runs under, with `n` bound to `m`. */
  ghost predicate BodyEnvOk(h: Env, a: Arena, m: int) {
    h < |a| && "tri_rec" in a[h] && InnerOk(a[h]["tri_rec"], a) &&
    "n" in a[h] && I32_MIN <= m <= I32_MAX && a[h]["n"] == Val(Int(m))
  }

  lemma InnerOkGrows(ic: Expr, a: Arena, a': Arena)
    requires InnerOk(ic, a) && a <= a'
    ensures InnerOk(ic, a')
  {
    var h2 := ic.env.value;
    assert a'[h2] == a[h2];
    var h1 := a[h2]["x"].env.value;
    assert a'[h1] == a[h1];
  }

  /** `f (λv. (x x) v)` under a snapshot binding `f` to λf. tri f: it
      yields a fresh λn. … closure whose snapshot binds `tri_rec` to the
      inner closure over the current snapshot. */
  lemma ApplyG(h: Env, a: Arena, fuel: nat)
    requires OuterEnvOk(h, a) && fuel >= 3
    ensures var r := Eval(Call(Var("f"), Closure(InnerLam, None)), h, a, fuel);
      r.Done? && r.value.Closure? && r.value.lambda == NLam && r.value.env.Some? &&
      var h' := r.value.env.value;
      h' < |r.arena| && "tri_rec" in r.arena[h'] &&
      r.arena[h']["tri_rec"] == Closure(InnerLam, Some(h))
  {
    var k1, k2 := fuel - 1, fuel - 2;
    var gc := a[h]["f"];
    var h0 := gc.env.value;
    var ic := Closure(InnerLam, Some(h));
    assert Eval(Var("f"), h, a, k1) == Done(gc, a);
    assert Eval(Closure(InnerLam, None), h, a, k1) == Done(ic, a);
    var a1 := a + [a[h0]["f" := ic]];
    assert Eval(Closure(TriLam, None), |a|, a1, k2) == Done(Closure(TriLam, Some(|a|)), a1);
    assert Eval(Var("f"), |a|, a1, k2) == Done(ic, a1);
    var a2 := a1 + [a1[|a|]["tri_rec" := ic]];
    assert Eval(Closure(NLam, None), |a1|, a2, k2) == Done(Closure(NLam, Some(|a1|)), a2);
    assert Eval(Call(Closure(TriLam, None), Var("f")), |a|, a1, k1) == Done(Closure(NLam, Some(|a1|)), a2);
  }

  /** `x x` under a snapshot binding `x` to λx. f (…): one unrolling of the
      combinator, giving a fresh λn. … closure of the expected shape. */
  lemma SelfApply(h: Env, a: Arena, fuel: nat)
    requires h < |a| && "x" in a[h] && fuel >= 4
    requires a[h]["x"].Closure? && a[h]["x"].lambda == OuterLam && a[h]["x"].env.Some?
    requires OuterEnvOk(a[h]["x"].env.value, a)
    ensures var r := Eval(Call(Var("x"), Var("x")), h, a, fuel);
      r.Done? && r.value.Closure? && r.value.lambda == NLam && r.value.env.Some? &&
      var h' := r.value.env.value;
      h' < |r.arena| && "tri_rec" in r.arena[h'] && InnerOk(r.arena[h']["tri_rec"], r.arena)
  {
    var oc := a[h]["x"];
    var h1 := oc.env.value;
    assert Eval(Var("x"), h, a, fuel - 1) == Done(oc, a);
    var a1 := a + [a[h1]["x" := oc]];
    assert a1[h1] == a[h1];
    ApplyG(|a|, a1, fuel - 1);
    var r := Eval(OuterLam.body, |a|, a1, fuel - 1);
    assert Eval(Call(Var("x"), Var("x")), h, a, fuel) == r;
    assert r.arena[|a|] == a1[|a|] && r.arena[h1] == a[h1];
    assert r.arena[oc.env.value] == a[h1];
  }

  /** The body of λv. (x x) v, run with `v` bound to `m`: `x x` unrolls the
      combinator once, producing a fresh λn. … closure, which is then
      applied to `m`. */
  lemma {:induction false} ApplyInner(ic: Expr, a: Arena, m: nat, fuel: nat)
    requires InnerOk(ic, a)
    requires TriSum(m) <= I32_MAX
    requires fuel >= 4 * m + 7
    ensures var a3 := a + [a[ic.env.value]["v" := IntLit(m)]];
      var r := Eval(InnerLam.body, |a|, a3, fuel);
      r.Done? && r.value == IntLit(TriSum(m))
    decreases m, 3
  {
    TriSumBound(m);
    var h2 := ic.env.value;
    var a3 := a + [a[h2]["v" := IntLit(m)]];
    var k1 := fuel - 1;
    InnerOkGrows(ic, a, a3);
    SelfApply(|a|, a3, k1);
    var fr := Eval(Call(Var("x"), Var("x")), |a|, a3, k1);
    assert fr.arena[|a|] == a3[|a|];
    assert Eval(Var("v"), |a|, fr.arena, k1) == Done(IntLit(m), fr.arena);
    var h := fr.value.env.value;
    var a7 := fr.arena + [fr.arena[h]["n" := IntLit(m)]];
    InnerOkGrows(fr.arena[h]["tri_rec"], fr.arena, a7);
    assert BodyEnvOk(|fr.arena|, a7, m);
    TriBodyEval(|fr.arena|, a7, m, k1);
    assert Eval(InnerLam.body, |a|, a3, fuel) == Eval(TriBody, |fr.arena|, a7, k1);
  }

  lemma TriSumBound(m: nat)
    requires TriSum(m) <= I32_MAX
    ensures m <= I32_MAX && (m > 0 ==> TriSum(m - 1) <= I32_MAX)
  {
  }

  /** `tri_rec (n + -1)` under a body snapshot with `n` bound to `m > 0`. */
  lemma {:induction false} RecursiveCall(h: Env, a: Arena, m: nat, fuel: nat)
    requires TriSum(m) <= I32_MAX && m > 0
    requires BodyEnvOk(h, a, m)
    requires fuel >= 4 * m + 4
    ensures var r := Eval(Call(Var("tri_rec"), Add(Var("n"), IntLit(-1))), h, a, fuel);
      r.Done? && r.value == IntLit(TriSum(m - 1))
    decreases m, 1
  {
    TriSumBound(m);
    var ic := a[h]["tri_rec"];
    var k1 := fuel - 1;
    assert Eval(Var("tri_rec"), h, a, k1) == Done(ic, a);
    assert Eval(Var("n"), h, a, k1 - 1) == Done(IntLit(m), a);
    assert EvalAdd(Var("n"), IntLit(-1), h, a, k1 - 1) == Done(IntLit(m - 1), a);
    assert Eval(Add(Var("n"), IntLit(-1)), h, a, k1) == Done(IntLit(m - 1), a);
    ApplyInner(ic, a, m - 1, k1);
  }

  /** The body of λn. … under a snapshot binding `n` to `m`. */
  lemma {:induction false} TriBodyEval(h: Env, a: Arena, m: nat, fuel: nat)
    requires TriSum(m) <= I32_MAX
    requires BodyEnvOk(h, a, m)
    requires fuel >= 4 * m + 6
    ensures var r := Eval(TriBody, h, a, fuel);
      r.Done? && r.value == IntLit(TriSum(m))
    decreases m, 2
  {
    TriSumBound(m);
    var k1, k2 := fuel - 1, fuel - 2;
    assert Eval(Var("n"), h, a, k2) == Done(IntLit(m), a);
    assert EvalEq(Var("n"), IntLit(0), h, a, k2) == Done(Val(Bool(m == 0)), a);
    assert Eval(Eq(Var("n"), IntLit(0)), h, a, k1) == Done(Val(Bool(m == 0)), a);
    if m == 0 {
      assert Eval(IntLit(0), h, a, k1) == Done(IntLit(0), a);
    } else {
      var rec := Call(Var("tri_rec"), Add(Var("n"), IntLit(-1)));
      RecursiveCall(h, a, m, k2);
      var rr := Eval(rec, h, a, k2);
      assert EvalAdd(Var("n"), rec, h, a, k2) == Done(IntLit(TriSum(m)), rr.arena);
      assert Eval(Add(Var("n"), rec), h, a, k1) == Done(IntLit(TriSum(m)), rr.arena);
    }
  }

  /** Z (λf. tri f) evaluates, under any snapshot of any arena, to a λn. …
      closure over a snapshot of the shape `BodyEnvOk` expects. */
  lemma BuildTriangular(env: Env, a: Arena, fuel: nat)
    requires env < |a| && fuel >= 6
    ensures var r := Eval(TriFunc, env, a, fuel);
      r.Done? && r.value.Closure? && r.value.lambda == NLam && r.value.env.Some? &&
      var h := r.value.env.value;
      h < |r.arena| && "tri_rec" in r.arena[h] && InnerOk(r.arena[h]["tri_rec"], r.arena)
  {
    var k1, k2, k3, k4 := fuel - 1, fuel - 2, fuel - 3, fuel - 4;
    var gc := Closure(GLam, Some(env));
    assert Eval(ZComb, env, a, k1) == Done(Closure(ZComb.lambda, Some(env)), a);
    assert Eval(Closure(GLam, None), env, a, k1) == Done(gc, a);
    var a1 := a + [a[env]["f" := gc]];
    var oc := Closure(OuterLam, Some(|a|));
    assert Eval(Closure(OuterLam, None), |a|, a1, k2) == Done(oc, a1);
    var a2 := a1 + [a1[|a|]["x" := oc]];
    var ic := Closure(InnerLam, Some(|a1|));
    assert Eval(Var("f"), |a1|, a2, k3) == Done(gc, a2);
    assert Eval(Closure(InnerLam, None), |a1|, a2, k3) == Done(ic, a2);
    var a3 := a2 + [a2[env]["f" := ic]];
    assert Eval(Closure(TriLam, None), |a2|, a3, k4) == Done(Closure(TriLam, Some(|a2|)), a3);
    assert Eval(Var("f"), |a2|, a3, k4) == Done(ic, a3);
    var a4 := a3 + [a3[|a2|]["tri_rec" := ic]];
    assert Eval(Closure(NLam, None), |a3|, a4, k4) == Done(Closure(NLam, Some(|a3|)), a4);
    assert Eval(Call(Closure(TriLam, None), Var("f")), |a2|, a3, k3) == Done(Closure(NLam, Some(|a3|)), a4);
    assert Eval(OuterLam.body, |a1|, a2, k2) == Done(Closure(NLam, Some(|a3|)), a4);
    assert Eval(ZComb.lambda.body, |a|, a1, k1) == Done(Closure(NLam, Some(|a3|)), a4);
    assert a4[|a1|] == a2[|a1|] && a4[|a|] == a1[|a|];
    assert InnerOk(ic, a4);
  }

  /** The triangular function built with the Z combinator computes
      `n * (n + 1) / 2`, for every `n` whose sum fits in an `i32`, from any
      environment of any arena. */
  lemma TriangularComputesSum(n: nat, env: Env, a: Arena, fuel: nat)
    requires env < |a|
    requires n * (n + 1) / 2 <= I32_MAX
    requires fuel >= 4 * n + 8
    ensures var r := Eval(Call(TriFunc, IntLit(n)), env, a, fuel);
      r.Done? && r.value == IntLit(n * (n + 1) / 2)
  {
    TriSumClosedForm(n);
    TriangularComputesTriSum(n, env, a, fuel);
  }

  lemma TriangularComputesTriSum(n: nat, env: Env, a: Arena, fuel: nat)
    requires env < |a|
    requires TriSum(n) <= I32_MAX
    requires fuel >= 4 * n + 8
    ensures var r := Eval(Call(TriFunc, IntLit(n)), env, a, fuel);
      r.Done? && r.value == IntLit(TriSum(n))
  {
    TriSumBound(n);
    var k1 := fuel - 1;
    BuildTriangular(env, a, k1);
    var fr := Eval(TriFunc, env, a, k1);
    var h := fr.value.env.value;
    assert Eval(IntLit(n), env, fr.arena, k1) == Done(IntLit(n), fr.arena);
    var a' := fr.arena + [fr.arena[h]["n" := IntLit(n)]];
    InnerOkGrows(fr.arena[h]["tri_rec"], fr.arena, a');
    assert BodyEnvOk(|fr.arena|, a', n);
    TriBodyEval(|fr.arena|, a', n, k1);
    assert Eval(Call(TriFunc, IntLit(n)), env, a, fuel) == Eval(TriBody, |fr.arena|, a', k1);
  }

  /** triangular(3) == 6, as in the source's test. */
  lemma TriangularOfThree(env: Env, a: Arena, fuel: nat)
    requires env < |a| && fuel >= 20
    ensures var r := Eval(Call(TriFunc, IntLit(3)), env, a, fuel);
      r.Done? && r.value == IntLit(6)
  {
    TriangularComputesSum(3, env, a, fuel);
  }

  /** triangular(53) == 1431, as in the source's test. */
  lemma TriangularOfFiftyThree(env: Env, a: Arena, fuel: nat)
    requires env < |a| && fuel >= 220
    ensures var r := Eval(Call(TriFunc, IntLit(53)), env, a, fuel);
      r.Done? && r.value == IntLit(1431)
  {
    TriangularComputesSum(53, env, a, fuel);
  }
}
