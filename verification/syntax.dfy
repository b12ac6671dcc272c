/** Expressions of the language.

    In the source every node is hash-consed through `Intern<ExprNode>`, so two
    structurally equal trees share one handle and handle equality is tree
    equality. A Dafny datatype already has structural equality, so the node
    type itself stands in for the interned handle. Variable names are plain
    strings, standing in for the `Spur` symbols of the string interner. */
module Syntax {
  import opened Wrappers

  type Name = string

  /** Handle of an environment snapshot: an index into the arena. */
  type Env = nat

  const I32_MIN: int := -0x8000_0000
  const I32_MAX: int := 0x7FFF_FFFF

  /** Rust's `i32`. */
  type I32 = x: int | I32_MIN <= x <= I32_MAX

  datatype Value = Int(i: I32) | Bool(b: bool)

  datatype Lambda = Lambda(param: Name, body: Expr)

  /** `ExprNode`. A `Closure` with no environment is a syntactic lambda; the
      evaluator alone fills in the captured environment. */
  datatype Expr =
    | Var(name: Name)
    | Val(v: Value)
    | Add(left: Expr, right: Expr)
    | Eq(left: Expr, right: Expr)
    | If(cond: Expr, thenBranch: Expr, elseBranch: Expr)
    | Call(func: Expr, arg: Expr)
    | Closure(lambda: Lambda, env: Option<Env>)

  /** Literal constructors, as `Value::int` and `Value::bool` build them. */
  function IntLit(i: I32): Expr {
    Val(Int(i))
  }

  function BoolLit(b: bool): Expr {
    Val(Bool(b))
  }

  /** A syntactic lambda, as built by `Lambda::expr`. */
  function Fun(param: Name, body: Expr): Expr {
    Closure(Lambda(param, body), None)
  }

  /** Every environment handle mentioned anywhere in `e`, lambda bodies
      included, is below `n`. */
  predicate Bounded(e: Expr, n: nat) {
    match e
    case Var(_) => true
    case Val(_) => true
    case Add(l, r) => Bounded(l, n) && Bounded(r, n)
    case Eq(l, r) => Bounded(l, n) && Bounded(r, n)
    case If(c, t, f) => Bounded(c, n) && Bounded(t, n) && Bounded(f, n)
    case Call(f, a) => Bounded(f, n) && Bounded(a, n)
    case Closure(Lambda(_, body), env) =>
      Bounded(body, n) && (env.Some? ==> env.value < n)
  }

  /** A tree as the parser builds it: no closure carries an environment. */
  predicate Syntactic(e: Expr) {
    match e
    case Var(_) => true
    case Val(_) => true
    case Add(l, r) => Syntactic(l) && Syntactic(r)
    case Eq(l, r) => Syntactic(l) && Syntactic(r)
    case If(c, t, f) => Syntactic(c) && Syntactic(t) && Syntactic(f)
    case Call(f, a) => Syntactic(f) && Syntactic(a)
    case Closure(Lambda(_, body), env) => Syntactic(body) && env.None?
  }

  /** The irreducible results of evaluation: a literal value, or a closure
      that has captured an existing environment. */
  predicate ValueForm(e: Expr, n: nat) {
    e.Val? || (e.Closure? && e.env.Some? && e.env.value < n)
  }

  /** Growing the arena keeps every handle of a bounded tree valid. */
  lemma {:induction false} BoundedGrows(e: Expr, n: nat, m: nat)
    requires Bounded(e, n) && n <= m
    ensures Bounded(e, m)
  {
    match e
    case Var(_) =>
    case Val(_) =>
    case Add(l, r) => BoundedGrows(l, n, m); BoundedGrows(r, n, m);
    case Eq(l, r) => BoundedGrows(l, n, m); BoundedGrows(r, n, m);
    case If(c, t, f) =>
      BoundedGrows(c, n, m); BoundedGrows(t, n, m); BoundedGrows(f, n, m);
    case Call(f, a) => BoundedGrows(f, n, m); BoundedGrows(a, n, m);
    case Closure(Lambda(_, body), _) => BoundedGrows(body, n, m);
  }

  /** Parser output mentions no handle at all, so it fits any arena. */
  lemma {:induction false} SyntacticIsBounded(e: Expr, n: nat)
    requires Syntactic(e)
    ensures Bounded(e, n)
  {
    match e
    case Var(_) =>
    case Val(_) =>
    case Add(l, r) => SyntacticIsBounded(l, n); SyntacticIsBounded(r, n);
    case Eq(l, r) => SyntacticIsBounded(l, n); SyntacticIsBounded(r, n);
    case If(c, t, f) =>
      SyntacticIsBounded(c, n); SyntacticIsBounded(t, n); SyntacticIsBounded(f, n);
    case Call(f, a) => SyntacticIsBounded(f, n); SyntacticIsBounded(a, n);
    case Closure(Lambda(_, body), _) => SyntacticIsBounded(body, n);
  }
}
