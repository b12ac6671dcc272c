# Evaluator of a small strict lambda language, in Dafny

This project models the core of a small call-by-value functional language:
integers, booleans, addition, equality, conditionals, one-argument lambdas and
application. The core has three parts:

- the expression node type (`ExprNode`, `Value`, `Lambda`);
- the append-only environment arena (`EnvExt::{empty, insert, get}`);
- the recursive evaluator (`Eval::eval`, `App::app`, `Int::add`,
  `Cond::{eq, if_then_else}`, `Lambda::with_env`).

`src/lang/mod.rs` and `src/lib.rs` contain the same evaluator: lines 13-295
of `src/lib.rs` are lines 16-298 of `src/lang/mod.rs`. The rest of
`src/lib.rs` is its inline test module. One model covers both copies.

## How the source is represented

- **Expressions.** Each expression is a Dafny datatype value (`Syntax.Expr`).
  The source hash-conses every node with `Intern<ExprNode>`, so handle
  equality is structural equality. Datatype equality is already structural.
- **Constructors.** `Syntax.IntLit` and `Syntax.BoolLit` are `Value::int`
  and `Value::bool` (`src/lang/mod.rs:133-139`). `Syntax.Fun` is
  `Lambda::expr` (`src/lang/mod.rs:202-210`): a lambda with no environment.
- **Variable names.** A name is a `string`. It stands in for the `Spur`
  symbols of the string interner.
- **Arena.** The arena is a `seq<map<string, Expr>>`. An environment handle is
  a `nat` index into it. `Empty` and `Insert` append a snapshot and return its
  index. No snapshot is ever changed.
- **Arena threading.** The process-wide arena behind a mutex is passed to
  `Eval` explicitly, and `Eval` returns the grown arena.
- **Errors.** Every `panic!`, `expect` and `unwrap` on the evaluation path
  becomes a distinct `Errors.Error` value: `UnboundVariable`,
  `AddTypeMismatch`, `AddOverflow`, `EqTypeMismatch`, `CondNotBool`,
  `NotAFunction`, `UnboundClosureEnv` and `DanglingEnv`. `DanglingEnv` covers
  the arena's `unwrap` on a handle it never issued.
- **i32 addition.** `i32` addition follows the debug build: an overflow is
  the error `AddOverflow`. Integer literals have the subset type `I32`, so
  every result stays in range.
- **Fuel.** The language can diverge through self-application. `Eval`
  therefore takes fuel: each call spends one unit, and running out is the
  outcome `OutOfFuel`, which is distinct from every language error.
  `FuelMonotone` shows that fuel only decides whether an answer is reached,
  never which answer.

The evaluator follows the source's evaluation order exactly:

- `Add` and `Eq` evaluate the left operand, then the right one, and only then
  check the kinds. So an error inside an operand wins over a kind mismatch.
- `If` evaluates only the branch it chooses.
- `Call` evaluates the function position and rejects a non-closure before it
  evaluates the argument.
- `Call` checks for a missing captured environment only after evaluating the
  argument.

Three behaviours of the code are easy to misread:

- **Type errors.** A non-integer operand of `Add` is not reported at once.
  Both operands are evaluated first, so an error inside the right operand
  wins.
- **Unknown handles.** `get` reports a missing key as absent, but an unknown
  handle is a fault (`DanglingEnv` here).
- **Overflow.** The code's `i1 + i2` panics on overflow in debug builds and
  wraps only in release builds.

Files:

- `wrappers.dfy`: `Option` and `Result`.
- `syntax.dfy`: expressions, plus the well-formedness predicates `Bounded`,
  `Syntactic` and `ValueForm`.
- `errors.dfy`: the error kinds.
- `env_arena.dfy`: the arena and its operations.
- `evaluator.dfy`: `Eval`, the four operations it dispatches to, and the
  value combinators of `add` and `eq`.
- `eval_properties.dfy`: the invariants and the per-construct laws.
- `reference.dfy`: a fuel-free, arena-free reference semantics for the
  closure-free fragment, proved to agree with `Eval`.
- `z_combinator.dfy`: the triangular-number program built with the
  Z combinator.
- `scenarios.dfy`: the remaining facts checked by the source's test suite.

## Model

| member | source | states |
|---|---|---|
| EnvArena.Empty | src/lang/mod.rs:56-61 | appends exactly one snapshot, returns the new last handle, and every lookup in it is absent |
| EnvArena.Get | src/lang/mod.rs:73-81 | fails with `DanglingEnv` exactly when the handle is not in the arena; otherwise returns the binding if the key is bound and absent if it is not |
| EnvArena.Insert | src/lang/mod.rs:63-67 | fails only on a dangling handle; otherwise the old arena is a strict prefix of the new one and the new handle is the old length; the new snapshot maps the key to the value and agrees with the old snapshot on every other key; every other handle answers as before |
| EnvArena.GetStable | src/lang/mod.rs:63-81 | snapshots are immutable: a lookup through an issued handle gives the same answer in every later arena |
| EnvArena.EmptyWellFormed | src/lang/mod.rs:56-61 | appending an empty snapshot keeps every stored binding a value form with issued handles |
| EnvArena.InsertWellFormed | src/lang/mod.rs:223-227 | binding a value form with issued handles through a valid handle succeeds and keeps the arena well formed |
| Syntax.SyntacticIsBounded | src/lang/mod.rs:201-210 | a tree whose lambdas all carry no environment, as `Lambda::expr` builds them, names no arena handle and so fits every arena |
| Evaluator.AddValues | src/lang/mod.rs:259-269 | succeeds iff both values are integers whose sum is in `i32` range, with result that sum; two integers that overflow give `AddOverflow`; any other pair, closures included, gives `AddTypeMismatch` |
| Evaluator.EqValues | src/lang/mod.rs:277-288 | succeeds iff both are values of the same kind, and then returns `Bool` of their equality; any other pair gives `EqTypeMismatch`, never `false` |
| Evaluator.Eval | src/lang/mod.rs:234-252 | evaluation only appends to the arena: the arena given is a prefix of the arena returned |
| Evaluator.IfThenElse | src/lang/mod.rs:290-297 | a conditional only appends to the arena |
| Evaluator.Apply | src/lang/mod.rs:217-229 | an application only appends to the arena |
| Evaluator.EvalAdd | src/lang/mod.rs:259-269 | an addition only appends to the arena |
| Evaluator.EvalEq | src/lang/mod.rs:277-288 | an equality test only appends to the arena |
| EvalProperties.EvalSafe | src/lang/mod.rs:217-252 | from a well-formed arena, a valid handle and an expression naming only issued handles: every result is a value form (a literal, or a closure with `Some` valid environment) naming only issued handles; the arena stays well formed; `UnboundClosureEnv` and `DanglingEnv` never occur |
| EvalProperties.UnboundClosureEnvUnreachable | src/lang/mod.rs:225-227 | evaluating parser-built input under a fresh empty environment never reaches the "closure without environment" failure, never touches a dangling handle, and never returns `Closure(_, None)` |
| EvalProperties.ResultsAreFixpoints | src/lang/mod.rs:236-249 | a result of evaluation evaluates to itself again, under any environment, without touching the arena |
| EvalProperties.FuelMonotone | src/lang/mod.rs:234-252 | once evaluation with some fuel finishes (value or error), any larger fuel gives the identical outcome |
| EvalProperties.FuelMonotoneIf | src/lang/mod.rs:290-297 | fuel monotonicity for a conditional |
| EvalProperties.FuelMonotoneAdd | src/lang/mod.rs:259-269 | fuel monotonicity for `Add` |
| EvalProperties.FuelMonotoneEq | src/lang/mod.rs:277-288 | fuel monotonicity for `Eq` |
| EvalProperties.FuelMonotoneCall | src/lang/mod.rs:217-229 | fuel monotonicity for an application |
| EvalProperties.ValueFormsSelfEvaluate | src/lang/mod.rs:236-249 | `Value(_)` and `Closure(_, Some(_))` evaluate to themselves with the arena unchanged |
| EvalProperties.VarLookup | src/lang/mod.rs:238-241 | a variable yields the stored binding exactly as stored, without evaluating it again, and leaves the arena unchanged; an unbound name fails with `UnboundVariable` |
| EvalProperties.LambdaCapturesEnv | src/lang/mod.rs:212-214 | a syntactic lambda evaluates to the same lambda carrying the current environment, and allocates nothing |
| EvalProperties.IfEvaluatesOneBranch | src/lang/mod.rs:290-297 | after the condition evaluates to a boolean, the outcome is that of the chosen branch, and replacing the other branch by anything leaves it unchanged; any other condition value, an integer or a closure, fails with `CondNotBool` of that value whatever the branches are; a failing or unfinished condition is the outcome of the whole `If` |
| EvalProperties.BinaryOperandsFirst | src/lang/mod.rs:259-288 | `Add` and `Eq` propagate a failure or `OutOfFuel` of the left operand, and then of the right one, before any kind check |
| EvalProperties.AddSemantics | src/lang/mod.rs:259-269 | once both operands are evaluated, `Add` succeeds iff both are in-range-summing integers, with their sum and the arena after the right operand; otherwise it never runs out of fuel and fails: with `AddOverflow` of the two integers when both are integers, and with `AddTypeMismatch` of the two values when not |
| EvalProperties.EqSemantics | src/lang/mod.rs:277-288 | once both operands are evaluated, `Eq` succeeds iff both are values of the same kind, with `Bool(l == r)`; otherwise the outcome is exactly `Failed(EqTypeMismatch)` of the two values, never `false` and never out of fuel |
| EvalProperties.CallChecksFunctionFirst | src/lang/mod.rs:218-222 | if the function position evaluates to a non-closure, the call fails with `NotAFunction` whatever the argument is, so the argument is never evaluated |
| EvalProperties.CallPropagates | src/lang/mod.rs:218-226 | a failure or lack of fuel in the function position, and then in the argument, is the outcome of the call; a closure without a captured environment fails with `UnboundClosureEnv` only after its argument has been evaluated |
| EvalProperties.CallBeta | src/lang/mod.rs:218-229 | the body runs under a freshly appended snapshot; it maps the parameter to the evaluated argument and agrees with the captured snapshot on every other name |
| Reference.EvalMatchesReference | src/lang/mod.rs:234-297 | on closure-free expressions, with fuel above the tree height, `Eval` agrees with a fuel-free, arena-free structural semantics; it always finishes, leaves the arena unchanged, and fails exactly where the reference fails |
| ZCombinator.TriangularComputesSum | src/lib.rs:452-487 | the Z-combinator triangular function applied to `n` yields `n(n+1)/2`, for every `n` whose sum fits in `i32`, from any environment of any arena, given fuel `4n + 8` |
| ZCombinator.TriangularComputesTriSum | src/lib.rs:452-487 | the same result, stated with the recursive sum `0 + 1 + ... + n` |
| ZCombinator.TriSumClosedForm | src/lib.rs:479-486 | twice the recursive sum `0 + ... + n` equals `n(n+1)` |
| ZCombinator.BuildTriangular | src/lib.rs:473-477 | `Z (λf. tri f)` evaluates to a `λn. ...` closure whose snapshot binds `tri_rec` to the self-applying inner closure |
| ZCombinator.TriBodyEval | src/lib.rs:463-470 | the body `if n == 0 then 0 else n + tri_rec(n - 1)` evaluates to the sum up to `n` under any snapshot of the expected shape |
| ZCombinator.ApplyInner | src/lib.rs:457-461 | one unrolling `(x x) v` of the combinator, with `v` bound to `m`, yields the sum up to `m` |
| ZCombinator.TriangularOfThree | src/lib.rs:479-480 | triangular(3) evaluates to 6 |
| ZCombinator.TriangularOfFiftyThree | src/lib.rs:482-486 | triangular(53) evaluates to 1431 |
| Scenarios.IntAddition | src/lib.rs:310-316 | `2 + 3` evaluates to 5 |
| Scenarios.IntAdditionMixedKinds | src/lib.rs:318-328 | `2 + true` is an `Add` kind error |
| Scenarios.IntAdditionOverflow | src/lib.rs:261 | `i32::MAX + 1` is reported as overflow, not wrapped |
| Scenarios.Equality | src/lib.rs:330-349 | `true == true`, `true == false`, `10 == 10` and `10 == 20` give true, false, true, false |
| Scenarios.EqualityMixedKinds | src/lib.rs:351-359 | `1 == true` is an `Eq` kind error |
| Scenarios.Conditionals | src/lib.rs:361-370 | `if true then 42 else 7` is 42 and `if false then 42 else 7` is 7 |
| Scenarios.IfShortCircuits | src/lib.rs:287-294 | an ill-typed else branch is not evaluated when the condition is true |
| Scenarios.CombinedExpression | src/lib.rs:381-400 | `(5 + 3 == 8) && (2 + 2 == 4)`, written with nested conditionals, is true |
| Scenarios.UnboundName | src/lib.rs:235-238 | `q` under an empty snapshot fails with `UnboundVariable("q")` |
| Scenarios.OperandErrorBeforeKindError | src/lib.rs:256-266 | in `true + q` the unbound `q` is reported, not the kind mismatch |
| Scenarios.ApplyNonFunction | src/lib.rs:215-220 | `1 q` fails with `NotAFunction(1)` before the unbound argument is looked up |
| Scenarios.LambdaAndApplication | src/lib.rs:372-379 | `(λx. x + 1) 41` is 42 |
| Scenarios.ApplyInc | src/lib.rs:404-406 | `f = λx. x + 1` applied to an argument that evaluates to `n` gives `n + 1` |
| Scenarios.ApplyAddTen | src/lib.rs:408-410 | `g = λx. x + 10` applied to an argument that evaluates to `n` gives `n + 10` for every `n` up to `i32::MAX - 10` |
| Scenarios.FunctionComposition | src/lib.rs:402-425 | `g(5)` is 15 and then `f(15)` is 16; `h = λx. f (g x)` gives `h(5) = 16` |
| Scenarios.PartialApplicationCaptures | src/lib.rs:427-435 | `(λx. λy. x + y) 10` is the inner lambda closed over a new snapshot that binds `x` to 10 |
| Scenarios.CapturedClosureApplied | src/lib.rs:437-442 | that closure applied to 5, under any environment of any larger arena, gives 15 |
| Scenarios.CurriedApplication | src/lib.rs:444-449 | `(outer 20) 6` is 26 |

## Left out

- Parsing and error reporting (`src/parser/mod.rs`): the parser is built on
  parser-combinator and lexer libraries whose semantics are not part of this
  model. `report_errors` only prints. The model's interface to the parser is
  the predicate `Syntactic`: lambdas without environments.
- `src/util.rs`: one-line aliases of the `src/lang/mod.rs` constructors,
  which `IntLit`, `BoolLit` and `Fun` already model.
- Symbol interning (`RODEO`, `Var::new`, `Var::str`): names are strings.
  `Var::str` only serves panic messages.
- `EnvExt::insert_str`: with names as strings it is `Insert` itself.
- Expression interning tables (`internment::Intern`): replaced by datatype
  equality. The interning-idempotence property holds by construction.
- The persistent hash map and the generational arena: replaced by Dafny maps
  and an append-only sequence. Nothing is ever removed, so generations never
  matter.
- Locks and global state (`Mutex`, `LazyLock`): the arena is an explicit
  parameter. The non-atomic double lock in `insert` is not modelled, because
  the model is sequential.
- Panic messages and unwinding: each panic is a distinct error value, and the
  arena at the moment of the panic is not returned.
- Release-build `i32` wrap-around: the model follows the debug build, where
  overflow is a fault.
- Evaluator.Eval: the result is bounded by fuel, because the source's
  recursion can diverge. `OutOfFuel` stands for a run that does not finish in
  the given budget, and `FuelMonotone` shows that fuel never changes a
  finished answer.
