/** The fatal conditions of evaluation. Each constructor stands for one
    `panic!`, `expect` or `unwrap` of the source. */
module Errors {
  import opened Syntax

  datatype Error =
    | UnboundVariable(name: Name)
      // `Var` lookup found no binding
    | AddTypeMismatch(left: Expr, right: Expr)
      // an `Add` operand did not evaluate to an integer
    | AddOverflow(augend: I32, addend: I32)
      // the `i32` sum overflowed (a panic in debug builds)
    | EqTypeMismatch(left: Expr, right: Expr)
      // `Eq` operands are not two integers or two booleans
    | CondNotBool(cond: Expr)
      // an `If` condition did not evaluate to a boolean
    | NotAFunction(func: Expr)
      // the function position of a `Call` is not a closure
    | UnboundClosureEnv(lambda: Lambda)
      // a closure without a captured environment was applied
    | DanglingEnv(env: Env)
      // an environment handle that the arena never handed out
}
