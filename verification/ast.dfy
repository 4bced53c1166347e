/** The syntax tree the parser builds and the interpreter walks.
    `Expr` has the six variants of the expression schema in src/tool/Main.kt;
    `Stmt` is the closed set of five statement variants of src/expr/Stmt.kt.
    Visitor dispatch (`accept` calling `visitXxx`) becomes a `match` on the
    variant, which Dafny checks for exhaustiveness. */
module Ast {

  import opened Wrappers
  import opened Tokens
  import opened Values

  datatype Expr =
    | Binary(left: Expr, op: Token, right: Expr)
    | Grouping(inner: Expr)
    | Unary(op: Token, right: Expr)
    | Literal(constant: Value)
    | Variable(name: Token)
    | Assign(name: Token, value: Expr)

  datatype Stmt =
    | Expression(expr: Expr)
    | Print(expr: Expr)
    | Var(name: Token, initializer: Option<Expr>)
    | Block(stmts: seq<Stmt>)
    | If(cond: Expr, thenBranch: Stmt, elseBranch: Option<Stmt>)
}
