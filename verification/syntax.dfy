/** The closed fragment of C# syntax the analyzers look at. Roslyn's open class
    hierarchy becomes one datatype per syntactic category; every expression or
    statement kind that no analyzer inspects is folded into an opaque
    constructor that keeps only its text. */
module Syntax {
  import opened Common

  /** Operator of a binary expression. `??` is a binary expression in Roslyn. */
  datatype BinaryOp = EqualsEquals | NotEquals | Coalesce | OtherBinaryOp

  /** `=` versus the compound forms `+=`, `-=`, ... */
  datatype AssignOp = SimpleAssign | CompoundAssign

  datatype Expr =
    | Identifier(name: string)
    | NullLiteral
    | Invocation(callee: Expr, args: seq<Argument>)
      /** `hasArgumentList` is false for `new T { ... }`, which has no
          parenthesised argument list (Roslyn's ArgumentList is then null). */
    | ObjectCreation(typeName: string, hasArgumentList: bool, args: seq<Argument>)
    | MemberAccess(receiver: Expr, member: string)
    | Binary(op: BinaryOp, left: Expr, right: Expr)
    | Assignment(assignOp: AssignOp, target: Expr, value: Expr)
    | ThrowExpression(thrown: Expr)
    | OtherExpr(text: string)

  /** An argument, with its optional `name:` prefix (Roslyn's NameColon). */
  datatype Argument = Argument(nameColon: Option<string>, expr: Expr)

  /** One variable of a local declaration, with its optional `= initializer`. */
  datatype Declarator = Declarator(name: string, init: Option<Expr>)

  /** `catch (Type identifier)`; `identifier` is "" when only the type is given. */
  datatype CatchDeclaration = CatchDeclaration(typeName: string, identifier: string)

  datatype CatchClause = CatchClause(declaration: Option<CatchDeclaration>, block: seq<Stmt>)

  /** A local declaration's `keywords` are what precedes its type: `await`,
      `using` and modifiers such as `const`, in source order. */
  datatype Stmt =
    | ExpressionStmt(expr: Expr)
    | LocalDecl(keywords: seq<string>, typeText: string, declarators: seq<Declarator>)
    | Throw(operand: Option<Expr>)
    | If(cond: Expr, thenBranch: Stmt, elseBranch: Option<Stmt>)
    | Block(stmts: seq<Stmt>)
    | Return(value: Option<Expr>)
    | Try(tryBlock: seq<Stmt>, catches: seq<CatchClause>)
    | OtherStmt(text: string)

  /** `nameof(p)` */
  function NameOf(p: string): Expr
  {
    Invocation(Identifier("nameof"), [Argument(None, Identifier(p))])
  }

  /** `new ArgumentNullException(nameof(p))`, the exception every generated guard throws. */
  function ArgumentNullException(p: string): Expr
  {
    ObjectCreation("ArgumentNullException", true, [Argument(None, NameOf(p))])
  }
}
