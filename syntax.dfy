/** The parts of a Python syntax tree that the visitor looks at, as a tagged
    tree. Node kinds the visitor has no handler for are `OtherExpr` and
    `OtherStmt`; they keep their children so that the generic walk still
    reaches calls and definitions nested inside them. */
module Syntax {
  import opened Results

  datatype Expr =
    | Name(id: string)
    | Attribute(value: Expr, attr: string)
    | Call(func: Expr, args: seq<Expr>)
    | OtherExpr(children: seq<Expr>)

  /** One entry of an import statement: `name` or `name as asname`. */
  datatype ImportAlias = ImportAlias(name: string, asname: Option<string>)

  /** `exprs` on a definition are the expressions its header holds: bases,
      decorators, default values and annotations. */
  datatype Stmt =
    | ClassDef(name: string, lineno: nat, exprs: seq<Expr>, body: seq<Stmt>)
    | FunctionDef(name: string, lineno: nat, exprs: seq<Expr>, body: seq<Stmt>)
    | Assign(targets: seq<Expr>, value: Expr)
    | Import(names: seq<ImportAlias>)
    | ImportFrom(source: Option<string>, names: seq<ImportAlias>)
    | OtherStmt(exprs: seq<Expr>, body: seq<Stmt>)

  /** A parsed file is its module body. */
  type Tree = seq<Stmt>

  /** `if _name.asname:` -- an absent or empty alias binds nothing. */
  predicate Binds(a: ImportAlias)
  {
    a.asname.Some? && a.asname.value != ""
  }

  /** The root of an attribute chain: `a` for `a.b.c`. */
  function Root(e: Expr): Expr
  {
    if e.Attribute? then Root(e.value) else e
  }

  /** The attribute chain `root.a1.a2...an` over the name `root`. */
  function Chain(root: string, attrs: seq<string>): (e: Expr)
    decreases |attrs|
  {
    if attrs == [] then Name(root)
    else Attribute(Chain(root, attrs[..|attrs| - 1]), attrs[|attrs| - 1])
  }
}
