/** The part of Go's syntax tree that the type translator reads: the type expression of a
    struct field and the raw text of its tag. Every other expression kind is `Other`. */
module GoAst {

  datatype Option<T> = None | Some(value: T)

  /** A type expression: an identifier, a pointer `*X`, a selector `X.Sel`, or any other node. */
  datatype Expr =
    | Ident(name: string)
    | Star(x: Expr)
    | Selector(x: Expr, sel: string)
    | Other

  /** A struct field: its declared type and, when present, the literal text of its tag
      (backquotes included). */
  datatype Field = Field(typ: Expr, tag: Option<string>)
}
