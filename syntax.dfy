/** The already-parsed syntax that the `sub_struct` attribute macro works on.

    The macro receives two token streams: the attribute's `key = value`
    arguments and the item the attribute is attached to. Tokenising and
    parsing them is done by the `syn` crate and is not part of this model;
    here both arrive as values of the datatypes below. Syntax that the macro
    only copies (attributes, visibility, generics, field types, the
    `struct` keyword and the trailing semicolon) is kept as an opaque
    token sequence that is never looked into.
 */
module Syntax {

  datatype Option<+T> = None | Some(value: T)

  datatype Result<+T, +E> = Ok(value: T) | Err(error: E)

  /** A piece of syntax that is copied verbatim and never analysed. */
  datatype Opaque = Opaque(tokens: seq<string>)

  /** A literal: the macro only distinguishes string literals from the rest. */
  datatype Lit = LitStr(value: string) | LitOther(tokens: Opaque)

  /** The value on the right of `key = value`: a literal, an array literal
      `[e, ...]` whose elements are again expressions, or any other expression. */
  datatype Expr = ExprLit(lit: Lit) | ExprArray(elems: seq<Expr>) | ExprOther(tokens: Opaque)

  /** One `key = value` argument of the attribute; the key is a single identifier. */
  datatype Arg = Arg(key: string, value: Expr)

  /** A named field `attrs vis ident: ty`. */
  datatype Field = Field(attrs: Opaque, vis: Opaque, ident: string, ty: Opaque)

  /** The three shapes of a struct body: `{ a: A, ... }`, `(A, ...)` and none. */
  datatype Fields = Named(named: seq<Field>) | Unnamed(unnamed: seq<Opaque>) | Unit

  datatype Data =
    | Struct(structToken: Opaque, fields: Fields, semiToken: Option<Opaque>)
    | Enum(body: Opaque)
    | Union(body: Opaque)

  /** An item a derive or attribute macro can be attached to. */
  datatype DeriveInput = DeriveInput(attrs: Opaque, vis: Opaque, ident: string, generics: Opaque, data: Data)

  /** True of an item that is a struct with named fields, the only shape the macro accepts. */
  predicate IsNamedStruct(d: DeriveInput)
  {
    d.data.Struct? && d.data.fields.Named?
  }
}
