/** The tokens the lexer produces (src/interpreter/token.rs). */
module Tokens {

  /** Bounds of Rust's `i64`, the payload type of an integer token. */
  const I64Min: int := -0x8000_0000_0000_0000
  const I64Max: int := 0x7FFF_FFFF_FFFF_FFFF

  type Int64 = x: int | I64Min <= x <= I64Max

  /** `TokenType`: a closed enumeration; only identifiers and integers carry
      a payload. `LSquare` and `RSquare` are declared but never produced. */
  datatype TokenType =
    | Illegal
    | Eof
      // identifiers and literals
    | Ident(name: string)
    | Int(value: Int64)
      // operators
    | Assign
    | Plus
    | Minus
    | Asterisk
    | FSlash
    | Bang
    | Lt
    | Gt
    | Eq
    | NotEq
      // delimiters
    | Comma
    | Semicolon
      // brackets of all sorts
    | LParen
    | RParen
    | LBrace
    | RBrace
    | LSquare
    | RSquare
      // keywords
    | Func
    | Let
    | If
    | Else
    | Return
    | True
    | False

  /** A token: its kind and the literal text it was made from. */
  datatype Token = Token(kind: TokenType, literal: string)

  /** The reserved-word kinds. */
  predicate IsKeywordKind(k: TokenType) {
    k in {Func, Let, If, Else, Return, True, False}
  }

  /** The derived `PartialEq` on `Token` and `TokenType`: two tokens are equal
      exactly when their kinds (payload included) and literals are equal. */
  lemma TokenEqualityIsStructural(a: Token, b: Token)
    ensures a == b <==> a.kind == b.kind && a.literal == b.literal
    ensures a.kind.Ident? && b.kind.Ident? ==> (a.kind == b.kind <==> a.kind.name == b.kind.name)
    ensures a.kind.Int? && b.kind.Int? ==> (a.kind == b.kind <==> a.kind.value == b.kind.value)
  {
  }
}
