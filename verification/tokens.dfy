/** The lexical unit handed from the scanner to the parser. */
module Tokens {

  import opened Wrappers

  /** Every kind of token the scanner produces or the parser tests for.
      The constants keep the names the grammar in Parser.kt uses. */
  datatype TokenType =
    // single-character punctuation
    | LEFT_PAREN | RIGHT_PAREN | LEFT_BRACE | RIGHT_BRACE
    | COMMA | DOT | MINUS | PLUS | SEMICOLON | SLASH | STAR
    // one- or two-character operators
    | BANG | BANG_EQUAL | EQUAL | EQUAL_EQUAL
    | GREATER | GREATER_EQUAL | LESS | LESS_EQUAL
    // literals
    | IDENTIFIER | STRING | NUMBER
    // reserved words
    | AND | CLASS | ELSE | FALSE | FUN | FOR | IF | NIL | OR
    | PRINT | RETURN | SUPER | THIS | TRUE | VAR | WHILE
    | EOF

  /** The value a NUMBER or STRING token carries; other tokens carry none. */
  datatype TokenLiteral = NumberLiteral(n: real) | StringLiteral(s: string)

  /** A token: kind, the exact source text, optional literal, line counter.
      Being a datatype, it is immutable and compared field by field. */
  datatype Token = Token(kind: TokenType, lexeme: string, literal: Option<TokenLiteral>, line: nat)
}
