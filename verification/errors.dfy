/** The ways a run can fail. The source throws a handful of exception classes
    with message texts; the model keeps only which rule was violated. */
module Errors {

  datatype Error =
    /** scanner: a character no rule handles (the message carries the line counter) */
    | UnexpectedChar(line: nat)
    /** scanner: end of input inside a string literal */
    | UnterminatedString
    /** scanner: a number lexeme the JVM cannot convert to a double (two or more dots) */
    | MalformedNumber
    /** parser: first token that does not fit the grammar; parsing stops here */
    | ParseError
    /** interpreter: an operand of the wrong runtime type (a failed cast or a bad `+`) */
    | TypeError
    /** environment: a name that cannot be read or assigned */
    | UndefinedVariable
    /** interpreter: an operator the evaluator has no case for, and every unary operator */
    | UnsupportedOperator
    /** interpreter: an outcome that depends on IEEE special values or JVM object identity */
    | NotModelled
}
