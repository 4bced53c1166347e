/** Runtime values of the interpreter and the truthiness rule. */
module Values {

  /** The dynamically typed value of an expression: a double (modelled as a
      real), a string, a boolean or nil (the JVM `null`). */
  datatype Value = Number(n: real) | Str(s: string) | Bool(b: bool) | Nil

  /** `nil` and `false` are falsy; every other value, including `0` and `""`, is truthy. */
  predicate IsTruthy(v: Value)
  {
    match v
    case Bool(b) => b
    case Nil => false
    case _ => true
  }
}
