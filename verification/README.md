# Lox in Kotlin: a Dafny model of the scanner, parser, scope chain and evaluator

This project models the whole pipeline of a small tree-walking interpreter
for a Lox subset. The subset has expressions, `print`, `var`, blocks and `if`,
and no loops or functions. The model covers four stages:

- **Scanner** (`scanner.dfy`, module `Scanner`). It turns the source text into
  tokens using one cursor and one character of lookahead. Every token is
  checked against an independent lexical rule for its kind, stated over the
  source span it was cut from. The scan returns a token list exactly when
  that list scans the source under these rules, so the rules determine the
  scan. The output always ends in one `EOF`.
- **Parser** (`parser.dfy`, module `Parser`). It is the recursive-descent
  parser, written as mutually recursive functions over
  `(tokens, cursor)` that return a tree and the next cursor, or the first
  error. The rules are specified against the *text* of a tree, defined
  without the parser: `ExprEnd` and `StmtEnd` say where the tokens that
  spell a tree end, with every operator, name and literal token in place
  and the punctuation and keywords of each form around them. `ReadEnd`
  adds the grammar's restrictions, listed below. Every rule's result spells
  its tree from the cursor to the new cursor. Conversely, a tree spelled
  from the cursor, followed by a token that ends it, is what the rule
  returns. The grammar's restrictions:
  - binary levels are left-associative and nested by precedence;
  - assignment targets are variables, and assignment groups to the right;
  - an `if` branch is never a declaration;
  - a dangling `else` belongs to the nearest `if`.

  Module `ParserCompleteness` (`parser_completeness.dfy`) shows that
  `parse` is the inverse of the text function on well-formed programs, and
  that the grammar is unambiguous. Module `ParserProperties`
  (`parser_properties.dfy`) turns the restrictions into general failure
  facts. It also works out the parse of small token streams: `a - b - c`,
  `1 + 2 * 3`, `a = b = c`, `1 = 2` and
  `if (x) if (y) print 1; else print 2;`.
- **Environment** (`environment.dfy`). Block scopes nest strictly, so the
  chain of `enclosing` links is modelled as a non-empty stack of scopes, with
  the innermost scope last.
- **Interpreter** (`interpreter.dfy`). `evaluate` and `execute` are total
  functions. They thread the scope stack and an output trace of printed
  values, and they stop at the first error while keeping the state that
  error left behind. Arithmetic is checked against an independent
  denotation (`Denote`).

Shared types live in their own files:

| file | contents |
|---|---|
| `tokens.dfy` | `TokenType`, `Token` |
| `ast.dfy` | `Expr`, `Stmt` |
| `values.dfy` | `Value` and truthiness |
| `errors.dfy` | error kinds |
| `wrappers.dfy` | `Option` and `Result` |

The model follows the Kotlin code as written. That includes behaviour a
reader of the grammar might not expect; each item is stated as a lemma or
contract:

- **Token line numbers.** The token line counter starts at 0. It moves only on
  newlines inside string literals, because a newline outside a string is
  plain whitespace. The `EOF` token always carries line 1, taken from a
  counter that never changes (`Scanner.ScannedFacts`, `Scanner.ScanTokens`).
- **Identifier letters.** Identifiers may start with upper-case letters,
  because `isAlphabet` lower-cases before comparing. For the same reason,
  U+0130 and U+212A, whose lower-case forms are `i` and `k`, count as
  letters (`Scanner.IsAlphabet`).
- **Number lexemes.** A number lexeme is the longest run of digits and dots.
  One with two or more dots, such as `1.2.3`, makes `toDouble` throw, so the
  scan fails (`Scanner.ScanNumber`).
- **Assignment in an enclosing scope.** `assign` on a name bound only in an
  enclosing scope updates that binding and still raises "undefined variable"
  (`Environment.AssignInEnclosingScope`, `Interpreter.EnclosingAssignProgram`).
- **Unary expressions.** Every unary expression fails after evaluating its
  operand. The `when` value in `visitUnaryExpr` is discarded and the method
  throws (`Interpreter.UnaryAlwaysFails`).
- **`>` and `<`.** Both operators parse but fail at run time, because
  `visitBinaryExpr` has no case for them (`Interpreter.ComparisonsFail`).
- **`!=`.** This operator is the JVM's reference inequality `!==` on boxed
  values, not the negation of `==` (`Interpreter.NotSame`).

## Model

| member | source | states |
|---|---|---|
| Scanner.ScanTokens | src/scanner/Scanner.kt:32-39 | succeeds iff the whole scan does; the result is the scanned tokens in source order followed by exactly one `EOF` with empty lexeme and line 1, and no earlier token is `EOF` (also for empty input) |
| Scanner.ScanFrom | src/scanner/Scanner.kt:33-36 | a successful scan from `pos` is trivia (whitespace, and `//` comments each running to the next newline of the whole source), then a token obeying its lexical rule whose lexeme is exactly its source span, then the scan of the rest from that token's end; a failure means some position at or after `pos` cannot be scanned |
| Scanner.ScanFromComplete | src/scanner/Scanner.kt:32-36 | conversely, any token list that scans the text from `pos` in that sense is exactly what the loop returns |
| Scanner.ScanExact | src/scanner/Scanner.kt:32-36 | the scan returns `xs` iff `xs` scans the whole source: comments and whitespace give no token, and every token is the one its rule cuts there |
| Scanner.ScanFailure | src/scanner/Scanner.kt:32-36 | the scan fails iff no token list scans the whole source |
| Scanner.ScanDetermined | src/scanner/Scanner.kt:32-36 | at most one token list scans a text from a given position and line counter |
| Scanner.LexesUnique | src/scanner/Scanner.kt:41-69 | two tokens obeying their lexical rules from the same position end at the same place and have the same kind and literal: the token a position starts is determined (maximal munch) |
| Scanner.ScanToken | src/scanner/Scanner.kt:41-69 | fails exactly on an unhandled character (with the line counter), an unterminated string or a number lexeme `toDouble` rejects; otherwise consumes at least one character and either adds one token obeying its kind's rule or skips one whitespace character or a `//` comment up to, not including, the next newline |
| Scanner.ScanOperator | src/scanner/Scanner.kt:43-59 | maximal munch: `!`, `=`, `<`, `>` followed by `=` give the two-character kind, otherwise the one-character kind; a `/` not followed by `/` is `SLASH` |
| Scanner.SkipComment | src/scanner/Scanner.kt:55-56 | a `//` comment produces no token and stops right before the next newline or at the end of input |
| Scanner.ScanString | src/scanner/Scanner.kt:98-110 | fails iff no closing quote follows; otherwise the token spans both quotes, its literal is the text between them, and the line counter grows by the newlines inside |
| Scanner.ScanNumber | src/scanner/Scanner.kt:112-117 | the lexeme is a digit followed by the longest run of digits and dots; it fails iff that lexeme is one `toDouble` rejects, and otherwise the token's literal is the lexeme's value |
| Scanner.ParseNumber | src/scanner/Scanner.kt:116 | the conversion of a digits-and-dots lexeme succeeds iff it has at most one dot, and its value is then the integer its digits spell with the dot dropped, divided by 10 to the number of digits after the dot (`12.5` is 125/10, `7.` is 7) |
| Scanner.ScanWord | src/scanner/Scanner.kt:119-131 | the lexeme is a letter or `_` followed by the longest alphanumeric run; the kind is the reserved word's kind iff the text is in the keyword table, otherwise `IDENTIFIER` |
| Scanner.Span | src/scanner/Scanner.kt:79-82 | the `while (peek() ...) nextChar()` loops: the end of the maximal run of characters with the property, stopping at the end of input |
| Scanner.ScannedFacts | src/scanner/Scanner.kt:32-39 | every token of a scan obeys its lexical rule, the tokens follow each other in source order without overlapping, and their line numbers start at the initial counter and never decrease |
| Scanner.LiteralsOnlyOnValues | src/scanner/Scanner.kt:84-90 | in a scanner result, a token carries a literal iff it is a `NUMBER` or `STRING` |
| Parser.Consume | src/parser/Parser.kt:190-195 | succeeds iff the current token has the kind and is not `EOF`, and then moves the cursor by one |
| Parser.ParsePrimary | src/parser/Parser.kt:120-136 | on success the tokens from the cursor to the new cursor spell the tree: a literal on a literal token carrying the token's value (`true`, `false`, `nil` for those keywords), a variable on its name token, a grouping between `(` and `)`; the tree is atomic and its first token is neither `!` nor `-` |
| Parser.PrimaryComplete | src/parser/Parser.kt:120-136 | conversely, the tokens spelling a literal, a variable or a well-shaped grouping are parsed by `primary` into exactly that tree, ending where its text ends |
| Parser.ParseUnary | src/parser/Parser.kt:111-118 | on success the tokens read spell the tree, each `!` or `-` token in front of its operand, and the tree is atomic and well-shaped |
| Parser.UnaryComplete | src/parser/Parser.kt:111-118 | conversely, the tokens spelling an atomic well-shaped expression are parsed by `unary` into exactly that tree, whatever follows |
| Parser.ParseBinary | src/parser/Parser.kt:71-109 | on success the tokens read spell the tree, every operand and operator token in its place; the tree binds at least as tightly as the level, every binary node in it is left-associative, and the parse stops at a token that is an operator of no level as tight as this one |
| Parser.BinaryComplete | src/parser/Parser.kt:71-109 | conversely, the tokens spelling a well-shaped expression that binds at least as tightly as the level, followed by a token that is an operator of no level as tight, are parsed by the level into exactly that tree |
| Parser.BinaryRest | src/parser/Parser.kt:73-77 | each round of the loop extends the text: the tokens from the start of the left operand spell the folded tree, which stays well-shaped, and the loop stops at a token that is not an operator of the level or a tighter one |
| Parser.RestComplete | src/parser/Parser.kt:73-77 | conversely, the text of a left operand followed by `operator operand` pairs of the level is folded by the loop into exactly their left-nested tree |
| Parser.ParseAssignment | src/parser/Parser.kt:176-188 | on success the tokens read spell the tree (`name = value` for an assignment, whose target is a variable and whose value groups to the right), and are followed by neither a binary operator nor `=` |
| Parser.ParseExpression | src/parser/Parser.kt:53-55 | as for assignment: the tokens read spell a well-shaped tree and the first token can start an expression |
| Parser.ExpressionComplete | src/parser/Parser.kt:53-55 | conversely, the tokens spelling any well-shaped expression, followed by a token that is neither a binary operator nor `=`, are parsed by `expression` into exactly that tree; with `ParseExpression`, parsing is the inverse of spelling on well-shaped trees |
| Parser.ParseDeclaration | src/parser/Parser.kt:57-60 | on success the declaration read from the cursor (its text, with the grammar's restrictions) ends at the new cursor, and it is a `var` iff the first token is `var`; conversely, every declaration read from the cursor is the one it returns |
| Parser.ParseVarDecl | src/parser/Parser.kt:62-69 | read from the `var`: the declared name is the identifier token after it, the initializer is present iff `=` follows the name and is then the expression read after the `=`, and `;` ends it; conversely, every declaration read from that `var` is the one it returns |
| Parser.ParseInitializer | src/parser/Parser.kt:65-66 | an initializer iff the token is `=`, and then the expression read after it; conversely, every expression read after `=` up to a `;` is the one it returns |
| Parser.ParseStatement | src/parser/Parser.kt:138-143 | on success the statement read from the cursor ends at the new cursor and is never a declaration; conversely, every statement other than a declaration read from the cursor is the one it returns |
| Parser.ParsePrintStatement | src/parser/Parser.kt:155-159 | read from `print`: a `print` of the expression read after it, ended by `;`; conversely, every statement read from that `print` is the one it returns |
| Parser.ParseExpressionStatement | src/parser/Parser.kt:161-165 | the expression read from the cursor, ended by `;`; conversely, every expression statement read from the cursor is the one it returns |
| Parser.ParseIf | src/parser/Parser.kt:145-153 | read from `if`: `(`, the condition read, `)`, a then-branch and, iff `else` follows it, an else-branch, neither branch a declaration; conversely, every statement read from that `if` is the one it returns, so an `else` goes to the nearest `if` |
| Parser.ParseIfBranches | src/parser/Parser.kt:149-152 | after `if ( condition )`: the `if` with that condition, the then-branch read next and the else-branch read after `else`; conversely, every `if` with that condition read from the `if` is the one it returns |
| Parser.ParseElse | src/parser/Parser.kt:150-151 | an else-branch iff the token is `else`, and then the statement read after it; conversely, every statement other than a declaration read after `else` is the one it returns |
| Parser.ParseBlock | src/parser/Parser.kt:167-174 | on success the declarations read one after the other from the cursor, in source order and none dropped, end right before the `}` that ends the block; conversely, every list of declarations read up to a `}` is the one it returns |
| Parser.ParseDeclarations | src/parser/Parser.kt:47-51 | on success the declarations read one after the other from the cursor end at an `EOF`; conversely, every list of declarations read up to an `EOF` is the one it returns |
| Parser.Parse | src/parser/Parser.kt:47-51 | on success the program's declarations are well-formed and their texts, one after the other in source order, run from the first token to an `EOF`, the last token when no other `EOF` comes before it; conversely, every list of declarations read up to an `EOF` is the parse |
| Parser.ReadSound | src/parser/Parser.kt:138-174 | a statement the rules read from a position is well-formed and its text runs exactly as far; one ending in an `if` without `else` is not followed by `else` |
| Parser.ReadsSound | src/parser/Parser.kt:167-174 | declarations read one after the other are well-formed and their texts, one after the other, run exactly as far |
| ParserCompleteness.ReadIsYield | src/parser/Parser.kt:138-174 | what the rules read, stated without them: a statement is read from a position exactly when it is well-formed and its text starts there, ending where its text ends, and no `else` follows if it ends in an `if` without one |
| ParserCompleteness.YieldsRead | src/parser/Parser.kt:167-174 | well-formed declarations whose texts run one after the other, and are not followed by `else`, are read as one list that far |
| ParserCompleteness.ParseIsInverse | src/parser/Parser.kt:47-51 | `parse` gives `ss` exactly when `ss` are well-formed declarations whose texts, one after the other, run from the first token to an `EOF` |
| ParserCompleteness.Unambiguous | src/parser/Parser.kt:47-51 | two lists of well-formed declarations whose texts both run from the first token to an `EOF` are equal |
| ParserProperties.AssignTargetMustBeVariable | src/parser/Parser.kt:176-188 | when `=` follows a left side that is not a variable, the assignment fails |
| ParserProperties.DeclarationIsNoBranch | src/parser/Parser.kt:138-151 | a statement starting with `var` fails, and neither branch of a parsed `if` is a declaration |
| ParserProperties.UnclosedBlockFails | src/parser/Parser.kt:167-174 | a block with no `}` at or after the cursor fails |
| ParserProperties.MissingSemicolonFails | src/parser/Parser.kt:161-165 | an expression statement not followed by `;` fails |
| ParserProperties.ElseGoesToNearestIf | src/parser/Parser.kt:145-153 | no parsed `if` has an `else` while its then-branch ends in an `if` still missing one |
| ParserProperties.SubtractionGroupsLeft | src/parser/Parser.kt:91-99 | `a - b - c` parses as `(a - b) - c` |
| ParserProperties.ProductBindsTighter | src/parser/Parser.kt:91-109 | `1 + 2 * 3` parses as `1 + (2 * 3)` |
| ParserProperties.AssignmentGroupsRight | src/parser/Parser.kt:176-188 | `a = b = c` parses as `a = (b = c)` |
| ParserProperties.LiteralTargetFails | src/parser/Parser.kt:176-188 | `1 = 2` is a parse error |
| ParserProperties.InnerIfTakesElse | src/parser/Parser.kt:145-153 | in `if (y) print 1; else print 2;` the `else` belongs to the `if` |
| ParserProperties.DanglingElseGoesInside | src/parser/Parser.kt:145-153 | `if (x) if (y) print 1; else print 2;` attaches the `else` to the inner `if` and leaves the outer `if` without one |
| Environment.Global | src/interpreter/Interpreter.kt:10 | the interpreter starts with one empty global scope |
| Environment.Push | src/interpreter/Interpreter.kt:79-82 | a block's environment is a new empty scope whose enclosing chain is the current one |
| Environment.Pop | src/interpreter/Interpreter.kt:114-117 | leaving a block restores the enclosing chain exactly |
| Environment.Define | src/environment/Environment.kt:8-10 | `define` binds the name in the innermost scope only, replacing a binding there, and leaves every other binding and scope alone |
| Environment.Get | src/environment/Environment.kt:21-27 | `get` succeeds iff some scope binds the name, gives the binding of the innermost such scope, and otherwise fails with "undefined variable" |
| Environment.Assign | src/environment/Environment.kt:12-19 | `assign` succeeds iff the innermost scope binds the name; it rebinds the nearest binding when there is one, even when it then fails, and changes nothing when no scope binds the name |
| Environment.GetAfterDefine | src/environment/Environment.kt:8-27 | after `define(n, v)`, `get(n)` gives `v` and every other name reads as before |
| Environment.InnermostShadows | src/environment/Environment.kt:21-25 | a name bound in the innermost scope reads as that binding, whatever enclosing scopes bind |
| Environment.ShadowThenLeave | src/interpreter/Interpreter.kt:108-118 | a definition in a fresh child scope hides the enclosing one, and leaving the scope restores the enclosing chain |
| Environment.AssignInCurrentScope | src/environment/Environment.kt:12-16 | assigning a name the innermost scope binds succeeds and is exactly a rebinding in that scope |
| Environment.AssignInEnclosingScope | src/environment/Environment.kt:17-18 | assigning a name bound only in an enclosing scope raises "undefined variable", yet afterwards the name reads as the new value |
| Environment.GetAfterAssign | src/environment/Environment.kt:12-18 | after `assign(n, v)` on a name some scope binds, `get(n)` gives `v`, whether or not the assignment raised |
| Environment.AssignUndefined | src/environment/Environment.kt:17-18 | assigning a name no scope binds fails and changes nothing |
| Interpreter.NotSame | src/interpreter/Interpreter.kt:34 | `!==` on boxes: determined, and then plain inequality, exactly when the operands are not both numbers or both strings |
| Interpreter.ApplyBinary | src/interpreter/Interpreter.kt:20-36 | operators without a case fail with "unsupported"; `-`, `/`, `*`, `>=`, `<=` fail with a type error on a non-number operand; on two numbers `+`, `-`, `*` give the sum, difference and product, `/` the quotient for a non-zero divisor, `>=` and `<=` the comparison; `+` on two strings concatenates them and on any other pair fails; `==` is value equality and `!=` is the boxes' `!==` |
| Interpreter.UnaryFailure | src/interpreter/Interpreter.kt:43-51 | a unary expression with a value fails with a type error iff it is `-` on a non-number, and with "unsupported" otherwise |
| Interpreter.Evaluate | src/interpreter/Interpreter.kt:16-65 | evaluation never adds or removes a binding, and an expression without an assignment leaves the scope chain untouched |
| Interpreter.Execute | src/interpreter/Interpreter.kt:67-90 | a statement only appends to the output and only adds names to the innermost scope; a block leaves every scope with exactly the names it had |
| Interpreter.ExecuteAll | src/interpreter/Interpreter.kt:12-14 | running statements in order only appends to the output and only adds names to the innermost scope |
| Interpreter.Interpret | src/interpreter/Interpreter.kt:10-14 | a program runs in one global scope and ends in it; the empty program prints nothing |
| Interpreter.TruthinessTable | src/interpreter/Interpreter.kt:92-98 | exactly `nil` and `false` are falsy; `0` and `""` are truthy |
| Interpreter.LeftBeforeRight | src/interpreter/Interpreter.kt:16-36 | the left operand is evaluated first; if it fails the right one is not evaluated; the right one runs in the scope chain the left one left behind; when both have values the result is the operator applied to them |
| Interpreter.VariableReads | src/interpreter/Interpreter.kt:57-59 | a variable reads the binding of the innermost scope that binds its name and fails with "undefined variable" when none does; the scope chain is unchanged |
| Interpreter.LiteralAndGrouping | src/interpreter/Interpreter.kt:39-55 | a literal evaluates to its value with the scope chain unchanged, and a grouping to whatever its inner expression evaluates to |
| Interpreter.OperatorLaws | src/interpreter/Interpreter.kt:20-36 | `>=` is `<=` with the operands swapped, `==` is symmetric, `!=` is the negation of `==` wherever it is determined, `+` on numbers commutes, and adding back what was subtracted gives the original number |
| Interpreter.ComparisonsFail | src/interpreter/Interpreter.kt:29-35 | `>` and `<` always fail, with "unsupported operator" once both operands have values |
| Interpreter.UnaryAlwaysFails | src/interpreter/Interpreter.kt:43-51 | every unary expression fails, after its operand's effects on the scope chain |
| Interpreter.AssignYieldsValue | src/interpreter/Interpreter.kt:61-65 | an assignment yields the assigned value when the innermost scope binds the name, fails with "undefined variable" otherwise, and in both cases the nearest binding reads as the value afterwards |
| Interpreter.VarDefines | src/interpreter/Interpreter.kt:75-77 | `var` binds the name in the innermost scope to the initializer's value, or to `nil` without one |
| Interpreter.PrintAppends | src/interpreter/Interpreter.kt:71-73 | `print` appends the expression's value to the output |
| Interpreter.IfChooses | src/interpreter/Interpreter.kt:84-90 | `if` runs the then-branch iff the condition is truthy, otherwise the else-branch if present, otherwise nothing |
| Interpreter.BlockRestoresScope | src/interpreter/Interpreter.kt:108-118 | however a block is left, the scope chain has its old depth, and a name unbound before the block is still unbound |
| Interpreter.ExecuteAllAppend | src/interpreter/Interpreter.kt:12-14 | running `a + b` is running `a` and then, unless `a` stopped with an error, `b` from where `a` left off |
| Interpreter.EvaluateArith | src/interpreter/Interpreter.kt:16-37 | an expression of number literals, `+`, `-`, `*` and parentheses evaluates, without touching the scope chain, to the number it denotes |
| Interpreter.ArithStep | src/interpreter/Interpreter.kt:16-25 | `+`, `-` and `*` on operands that evaluate to numbers give their sum, difference and product |
| Interpreter.ArithOperator | src/interpreter/Interpreter.kt:21-25 | `+`, `-` and `*` on two numbers are the sum, difference and product |
| Interpreter.ShadowingProgram | src/interpreter/Interpreter.kt:75-118 | `var a = 1; { var a = 2; print a; } print a;` prints 2 then 1 and ends with `a = 1` in the global scope |
| Interpreter.EnclosingAssignProgram | src/environment/Environment.kt:12-19 | `var a = 1; { a = 2; } print a;` writes 2 into the global `a` but stops with "undefined variable" before printing |

## Left out

- src/Main.kt, the entry point, is not part of this model. It reads a fixed file, wires the stages together and maps failures to an exit code, which is file I/O and process control.
- src/tool/Main.kt, the AST code generator, is not part of this model. It writes Kotlin files. Only its list of expression variants is used, as the shape of `Expr`.
- Numbers are exact reals, so IEEE double rounding is not modelled, nor are the IEEE special values (-0.0, infinities, NaN), overflow to an infinity, or `Double.equals` on them: `0 * (0 - 1) == 0` is false on the JVM, because `Double.equals` separates -0.0 from 0.0, and true in the model. A lexeme's value is the exact decimal it denotes.
- Division by zero, which gives an infinity or NaN on the JVM, yields the error `NotModelled`.
- `!=` on two numbers or two strings yields `NotModelled`, because whether two boxes are the same object is up to the JVM. All other operand pairs are determined and are modelled.
- `println` formatting is not modelled. `print` appends the `Value` to an output trace.
- The scanner's debug `println(c)` before its error is not modelled.
- The exception classes and message texts (`VerifyError`, `RuntimeException`, `error(...)`, failed casts) are collapsed into the error kinds of `Errors.Error`. Only the scanner's unexpected-character error keeps its line counter.
- Kotlin `Char` is a UTF-16 code unit, while Dafny's `char` is a Unicode scalar value. Surrogate pairs are not modelled.
- Token line counters are unbounded `nat`. The source's 32-bit `Int` cannot wrap on any input shorter than 2^31 characters.
- The parser functions require the token sequence to end in `EOF`. The scanner always guarantees this; on a sequence without one, the Kotlin parser would index past the end of the array.
- Visitor dispatch (`accept` and `visitXxx`) is modelled as a `match` on the variant.
- The interpreter's mutable `environment` field is modelled as a `State` that is threaded through the calls.
- Scanner.ScanFrom: its failure clause names some position that cannot be scanned, not necessarily the first one the loop reaches, and does not say which error is reported. That no token list scans the rest is stated by `ScanFromComplete`.
- Interpreter.Evaluate: its own contract states only what evaluation does to the scope chain. The value of each expression form is stated by the lemma about that form: `LiteralAndGrouping`, `VariableReads`, `AssignYieldsValue`, `UnaryAlwaysFails`, and `LeftBeforeRight` together with `ApplyBinary`.
