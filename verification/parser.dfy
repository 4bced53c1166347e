/** The recursive-descent parser (src/parser/Parser.kt).

    Every rule is a function of the token sequence and a cursor position that
    returns the node it built and the position after it, or the first error:
    the parser has no recovery. The four left-associative binary levels of the
    grammar (equality, comparison, term, factor) are one function over a level
    number, and the loop that folds each further operator and operand onto
    the tree built so far is the tail-recursive `BinaryRest`.

    Termination follows the grammar: a rule either calls a rule of higher
    precedence at the same position or first consumes a token. */
module Parser {

  import opened Wrappers
  import opened Errors
  import opened Tokens
  import opened Values
  import opened Ast

  // ---------------------------------------------------------------------------
  // Cursor

  /** What the scanner guarantees and the parser relies on: the last token is
      `EOF`, so the cursor, which never moves past an `EOF`, stays in bounds. */
  predicate EndsWithEof(ts: seq<Token>)
  {
    |ts| > 0 && ts[|ts| - 1].kind == EOF
  }

  /** The cursor moved forward from `pos` to `next` and is still on a token. */
  predicate Within(ts: seq<Token>, pos: nat, next: nat)
  {
    pos <= next < |ts|
  }

  /** A rule's result: the node it built and the cursor after it. */
  datatype Parsed<T> = Parsed(node: T, next: nat)

  /** `isAtEnd` */
  predicate AtEnd(ts: seq<Token>, pos: nat)
    requires pos < |ts|
  {
    ts[pos].kind == EOF
  }

  /** `check(kind)`: false at `EOF` whatever `kind` is. */
  predicate Check(ts: seq<Token>, pos: nat, kind: TokenType)
    requires pos < |ts|
  {
    !AtEnd(ts, pos) && ts[pos].kind == kind
  }

  /** `consume(kind)`: step over a token of that kind or fail. */
  function Consume(ts: seq<Token>, pos: nat, kind: TokenType): (r: Result<nat, Error>)
    requires EndsWithEof(ts) && pos < |ts|
    ensures r.Success? <==> Check(ts, pos, kind)
    ensures r.Success? ==> r.value == pos + 1 && Within(ts, pos, r.value)
  {
    if Check(ts, pos, kind) then Success(pos + 1) else Failure(ParseError)
  }

  // ---------------------------------------------------------------------------
  // Shapes of the trees the parser builds

  /** The binary levels, from the lowest precedence (0, equality) to the
      highest (3, factor). */
  type Level = l: nat | l <= 3

  /** The level of a binary operator token, or -1 for a token that is no
      binary operator. */
  function BinaryLevel(k: TokenType): (l: int)
    ensures -1 <= l <= 3
  {
    match k
    case BANG_EQUAL | EQUAL_EQUAL => 0
    case GREATER | LESS | GREATER_EQUAL | LESS_EQUAL => 1
    case MINUS | PLUS => 2
    case SLASH | STAR => 3
    case _ => -1
  }

  predicate IsBinaryOperator(k: TokenType)
  {
    BinaryLevel(k) >= 0
  }

  /** Precedence of the node at the top of `e`: an assignment binds loosest
      (-1), a binary node binds as its operator's level, and unary, grouping,
      literal and variable nodes are atomic (4). */
  function Prec(e: Expr): int
  {
    match e
    case Assign(_, _) => -1
    case Binary(_, op, _) => BinaryLevel(op.kind)
    case _ => 4
  }

  /** The trees the grammar can produce: binary operators are left-associative
      (the left operand binds at least as tightly, the right strictly more
      tightly), a unary operand is atomic, assignment targets are variables and
      assignment is right-associative (its value may be any expression),
      operator and name tokens have the kinds the grammar allows. */
  predicate Shaped(e: Expr)
  {
    match e
    case Binary(l, op, r) =>
      && IsBinaryOperator(op.kind)
      && Prec(l) >= Prec(e) && Prec(r) > Prec(e)
      && Shaped(l) && Shaped(r)
    case Grouping(x) => Shaped(x)
    case Unary(op, x) => (op.kind == BANG || op.kind == MINUS) && Prec(x) == 4 && Shaped(x)
    case Literal(_) => true
    case Variable(name) => name.kind == IDENTIFIER
    case Assign(name, v) => name.kind == IDENTIFIER && Shaped(v)
  }

  /** A statement ends in an `if` with no `else` to which a following `else`
      could still attach. */
  predicate EndsOpen(s: Stmt)
  {
    s.If? && (s.elseBranch.None? || EndsOpen(s.elseBranch.value))
  }

  /** The statement trees the grammar can produce: expressions are `Shaped`,
      declared names are identifiers, an `if` branch is never a declaration,
      and an `else` is never attached to an `if` whose then-branch could still
      take it (the dangling `else` goes to the nearest `if`). */
  predicate WellFormed(s: Stmt)
  {
    match s
    case Expression(e) => Shaped(e)
    case Print(e) => Shaped(e)
    case Var(name, init) => name.kind == IDENTIFIER && (init.Some? ==> Shaped(init.value))
    case Block(ss) => AllWellFormed(ss)
    case If(c, t, e) =>
      && Shaped(c) && !t.Var? && WellFormed(t)
      && (e.Some? ==> !e.value.Var? && WellFormed(e.value) && !EndsOpen(t))
  }

  predicate AllWellFormed(ss: seq<Stmt>)
  {
    |ss| == 0 || (WellFormed(ss[0]) && AllWellFormed(ss[1..]))
  }

  /** The kinds of token an expression can start with. */
  predicate StartsExpression(k: TokenType)
  {
    || k == FALSE || k == TRUE || k == NIL || k == NUMBER || k == STRING
    || k == IDENTIFIER || k == LEFT_PAREN || k == BANG || k == MINUS
  }

  /** The value a literal token stands for: its literal, or nil when it has none. */
  function LiteralValue(lit: Option<TokenLiteral>): Value
  {
    match lit
    case None => Nil
    case Some(NumberLiteral(n)) => Number(n)
    case Some(StringLiteral(s)) => Str(s)
  }

  // ---------------------------------------------------------------------------
  // The tokens a tree was built from

  /** The kinds of token `primary` turns into a literal. */
  predicate IsLiteral(k: TokenType)
  {
    k == FALSE || k == TRUE || k == NIL || k == NUMBER || k == STRING
  }

  /** The value of a literal token: `false`, `true` and `nil` stand for
      themselves, a number or string for its literal. */
  function TokenValue(t: Token): (v: Value)
    requires IsLiteral(t.kind)
    ensures LiteralToken(t, v)
  {
    if t.kind == FALSE then Bool(false)
    else if t.kind == TRUE then Bool(true)
    else if t.kind == NIL then Nil
    else LiteralValue(t.literal)
  }

  /** `t` is the token of a literal node with value `v`: `false`, `true` and
      `nil` stand for themselves, a number or string token for its literal. */
  predicate LiteralToken(t: Token, v: Value)
  {
    || (t.kind == FALSE && v == Bool(false))
    || (t.kind == TRUE && v == Bool(true))
    || (t.kind == NIL && v == Nil)
    || ((t.kind == NUMBER || t.kind == STRING) && v == LiteralValue(t.literal))
  }

  /** The position after a token of the given kind at `pos`, if there is one. */
  function After(ts: seq<Token>, pos: nat, kind: TokenType): (r: Option<nat>)
    ensures r.Some? <==> pos < |ts| && ts[pos].kind == kind
    ensures r.Some? ==> r.value == pos + 1
  {
    if pos < |ts| && ts[pos].kind == kind then Some(pos + 1) else None
  }

  /** A text ending at `end`, if it ends, followed by a token of the given kind. */
  function Close(ts: seq<Token>, end: Option<nat>, kind: TokenType): (r: Option<nat>)
    ensures r.Some? <==> end.Some? && After(ts, end.value, kind).Some?
    ensures r.Some? ==> r.value == end.value + 1
  {
    match end
    case None => None
    case Some(m) => After(ts, m, kind)
  }

  /** A text closed by a token of the given kind, at the position after that
      token, ends just before it. */
  lemma {:induction false} CloseAt(ts: seq<Token>, end: Option<nat>, kind: TokenType, j: nat)
    requires Close(ts, end, kind) == Some(j)
    ensures 0 < j && end == Some(j - 1) && j - 1 < |ts| && ts[j - 1].kind == kind
  {
  }

  /** Where the text of `e` ends when it starts at `pos`: `Some(end)` when
      `ts[pos..end]` spells `e`, with every operator and name token of the
      tree in its place, each literal on its token, a grouping between `(`
      and `)` and `=` after an assigned name; `None` when `ts` does not
      spell `e` at `pos`. */
  function ExprEnd(ts: seq<Token>, pos: nat, e: Expr): Option<nat>
    decreases e
  {
    match e
    case Binary(l, op, r) =>
      (match ExprEnd(ts, pos, l)
       case None => None
       case Some(m) => if m < |ts| && ts[m] == op then ExprEnd(ts, m + 1, r) else None)
    case Grouping(x) =>
      if pos < |ts| && ts[pos].kind == LEFT_PAREN then Close(ts, ExprEnd(ts, pos + 1, x), RIGHT_PAREN) else None
    case Unary(op, x) => if pos < |ts| && ts[pos] == op then ExprEnd(ts, pos + 1, x) else None
    case Literal(v) => if pos < |ts| && LiteralToken(ts[pos], v) then Some(pos + 1) else None
    case Variable(name) => if pos < |ts| && ts[pos] == name then Some(pos + 1) else None
    case Assign(name, v) =>
      if pos + 1 < |ts| && ts[pos] == name && ts[pos + 1].kind == EQUAL then ExprEnd(ts, pos + 2, v) else None
  }

  /** Where the text of `s` ends when it starts at `pos`: its expressions'
      texts with the keywords and punctuation of its statement form (`print`,
      `var`, `=`, `;`, braces, `if ( )` and `else`) in place. */
  function StmtEnd(ts: seq<Token>, pos: nat, s: Stmt): Option<nat>
    decreases s
  {
    match s
    case Expression(e) => Close(ts, ExprEnd(ts, pos, e), SEMICOLON)
    case Print(e) =>
      if pos < |ts| && ts[pos].kind == PRINT then Close(ts, ExprEnd(ts, pos + 1, e), SEMICOLON) else None
    case Var(name, init) =>
      if pos + 1 < |ts| && ts[pos].kind == VAR && ts[pos + 1] == name then
        if init.None? then After(ts, pos + 2, SEMICOLON)
        else if pos + 2 < |ts| && ts[pos + 2].kind == EQUAL then Close(ts, ExprEnd(ts, pos + 3, init.value), SEMICOLON)
        else None
      else None
    case Block(ss) =>
      if pos < |ts| && ts[pos].kind == LEFT_BRACE then Close(ts, StmtsEnd(ts, pos + 1, ss), RIGHT_BRACE) else None
    case If(c, t, e) =>
      if pos + 1 < |ts| && ts[pos].kind == IF && ts[pos + 1].kind == LEFT_PAREN then
        match Close(ts, ExprEnd(ts, pos + 2, c), RIGHT_PAREN)
        case None => None
        case Some(j) =>
          match StmtEnd(ts, j, t)
          case None => None
          case Some(k) =>
            if e.None? then Some(k)
            else if k < |ts| && ts[k].kind == ELSE then StmtEnd(ts, k + 1, e.value)
            else None
      else None
  }

  /** Where the texts of `ss`, one after the other, end. */
  function StmtsEnd(ts: seq<Token>, pos: nat, ss: seq<Stmt>): Option<nat>
    decreases ss
  {
    if |ss| == 0 then Some(pos)
    else
      match StmtEnd(ts, pos, ss[0])
      case None => None
      case Some(m) => StmtsEnd(ts, m, ss[1..])
  }

  // ---------------------------------------------------------------------------
  // How the statement rules read a text

  /** Where the expression `e` ends as a parse result read from `pos`: the
      end of its text, provided `e` has the shape the parser builds. */
  function ExprRead(ts: seq<Token>, pos: nat, e: Expr): Option<nat>
  {
    if Shaped(e) then ExprEnd(ts, pos, e) else None
  }

  /** Where the statement `s` ends as a parse result read from `pos`. It is
      `StmtEnd` with the grammar's restrictions read along: expressions
      have the parser's shape, declared names are identifiers, an `if`
      branch is never a declaration, and a then-branch followed by `else`
      takes that `else` itself, so an `if` without `else` ends only where
      no `else` follows and an `else` belongs to the nearest `if`. */
  function ReadEnd(ts: seq<Token>, pos: nat, s: Stmt): Option<nat>
    decreases s
  {
    match s
    case Expression(e) => Close(ts, ExprRead(ts, pos, e), SEMICOLON)
    case Print(e) =>
      if pos < |ts| && ts[pos].kind == PRINT then Close(ts, ExprRead(ts, pos + 1, e), SEMICOLON) else None
    case Var(name, init) =>
      if pos + 1 < |ts| && ts[pos].kind == VAR && ts[pos + 1] == name && name.kind == IDENTIFIER then
        if init.None? then After(ts, pos + 2, SEMICOLON)
        else if pos + 2 < |ts| && ts[pos + 2].kind == EQUAL then Close(ts, ExprRead(ts, pos + 3, init.value), SEMICOLON)
        else None
      else None
    case Block(ss) =>
      if pos < |ts| && ts[pos].kind == LEFT_BRACE then Close(ts, ReadsEnd(ts, pos + 1, ss), RIGHT_BRACE) else None
    case If(c, t, e) =>
      if pos + 1 < |ts| && ts[pos].kind == IF && ts[pos + 1].kind == LEFT_PAREN && !t.Var? then
        match Close(ts, ExprRead(ts, pos + 2, c), RIGHT_PAREN)
        case None => None
        case Some(j) =>
          match ReadEnd(ts, j, t)
          case None => None
          case Some(k) =>
            if k >= |ts| then None
            else if e.None? then (if ts[k].kind != ELSE then Some(k) else None)
            else if ts[k].kind == ELSE && !e.value.Var? then ReadEnd(ts, k + 1, e.value)
            else None
      else None
  }

  /** Where the statements `ss`, read one after the other from `pos`, end. */
  function ReadsEnd(ts: seq<Token>, pos: nat, ss: seq<Stmt>): Option<nat>
    decreases ss
  {
    if |ss| == 0 then Some(pos)
    else
      match ReadEnd(ts, pos, ss[0])
      case None => None
      case Some(m) => ReadsEnd(ts, m, ss[1..])
  }

  /** What every statement rule promises of a successful result `r`: the
      statement read from `pos` ends at `r.next`, a token after `pos`. */
  predicate StatementRead(ts: seq<Token>, pos: nat, r: Parsed<Stmt>)
  {
    pos < r.next < |ts| && ReadEnd(ts, pos, r.node) == Some(r.next)
  }

  // ---------------------------------------------------------------------------
  // Expressions

  /** `primary`: a literal, a variable, or a parenthesised expression. */
  function ParsePrimary(ts: seq<Token>, pos: nat): (r: Result<Parsed<Expr>, Error>)
    requires EndsWithEof(ts) && pos < |ts|
    ensures r.Success? ==> pos < r.value.next && Within(ts, pos, r.value.next)
    ensures r.Success? ==> ExprEnd(ts, pos, r.value.node) == Some(r.value.next)
    ensures r.Success? ==> Shaped(r.value.node) && Prec(r.value.node) == 4
    ensures r.Success? ==> StartsExpression(ts[pos].kind) && ts[pos].kind != BANG && ts[pos].kind != MINUS
    decreases |ts| - pos, 0
  {
    var t := ts[pos];
    if IsLiteral(t.kind) then Success(Parsed(Literal(TokenValue(t)), pos + 1))
    else if t.kind == IDENTIFIER then Success(Parsed(Variable(t), pos + 1))
    else if t.kind == LEFT_PAREN then
      var inner :- ParseExpression(ts, pos + 1);
      var close :- Consume(ts, inner.next, RIGHT_PAREN);
      Success(Parsed(Grouping(inner.node), close))
    else
      Failure(ParseError)
  }

  /** `unary`: any number of prefix `!` and `-` in front of a primary. */
  function ParseUnary(ts: seq<Token>, pos: nat): (r: Result<Parsed<Expr>, Error>)
    requires EndsWithEof(ts) && pos < |ts|
    ensures r.Success? ==> pos < r.value.next && Within(ts, pos, r.value.next)
    ensures r.Success? ==> ExprEnd(ts, pos, r.value.node) == Some(r.value.next)
    ensures r.Success? ==> Shaped(r.value.node) && Prec(r.value.node) == 4
    ensures r.Success? ==> StartsExpression(ts[pos].kind)
    decreases |ts| - pos, 1
  {
    if ts[pos].kind == BANG || ts[pos].kind == MINUS then
      var right :- ParseUnary(ts, pos + 1);
      Success(Parsed(Unary(ts[pos], right.node), right.next))
    else
      ParsePrimary(ts, pos)
  }

  /** The operand of a binary level: the next level up, or `unary` above factor. */
  function ParseOperand(ts: seq<Token>, pos: nat, level: Level): (r: Result<Parsed<Expr>, Error>)
    requires EndsWithEof(ts) && pos < |ts|
    ensures r.Success? ==> pos < r.value.next && Within(ts, pos, r.value.next)
    ensures r.Success? ==> ExprEnd(ts, pos, r.value.node) == Some(r.value.next)
    ensures r.Success? ==> Shaped(r.value.node) && Prec(r.value.node) > level
    ensures r.Success? && level < 3 ==> BinaryLevel(ts[r.value.next].kind) <= level
    ensures r.Success? ==> StartsExpression(ts[pos].kind)
    decreases |ts| - pos, 2 * (4 - level)
  {
    if level == 3 then ParseUnary(ts, pos) else ParseBinary(ts, pos, level + 1)
  }

  /** `equality`, `comparison`, `term` and `factor`: an operand, then as many
      `operator operand` pairs of this level as follow, folded to the left. */
  function ParseBinary(ts: seq<Token>, pos: nat, level: Level): (r: Result<Parsed<Expr>, Error>)
    requires EndsWithEof(ts) && pos < |ts|
    ensures r.Success? ==> pos < r.value.next && Within(ts, pos, r.value.next)
    ensures r.Success? ==> ExprEnd(ts, pos, r.value.node) == Some(r.value.next)
    ensures r.Success? ==> Shaped(r.value.node) && Prec(r.value.node) >= level
    ensures r.Success? ==> BinaryLevel(ts[r.value.next].kind) < level
    ensures r.Success? ==> StartsExpression(ts[pos].kind)
    decreases |ts| - pos, 2 * (4 - level) + 1
  {
    var left :- ParseOperand(ts, pos, level);
    BinaryRest(ts, pos, left.node, left.next, level)
  }

  /** The loop of a binary level, with the expression folded so far in
      `left`, whose text runs from `from` to `pos`. */
  function BinaryRest(ts: seq<Token>, ghost from: nat, left: Expr, pos: nat, level: Level): (r: Result<Parsed<Expr>, Error>)
    requires EndsWithEof(ts) && pos < |ts|
    requires Shaped(left) && Prec(left) >= level
    requires level < 3 ==> BinaryLevel(ts[pos].kind) <= level
    requires ExprEnd(ts, from, left) == Some(pos)
    ensures r.Success? ==> Within(ts, pos, r.value.next)
    ensures r.Success? ==> ExprEnd(ts, from, r.value.node) == Some(r.value.next)
    ensures r.Success? ==> Shaped(r.value.node) && Prec(r.value.node) >= level
    ensures r.Success? ==> BinaryLevel(ts[r.value.next].kind) < level
    decreases |ts| - pos, 0
  {
    if BinaryLevel(ts[pos].kind) == level then
      var right :- ParseOperand(ts, pos + 1, level);
      BinaryRest(ts, from, Binary(left, ts[pos], right.node), right.next, level)
    else
      Success(Parsed(left, pos))
  }

  /** `assignment`: an equality expression, and if `=` follows, the assigned
      value (itself an assignment, so `=` groups to the right); only a
      variable may stand on the left of `=`. */
  function ParseAssignment(ts: seq<Token>, pos: nat): (r: Result<Parsed<Expr>, Error>)
    requires EndsWithEof(ts) && pos < |ts|
    ensures r.Success? ==> pos < r.value.next && Within(ts, pos, r.value.next)
    ensures r.Success? ==> ExprEnd(ts, pos, r.value.node) == Some(r.value.next)
    ensures r.Success? ==> Shaped(r.value.node)
    ensures r.Success? ==> !IsBinaryOperator(ts[r.value.next].kind) && ts[r.value.next].kind != EQUAL
    ensures r.Success? ==> StartsExpression(ts[pos].kind)
    decreases |ts| - pos, 10
  {
    var target :- ParseBinary(ts, pos, 0);
    if ts[target.next].kind == EQUAL then
      var value :- ParseAssignment(ts, target.next + 1);
      if target.node.Variable? then
        AssignText(ts, pos, target.node, target.next, value.node, value.next);
        Success(Parsed(Assign(target.node.name, value.node), value.next))
      else Failure(ParseError)
    else
      Success(target)
  }

  /** The text of an assignment: the target variable, `=` and the value. */
  lemma {:induction false} AssignText(ts: seq<Token>, pos: nat, target: Expr, afterTarget: nat, value: Expr, end: nat)
    requires target.Variable? && ExprEnd(ts, pos, target) == Some(afterTarget)
    requires afterTarget < |ts| && ts[afterTarget].kind == EQUAL
    requires ExprEnd(ts, afterTarget + 1, value) == Some(end)
    ensures ExprEnd(ts, pos, Assign(target.name, value)) == Some(end)
  {
    assert afterTarget == pos + 1;
  }

  /** `expression` */
  function ParseExpression(ts: seq<Token>, pos: nat): (r: Result<Parsed<Expr>, Error>)
    requires EndsWithEof(ts) && pos < |ts|
    ensures r.Success? ==> pos < r.value.next && Within(ts, pos, r.value.next)
    ensures r.Success? ==> ExprEnd(ts, pos, r.value.node) == Some(r.value.next)
    ensures r.Success? ==> Shaped(r.value.node)
    ensures r.Success? ==> !IsBinaryOperator(ts[r.value.next].kind) && ts[r.value.next].kind != EQUAL
    ensures r.Success? ==> StartsExpression(ts[pos].kind)
    ensures r.Success? ==> ExprRead(ts, pos, r.value.node) == Some(r.value.next)
    decreases |ts| - pos, 11
  {
    ParseAssignment(ts, pos)
  }

  // ---------------------------------------------------------------------------
  // Every expression text is parsed back

  /** The number of nodes of an expression. */
  function Size(e: Expr): nat
  {
    match e
    case Binary(l, _, r) => Size(l) + Size(r) + 1
    case Grouping(x) => Size(x) + 1
    case Unary(_, x) => Size(x) + 1
    case Literal(_) => 1
    case Variable(_) => 1
    case Assign(_, v) => Size(v) + 1
  }

  /** `left` with the `operator operand` pairs of `ps` folded onto it from
      the left, as the loop of a binary level does. */
  function Fold(left: Expr, ps: seq<(Token, Expr)>): Expr
    decreases |ps|
  {
    if |ps| == 0 then left else Fold(Binary(left, ps[0].0, ps[0].1), ps[1..])
  }

  /** The leftmost operand of the chain of level-`level` operators at the top of `e`. */
  function Base(e: Expr, level: Level): (b: Expr)
    ensures Size(b) <= Size(e)
    ensures Shaped(e) && Prec(e) >= level ==> Shaped(b) && Prec(b) > level
  {
    if e.Binary? && BinaryLevel(e.op.kind) == level then Base(e.left, level) else e
  }

  /** The `operator operand` pairs of that chain, from left to right. */
  function Spine(e: Expr, level: Level): (ps: seq<(Token, Expr)>)
    ensures forall i | 0 <= i < |ps| :: Size(ps[i].1) < Size(e)
    ensures Shaped(e) && Prec(e) >= level ==>
              forall i | 0 <= i < |ps| ::
                BinaryLevel(ps[i].0.kind) == level && Shaped(ps[i].1) && Prec(ps[i].1) > level
  {
    if e.Binary? && BinaryLevel(e.op.kind) == level then Spine(e.left, level) + [(e.op, e.right)] else []
  }

  lemma {:induction false} FoldSnoc(left: Expr, ps: seq<(Token, Expr)>, p: (Token, Expr))
    ensures Fold(left, ps + [p]) == Binary(Fold(left, ps), p.0, p.1)
    decreases |ps|
  {
    if |ps| > 0 {
      assert (ps + [p])[1..] == ps[1..] + [p];
      FoldSnoc(Binary(left, ps[0].0, ps[0].1), ps[1..], p);
    }
  }

  /** Every expression is its chain's leftmost operand with the chain folded onto it. */
  lemma {:induction false} FoldSpine(e: Expr, level: Level)
    ensures Fold(Base(e, level), Spine(e, level)) == e
  {
    if e.Binary? && BinaryLevel(e.op.kind) == level {
      FoldSpine(e.left, level);
      FoldSnoc(Base(e.left, level), Spine(e.left, level), (e.op, e.right));
    }
  }

  /** The text of a folded chain starts with the text of its leftmost
      operand, followed by the first operator of the chain. */
  lemma {:induction false} FoldPrefix(ts: seq<Token>, pos: nat, left: Expr, ps: seq<(Token, Expr)>, n: nat)
    requires ExprEnd(ts, pos, Fold(left, ps)) == Some(n)
    ensures ExprEnd(ts, pos, left).Some?
    ensures |ps| == 0 ==> ExprEnd(ts, pos, left) == Some(n)
    ensures |ps| > 0 ==> ExprEnd(ts, pos, left).value < |ts| && ts[ExprEnd(ts, pos, left).value] == ps[0].0
    decreases |ps|
  {
    if |ps| > 0 {
      FoldPrefix(ts, pos, Binary(left, ps[0].0, ps[0].1), ps[1..], n);
    }
  }

  /** The text of an expression does not end where it starts. */
  lemma {:induction false} ExprGrows(ts: seq<Token>, pos: nat, e: Expr)
    ensures ExprEnd(ts, pos, e).Some? ==> pos < ExprEnd(ts, pos, e).value
    decreases e
  {
    match e
    case Binary(l, op, r) =>
      ExprGrows(ts, pos, l);
      var m := ExprEnd(ts, pos, l);
      if m.Some? {
        ExprGrows(ts, m.value + 1, r);
      }
    case Grouping(x) => ExprGrows(ts, pos + 1, x);
    case Unary(op, x) => ExprGrows(ts, pos + 1, x);
    case Literal(_) =>
    case Variable(_) =>
    case Assign(name, v) => ExprGrows(ts, pos + 2, v);
  }

  /** An expression's text starts with a token that can start an expression. */
  lemma {:induction false} ExprFirst(ts: seq<Token>, pos: nat, e: Expr)
    requires Shaped(e) && ExprEnd(ts, pos, e).Some?
    ensures pos < |ts| && StartsExpression(ts[pos].kind)
  {
    if e.Binary? {
      ExprFirst(ts, pos, e.left);
    }
  }

  /** `expression` parses the text of a well-shaped expression back into
      it, when what follows can continue neither a binary operator chain
      nor an assignment. */
  lemma {:induction false} ExpressionComplete(ts: seq<Token>, pos: nat, e: Expr, n: nat)
    requires EndsWithEof(ts) && pos < |ts|
    requires Shaped(e) && ExprEnd(ts, pos, e) == Some(n) && n < |ts|
    requires !IsBinaryOperator(ts[n].kind) && ts[n].kind != EQUAL
    ensures ParseExpression(ts, pos) == Success(Parsed(e, n))
    decreases Size(e), 10, 0
  {
    if e.Assign? {
      var target := Variable(e.name);
      BinaryComplete(ts, pos, target, pos + 1, 0);
      ExprGrows(ts, pos + 2, e.value);
      ExpressionComplete(ts, pos + 2, e.value, n);
    } else {
      BinaryComplete(ts, pos, e, n, 0);
    }
  }

  /** A binary level parses back an expression binding at least as tightly,
      when what follows is no operator of this level or a tighter one. */
  lemma {:induction false} BinaryComplete(ts: seq<Token>, pos: nat, e: Expr, n: nat, level: Level)
    requires EndsWithEof(ts) && pos < |ts|
    requires Shaped(e) && Prec(e) >= level && ExprEnd(ts, pos, e) == Some(n) && n < |ts|
    requires BinaryLevel(ts[n].kind) < level
    ensures ParseBinary(ts, pos, level) == Success(Parsed(e, n))
    decreases Size(e), 2 * (4 - level) + 1, 0
  {
    var b, ps := Base(e, level), Spine(e, level);
    FoldSpine(e, level);
    FoldPrefix(ts, pos, b, ps, n);
    var m := ExprEnd(ts, pos, b).value;
    OperandComplete(ts, pos, b, m, level);
    RestComplete(ts, pos, b, m, ps, n, level, Size(e));
  }

  /** The operand of a binary level parses back an expression binding more
      tightly than the level. */
  lemma {:induction false} OperandComplete(ts: seq<Token>, pos: nat, e: Expr, n: nat, level: Level)
    requires EndsWithEof(ts) && pos < |ts|
    requires Shaped(e) && Prec(e) > level && ExprEnd(ts, pos, e) == Some(n) && n < |ts|
    requires level < 3 ==> BinaryLevel(ts[n].kind) <= level
    ensures ParseOperand(ts, pos, level) == Success(Parsed(e, n))
    decreases Size(e), 2 * (4 - level), 0
  {
    if level == 3 {
      UnaryComplete(ts, pos, e, n);
    } else {
      BinaryComplete(ts, pos, e, n, level + 1);
    }
  }

  /** The loop of a binary level folds the rest of a chain onto what it has
      read so far. */
  lemma {:induction false} RestComplete(ts: seq<Token>, from: nat, left: Expr, pos: nat, ps: seq<(Token, Expr)>, n: nat, level: Level, bound: nat)
    requires EndsWithEof(ts) && pos < |ts|
    requires Shaped(left) && Prec(left) >= level && ExprEnd(ts, from, left) == Some(pos)
    requires level < 3 ==> BinaryLevel(ts[pos].kind) <= level
    requires forall i | 0 <= i < |ps| ::
               BinaryLevel(ps[i].0.kind) == level && Shaped(ps[i].1) && Prec(ps[i].1) > level && Size(ps[i].1) < bound
    requires ExprEnd(ts, from, Fold(left, ps)) == Some(n) && n < |ts| && BinaryLevel(ts[n].kind) < level
    ensures BinaryRest(ts, from, left, pos, level) == Success(Parsed(Fold(left, ps), n))
    decreases bound, 0, |ps|
  {
    if |ps| > 0 {
      var m := RestNext(ts, from, left, pos, ps, n, level);
      OperandComplete(ts, pos + 1, ps[0].1, m, level);
      RestOnce(ts, from, left, pos, level, Parsed(ps[0].1, m));
      RestComplete(ts, from, Binary(left, ps[0].0, ps[0].1), m, ps[1..], n, level, bound);
    } else {
      FoldPrefix(ts, from, left, ps, n);
    }
  }

  /** Where the first operand of the rest of a chain ends, and what follows it. */
  lemma {:induction false} RestNext(ts: seq<Token>, from: nat, left: Expr, pos: nat, ps: seq<(Token, Expr)>, n: nat, level: Level)
    returns (m: nat)
    requires |ps| > 0 && ExprEnd(ts, from, left) == Some(pos)
    requires |ps| > 1 ==> BinaryLevel(ps[1].0.kind) == level
    requires ExprEnd(ts, from, Fold(left, ps)) == Some(n) && n < |ts| && BinaryLevel(ts[n].kind) < level
    ensures pos + 1 < m < |ts| && ts[pos] == ps[0].0
    ensures ExprEnd(ts, pos + 1, ps[0].1) == Some(m) && BinaryLevel(ts[m].kind) <= level
    ensures ExprEnd(ts, from, Binary(left, ps[0].0, ps[0].1)) == Some(m)
    ensures ExprEnd(ts, from, Fold(Binary(left, ps[0].0, ps[0].1), ps[1..])) == Some(n)
  {
    var next := Binary(left, ps[0].0, ps[0].1);
    FoldPrefix(ts, from, left, ps, n);
    FoldPrefix(ts, from, next, ps[1..], n);
    m := ExprEnd(ts, from, next).value;
    ExprGrows(ts, pos + 1, ps[0].1);
  }

  /** One round of the loop of a binary level: an operator of the level
      and the operand after it join the expression read so far. */
  lemma {:induction false} RestOnce(ts: seq<Token>, from: nat, left: Expr, pos: nat, level: Level, right: Parsed<Expr>)
    requires EndsWithEof(ts) && pos + 1 < |ts|
    requires Shaped(left) && Prec(left) >= level && ExprEnd(ts, from, left) == Some(pos)
    requires BinaryLevel(ts[pos].kind) == level && ParseOperand(ts, pos + 1, level) == Success(right)
    requires ExprEnd(ts, from, Binary(left, ts[pos], right.node)) == Some(right.next)
    ensures BinaryRest(ts, from, left, pos, level) == BinaryRest(ts, from, Binary(left, ts[pos], right.node), right.next, level)
  {
  }

  /** `unary` parses back an atomic expression, whatever follows it. */
  lemma {:induction false} UnaryComplete(ts: seq<Token>, pos: nat, e: Expr, n: nat)
    requires EndsWithEof(ts) && pos < |ts|
    requires Shaped(e) && Prec(e) == 4 && ExprEnd(ts, pos, e) == Some(n) && n < |ts|
    ensures ParseUnary(ts, pos) == Success(Parsed(e, n))
    decreases Size(e), 1, 0
  {
    if e.Unary? {
      ExprGrows(ts, pos + 1, e.right);
      UnaryComplete(ts, pos + 1, e.right, n);
    } else {
      PrimaryComplete(ts, pos, e, n);
    }
  }

  /** `primary` parses back a literal, a variable or a grouping. */
  lemma {:induction false} PrimaryComplete(ts: seq<Token>, pos: nat, e: Expr, n: nat)
    requires EndsWithEof(ts) && pos < |ts|
    requires e.Literal? || e.Variable? || e.Grouping?
    requires Shaped(e) && ExprEnd(ts, pos, e) == Some(n) && n < |ts|
    ensures ParsePrimary(ts, pos) == Success(Parsed(e, n))
    decreases Size(e), 0, 0
  {
    if e.Grouping? {
      var m := n - 1;
      ExprGrows(ts, pos + 1, e.inner);
      ExpressionComplete(ts, pos + 1, e.inner, m);
    } else if e.Literal? {
      assert TokenValue(ts[pos]) == e.constant;
    }
  }

  /** `ExpressionComplete` for every expression read from `pos` up to a
      token that continues neither an operator chain nor an assignment. */
  lemma {:induction false} ExpressionCompleteAt(ts: seq<Token>, pos: nat)
    requires EndsWithEof(ts) && pos < |ts|
    ensures forall e {:trigger ExprRead(ts, pos, e)} | ExprRead(ts, pos, e).Some? && ExprRead(ts, pos, e).value < |ts| ::
              var n := ExprRead(ts, pos, e).value;
              !IsBinaryOperator(ts[n].kind) && ts[n].kind != EQUAL ==> ParseExpression(ts, pos) == Success(Parsed(e, n))
  {
    forall e | ExprRead(ts, pos, e).Some? && ExprRead(ts, pos, e).value < |ts|
      ensures var n := ExprRead(ts, pos, e).value;
              !IsBinaryOperator(ts[n].kind) && ts[n].kind != EQUAL ==> ParseExpression(ts, pos) == Success(Parsed(e, n))
    {
      var n := ExprRead(ts, pos, e).value;
      if !IsBinaryOperator(ts[n].kind) && ts[n].kind != EQUAL {
        ExpressionComplete(ts, pos, e, n);
      }
    }
  }

  /** An expression read from `pos` and followed by `;` is what
      `expression` returns there, and the `;` after it is consumed. */
  lemma {:induction false} ExpressionBeforeSemicolon(ts: seq<Token>, pos: nat)
    requires EndsWithEof(ts) && pos < |ts|
    ensures forall e {:trigger ExprRead(ts, pos, e)} | Close(ts, ExprRead(ts, pos, e), SEMICOLON).Some? ::
              var n := ExprRead(ts, pos, e).value;
              ParseExpression(ts, pos) == Success(Parsed(e, n)) && Consume(ts, n, SEMICOLON) == Success(n + 1)
  {
    forall e | Close(ts, ExprRead(ts, pos, e), SEMICOLON).Some?
      ensures var n := ExprRead(ts, pos, e).value;
              ParseExpression(ts, pos) == Success(Parsed(e, n)) && Consume(ts, n, SEMICOLON) == Success(n + 1)
    {
      var n := ExprRead(ts, pos, e).value;
      ExpressionComplete(ts, pos, e, n);
    }
  }


  // ---------------------------------------------------------------------------
  // Statements
  //
  // Besides what its result reads as, every statement rule states the
  // converse: for a text that reads as a statement `s` from the rule's
  // position up to a token, the rule returns `s` and the end of that text.

  /** `declaration`: a variable declaration or a statement. */
  function ParseDeclaration(ts: seq<Token>, pos: nat): (r: Result<Parsed<Stmt>, Error>)
    requires EndsWithEof(ts) && pos < |ts|
    ensures r.Success? ==> StatementRead(ts, pos, r.value)
    ensures r.Success? ==> (r.value.node.Var? <==> ts[pos].kind == VAR)
    ensures forall s {:trigger ReadEnd(ts, pos, s)} | ReadEnd(ts, pos, s).Some? ::
              r == Success(Parsed(s, ReadEnd(ts, pos, s).value))
    decreases |ts| - pos, 15
  {
    ReadOpensAt(ts, pos);
    if ts[pos].kind == VAR then ParseVarDecl(ts, pos + 1) else ParseStatement(ts, pos)
  }

  /** `varDecl`, after `var`: a name, an initializer iff `=` follows the
      name, and `;`. */
  function ParseVarDecl(ts: seq<Token>, pos: nat): (r: Result<Parsed<Stmt>, Error>)
    requires EndsWithEof(ts) && 0 < pos < |ts| && ts[pos - 1].kind == VAR
    ensures r.Success? ==> StatementRead(ts, pos - 1, r.value)
    ensures r.Success? ==>
              && r.value.node.Var? && r.value.node.name == ts[pos]
              && (r.value.node.initializer.Some? <==> ts[pos + 1].kind == EQUAL)
    ensures forall s {:trigger ReadEnd(ts, pos - 1, s)} | ReadEnd(ts, pos - 1, s).Some? ::
              r == Success(Parsed(s, ReadEnd(ts, pos - 1, s).value))
    decreases |ts| - pos, 12
  {
    ReadOpensAt(ts, pos - 1);
    var afterName :- Consume(ts, pos, IDENTIFIER);
    var init := ParseInitializer(ts, afterName);
    VarDeclResult(ts, pos - 1, afterName, init);
    VarOfParts(ts, pos - 1, init)
  }

  /** The end of `varDecl` once the initializer is read: the declaration of
      the name after the `var` at `start`, if `;` follows, or the first
      error. */
  function VarOfParts(ts: seq<Token>, start: nat, ri: Result<Parsed<Option<Expr>>, Error>): Result<Parsed<Stmt>, Error>
    requires EndsWithEof(ts) && start + 1 < |ts| && (ri.Success? ==> ri.value.next < |ts|)
  {
    var init :- ri;
    var end :- Consume(ts, init.next, SEMICOLON);
    Success(Parsed(Var(ts[start + 1], init.node), end))
  }

  /** `ParseVarDecl`'s contract for the `var` at `start`, from the contract
      of the initializer rule at `at`, after the name (`ri`). */
  lemma {:induction false} VarDeclResult(ts: seq<Token>, start: nat, at: nat, ri: Result<Parsed<Option<Expr>>, Error>)
    requires EndsWithEof(ts) && at == start + 2 && at < |ts|
    requires ts[start].kind == VAR && ts[start + 1].kind == IDENTIFIER
    requires ri.Success? ==> (ri.value.node.Some? <==> ts[at].kind == EQUAL)
    requires ri.Success? && ri.value.node.None? ==> ri.value.next == at
    requires ri.Success? && ri.value.node.Some? ==>
               at + 1 < ri.value.next < |ts| && ExprRead(ts, at + 1, ri.value.node.value) == Some(ri.value.next)
    requires ts[at].kind != EQUAL ==> ri.Success?
    requires ts[at].kind == EQUAL ==>
               forall e {:trigger ExprRead(ts, at + 1, e)} | ExprRead(ts, at + 1, e).Some? && ExprRead(ts, at + 1, e).value < |ts| ::
                 var n := ExprRead(ts, at + 1, e).value;
                 ts[n].kind == SEMICOLON ==> ri == Success(Parsed(Some(e), n))
    ensures var r := VarOfParts(ts, start, ri);
            r.Success? ==> StatementRead(ts, start, r.value)
    ensures var r := VarOfParts(ts, start, ri);
            r.Success? ==>
              && r.value.node.Var? && r.value.node.name == ts[start + 1]
              && (r.value.node.initializer.Some? <==> ts[at].kind == EQUAL)
    ensures forall s {:trigger ReadEnd(ts, start, s)} | ReadEnd(ts, start, s).Some? ::
              VarOfParts(ts, start, ri) == Success(Parsed(s, ReadEnd(ts, start, s).value))
  {
    VarDeclSound(ts, start, at, ri);
    ReadOpensAt(ts, start);
    forall s | ReadEnd(ts, start, s).Some?
      ensures VarOfParts(ts, start, ri) == Success(Parsed(s, ReadEnd(ts, start, s).value))
    {
      VarDeclComplete(ts, start, at, ri, s);
    }
  }

  /** A declaration `varDecl` returns is read from the `var` at `start`. */
  lemma {:induction false} VarDeclSound(ts: seq<Token>, start: nat, at: nat, ri: Result<Parsed<Option<Expr>>, Error>)
    requires EndsWithEof(ts) && at == start + 2 && at < |ts|
    requires ts[start].kind == VAR && ts[start + 1].kind == IDENTIFIER
    requires ri.Success? ==> (ri.value.node.Some? <==> ts[at].kind == EQUAL)
    requires ri.Success? && ri.value.node.None? ==> ri.value.next == at
    requires ri.Success? && ri.value.node.Some? ==>
               at + 1 < ri.value.next < |ts| && ExprRead(ts, at + 1, ri.value.node.value) == Some(ri.value.next)
    ensures var r := VarOfParts(ts, start, ri);
            r.Success? ==> StatementRead(ts, start, r.value)
    ensures var r := VarOfParts(ts, start, ri);
            r.Success? ==>
              && r.value.node.Var? && r.value.node.name == ts[start + 1]
              && (r.value.node.initializer.Some? <==> ts[at].kind == EQUAL)
  {
  }

  /** A declaration read from the `var` at `start` is what `varDecl` returns. */
  lemma {:induction false} VarDeclComplete(ts: seq<Token>, start: nat, at: nat, ri: Result<Parsed<Option<Expr>>, Error>, s: Stmt)
    requires EndsWithEof(ts) && at == start + 2 && at < |ts| && ts[start + 1].kind == IDENTIFIER
    requires ts[at].kind != EQUAL ==> ri.Success?
    requires ri.Success? ==> (ri.value.node.Some? <==> ts[at].kind == EQUAL)
    requires ri.Success? && ri.value.node.None? ==> ri.value.next == at
    requires ri.Success? && ri.value.node.Some? ==> ri.value.next < |ts|
    requires ts[at].kind == EQUAL ==>
               forall e {:trigger ExprRead(ts, at + 1, e)} | ExprRead(ts, at + 1, e).Some? && ExprRead(ts, at + 1, e).value < |ts| ::
                 var n := ExprRead(ts, at + 1, e).value;
                 ts[n].kind == SEMICOLON ==> ri == Success(Parsed(Some(e), n))
    requires s.Var? && ReadEnd(ts, start, s).Some?
    ensures VarOfParts(ts, start, ri) == Success(Parsed(s, ReadEnd(ts, start, s).value))
  {
    if s.initializer.Some? {
      var n := ExprRead(ts, at + 1, s.initializer.value).value;
      assert ri == Success(Parsed(s.initializer, n));
    }
  }

  /** The optional initializer of `varDecl`: an expression iff `=` comes
      next, read after the `=`. */
  function ParseInitializer(ts: seq<Token>, pos: nat): (r: Result<Parsed<Option<Expr>>, Error>)
    requires EndsWithEof(ts) && pos < |ts|
    ensures r.Success? ==> (r.value.node.Some? <==> ts[pos].kind == EQUAL)
    ensures r.Success? && r.value.node.None? ==> r.value.next == pos
    ensures r.Success? && r.value.node.Some? ==>
              pos + 1 < r.value.next < |ts| && ExprRead(ts, pos + 1, r.value.node.value) == Some(r.value.next)
    ensures ts[pos].kind != EQUAL ==> r.Success?
    ensures ts[pos].kind == EQUAL ==>
              forall e {:trigger ExprRead(ts, pos + 1, e)} | ExprRead(ts, pos + 1, e).Some? && ExprRead(ts, pos + 1, e).value < |ts| ::
                var n := ExprRead(ts, pos + 1, e).value;
                ts[n].kind == SEMICOLON ==> r == Success(Parsed(Some(e), n))
  {
    if ts[pos].kind == EQUAL then
      ExpressionCompleteAt(ts, pos + 1);
      var value :- ParseExpression(ts, pos + 1);
      Success(Parsed(Some(value.node), value.next))
    else
      Success(Parsed(None, pos))
  }

  /** `statement`: `if`, `print`, a block, or an expression statement. A `var`
      here is not a statement, so it fails as the start of an expression. */
  function ParseStatement(ts: seq<Token>, pos: nat): (r: Result<Parsed<Stmt>, Error>)
    requires EndsWithEof(ts) && pos < |ts|
    ensures r.Success? ==> StatementRead(ts, pos, r.value)
    ensures r.Success? ==> !r.value.node.Var? && ts[pos].kind != VAR
    ensures forall s: Stmt {:trigger ReadEnd(ts, pos, s)} | !s.Var? && ReadEnd(ts, pos, s).Some? ::
              r == Success(Parsed(s, ReadEnd(ts, pos, s).value))
    decreases |ts| - pos, 14
  {
    ReadOpensAt(ts, pos);
    if ts[pos].kind == IF then
      ParseIf(ts, pos + 1)
    else if ts[pos].kind == PRINT then
      ParsePrintStatement(ts, pos + 1)
    else if ts[pos].kind == LEFT_BRACE then
      var body :- ParseBlock(ts, pos + 1);
      Success(Parsed(Block(body.node), body.next))
    else
      ParseExpressionStatement(ts, pos)
  }

  /** `printStatement`, after `print`: an expression and `;`. */
  function ParsePrintStatement(ts: seq<Token>, pos: nat): (r: Result<Parsed<Stmt>, Error>)
    requires EndsWithEof(ts) && 0 < pos < |ts| && ts[pos - 1].kind == PRINT
    ensures r.Success? ==> StatementRead(ts, pos - 1, r.value) && r.value.node.Print?
    ensures forall s {:trigger ReadEnd(ts, pos - 1, s)} | ReadEnd(ts, pos - 1, s).Some? ::
              r == Success(Parsed(s, ReadEnd(ts, pos - 1, s).value))
    decreases |ts| - pos, 12
  {
    var value := ParseExpression(ts, pos);
    ExpressionBeforeSemicolon(ts, pos);
    PrintResult(ts, pos - 1, pos, value);
    TerminatedOfParts(ts, value, true)
  }

  /** The end of `printStatement` (`isPrint`) and `expressionStatement` (not
      `isPrint`) once the expression is read: the statement, if `;` follows,
      or the first error. */
  function TerminatedOfParts(ts: seq<Token>, re: Result<Parsed<Expr>, Error>, isPrint: bool): Result<Parsed<Stmt>, Error>
    requires EndsWithEof(ts) && (re.Success? ==> re.value.next < |ts|)
  {
    var value :- re;
    var end :- Consume(ts, value.next, SEMICOLON);
    Success(Parsed(if isPrint then Print(value.node) else Expression(value.node), end))
  }

  /** `ParsePrintStatement`'s contract for the `print` at `start`, from the
      contract of the expression rule at `at`, after it (`re`). */
  lemma {:induction false} PrintResult(ts: seq<Token>, start: nat, at: nat, re: Result<Parsed<Expr>, Error>)
    requires EndsWithEof(ts) && at == start + 1 && at < |ts| && ts[start].kind == PRINT
    requires re.Success? ==> at < re.value.next < |ts| && ExprRead(ts, at, re.value.node) == Some(re.value.next)
    requires forall e {:trigger ExprRead(ts, at, e)} | Close(ts, ExprRead(ts, at, e), SEMICOLON).Some? ::
               var n := ExprRead(ts, at, e).value;
               re == Success(Parsed(e, n)) && Consume(ts, n, SEMICOLON) == Success(n + 1)
    ensures var r := TerminatedOfParts(ts, re, true);
            r.Success? ==> StatementRead(ts, start, r.value) && r.value.node.Print?
    ensures forall s {:trigger ReadEnd(ts, start, s)} | ReadEnd(ts, start, s).Some? ::
              TerminatedOfParts(ts, re, true) == Success(Parsed(s, ReadEnd(ts, start, s).value))
  {
    ReadOpensAt(ts, start);
  }

  /** `expressionStatement`: an expression and `;`. */
  function ParseExpressionStatement(ts: seq<Token>, pos: nat): (r: Result<Parsed<Stmt>, Error>)
    requires EndsWithEof(ts) && pos < |ts|
    ensures r.Success? ==> StatementRead(ts, pos, r.value) && r.value.node.Expression?
    ensures r.Success? ==> StartsExpression(ts[pos].kind)
    ensures forall s: Stmt {:trigger ReadEnd(ts, pos, s)} | s.Expression? && ReadEnd(ts, pos, s).Some? ::
              r == Success(Parsed(s, ReadEnd(ts, pos, s).value))
    decreases |ts| - pos, 12
  {
    var value := ParseExpression(ts, pos);
    ExpressionBeforeSemicolon(ts, pos);
    ExpressionStatementResult(ts, pos, value);
    TerminatedOfParts(ts, value, false)
  }

  /** `ParseExpressionStatement`'s contract at `pos`, from the contract of
      the expression rule there (`re`). */
  lemma {:induction false} ExpressionStatementResult(ts: seq<Token>, pos: nat, re: Result<Parsed<Expr>, Error>)
    requires EndsWithEof(ts) && pos < |ts|
    requires re.Success? ==> pos < re.value.next < |ts| && ExprRead(ts, pos, re.value.node) == Some(re.value.next)
    requires re.Success? ==> StartsExpression(ts[pos].kind)
    requires forall e {:trigger ExprRead(ts, pos, e)} | Close(ts, ExprRead(ts, pos, e), SEMICOLON).Some? ::
               var n := ExprRead(ts, pos, e).value;
               re == Success(Parsed(e, n)) && Consume(ts, n, SEMICOLON) == Success(n + 1)
    ensures var r := TerminatedOfParts(ts, re, false);
            r.Success? ==> StatementRead(ts, pos, r.value) && r.value.node.Expression?
    ensures TerminatedOfParts(ts, re, false).Success? ==> StartsExpression(ts[pos].kind)
    ensures forall s: Stmt {:trigger ReadEnd(ts, pos, s)} | s.Expression? && ReadEnd(ts, pos, s).Some? ::
              TerminatedOfParts(ts, re, false) == Success(Parsed(s, ReadEnd(ts, pos, s).value))
  {
  }

  /** `ifStatement`, after `if`: `( condition )`, a then-branch, and an
      else-branch iff `else` follows the then-branch. */
  function ParseIf(ts: seq<Token>, pos: nat): (r: Result<Parsed<Stmt>, Error>)
    requires EndsWithEof(ts) && 0 < pos < |ts| && ts[pos - 1].kind == IF
    ensures r.Success? ==> StatementRead(ts, pos - 1, r.value) && r.value.node.If?
    ensures forall s {:trigger ReadEnd(ts, pos - 1, s)} | ReadEnd(ts, pos - 1, s).Some? ::
              r == Success(Parsed(s, ReadEnd(ts, pos - 1, s).value))
    decreases |ts| - pos, 13
  {
    IfOpens(ts, pos - 1);
    var afterParen :- Consume(ts, pos, LEFT_PAREN);
    ExpressionCompleteAt(ts, afterParen);
    IfConditionRead(ts, pos - 1, ParseExpression(ts, afterParen));
    var cond :- ParseExpression(ts, afterParen);
    var afterCond :- Consume(ts, cond.next, RIGHT_PAREN);
    ParseIfBranches(ts, pos - 1, cond.node, afterCond)
  }

  /** The rest of `ifStatement` once `if ( condition )` is read from
      `start` up to `pos`: a then-branch, and an else-branch iff `else`
      follows the then-branch. */
  function ParseIfBranches(ts: seq<Token>, start: nat, cond: Expr, pos: nat): (r: Result<Parsed<Stmt>, Error>)
    requires EndsWithEof(ts) && start + 3 < pos < |ts| && ts[start].kind == IF && ts[start + 1].kind == LEFT_PAREN
    requires ExprRead(ts, start + 2, cond) == Some(pos - 1) && ts[pos - 1].kind == RIGHT_PAREN
    requires forall s {:trigger ReadEnd(ts, start, s)} | ReadEnd(ts, start, s).Some? :: s.If? && s.cond == cond
    ensures r.Success? ==> StatementRead(ts, start, r.value) && r.value.node.If? && r.value.node.cond == cond
    ensures forall s {:trigger ReadEnd(ts, start, s)} | ReadEnd(ts, start, s).Some? ::
              r == Success(Parsed(s, ReadEnd(ts, start, s).value))
    decreases |ts| - pos, 15
  {
    var thenBranch := ParseStatement(ts, pos);
    var elseBranch := if thenBranch.Success? then ParseElse(ts, thenBranch.value.next) else Failure(ParseError);
    IfBranchesResult(ts, start, cond, pos, thenBranch, elseBranch);
    IfOfParts(cond, thenBranch, elseBranch)
  }

  /** The `if` with condition `cond` and the branches `rt` and `re` return,
      or the first error among them. */
  function IfOfParts(cond: Expr, rt: Result<Parsed<Stmt>, Error>, re: Result<Parsed<Option<Stmt>>, Error>): Result<Parsed<Stmt>, Error>
  {
    if rt.Failure? then Failure(rt.error)
    else if re.Failure? then Failure(re.error)
    else Success(Parsed(If(cond, rt.value.node, re.value.node), re.value.next))
  }

  /** The optional else-branch of `ifStatement`: a statement iff `else`
      comes next, read after the `else`. */
  function ParseElse(ts: seq<Token>, pos: nat): (r: Result<Parsed<Option<Stmt>>, Error>)
    requires EndsWithEof(ts) && pos < |ts|
    ensures r.Success? ==> (r.value.node.Some? <==> ts[pos].kind == ELSE)
    ensures r.Success? && r.value.node.None? ==> r.value.next == pos
    ensures r.Success? && r.value.node.Some? ==>
              StatementRead(ts, pos + 1, Parsed(r.value.node.value, r.value.next)) && !r.value.node.value.Var?
    ensures ts[pos].kind != ELSE ==> r.Success?
    ensures ts[pos].kind == ELSE ==>
              forall s: Stmt {:trigger ReadEnd(ts, pos + 1, s)} | !s.Var? && ReadEnd(ts, pos + 1, s).Some? ::
                r == Success(Parsed(Some(s), ReadEnd(ts, pos + 1, s).value))
    decreases |ts| - pos, 13
  {
    if ts[pos].kind == ELSE then
      var elseBranch :- ParseStatement(ts, pos + 1);
      Success(Parsed(Some(elseBranch.node), elseBranch.next))
    else
      Success(Parsed(None, pos))
  }

  /** `block`, after `{`: declarations read up to the closing `}`, which must
      come before `EOF`. */
  function ParseBlock(ts: seq<Token>, pos: nat): (r: Result<Parsed<seq<Stmt>>, Error>)
    requires EndsWithEof(ts) && pos < |ts|
    ensures r.Success? ==> pos < r.value.next && Within(ts, pos, r.value.next)
    ensures r.Success? ==> Close(ts, ReadsEnd(ts, pos, r.value.node), RIGHT_BRACE) == Some(r.value.next)
    ensures forall ss {:trigger ReadsEnd(ts, pos, ss)} | ReadsEnd(ts, pos, ss).Some? && ReadsEnd(ts, pos, ss).value < |ts| ::
              var m := ReadsEnd(ts, pos, ss).value;
              ts[m].kind == RIGHT_BRACE ==> r == Success(Parsed(ss, m + 1))
    decreases |ts| - pos, 17
  {
    if ts[pos].kind == RIGHT_BRACE then
      NothingOpensAt(ts, pos);
      Success(Parsed([], pos + 1))
    else if ts[pos].kind == EOF then
      NothingOpensAt(ts, pos);
      Failure(ParseError)
    else
      BlockItems(ts, pos)
  }

  /** One turn of the block loop, at a token that is neither `}` nor `EOF`:
      a declaration, then the rest of the block. */
  function BlockItems(ts: seq<Token>, pos: nat): (r: Result<Parsed<seq<Stmt>>, Error>)
    requires EndsWithEof(ts) && pos < |ts| && ts[pos].kind != RIGHT_BRACE && ts[pos].kind != EOF
    ensures r.Success? ==> pos < r.value.next && Within(ts, pos, r.value.next)
    ensures r.Success? ==> Close(ts, ReadsEnd(ts, pos, r.value.node), RIGHT_BRACE) == Some(r.value.next)
    ensures forall ss {:trigger ReadsEnd(ts, pos, ss)} | ReadsEnd(ts, pos, ss).Some? && ReadsEnd(ts, pos, ss).value < |ts| ::
              var m := ReadsEnd(ts, pos, ss).value;
              ts[m].kind == RIGHT_BRACE ==> r == Success(Parsed(ss, m + 1))
    decreases |ts| - pos, 16
  {
    var first := ParseDeclaration(ts, pos);
    var rest := if first.Success? then ParseBlock(ts, first.value.next) else Failure(ParseError);
    BlockResult(ts, pos, first, rest);
    ConsOfParts(first, rest)
  }

  /** `BlockItems`' contract, from the contracts of `declaration` at `pos`
      (`rf`) and of the rest of the block after it (`rr`). */
  lemma {:induction false} BlockResult(ts: seq<Token>, pos: nat,
                                       rf: Result<Parsed<Stmt>, Error>, rr: Result<Parsed<seq<Stmt>>, Error>)
    requires pos < |ts| && ts[pos].kind != RIGHT_BRACE
    requires rf.Success? ==> StatementRead(ts, pos, rf.value)
    requires forall s {:trigger ReadEnd(ts, pos, s)} | ReadEnd(ts, pos, s).Some? ::
               rf == Success(Parsed(s, ReadEnd(ts, pos, s).value))
    requires rf.Success? && rr.Success? ==>
               rf.value.next < rr.value.next && Within(ts, rf.value.next, rr.value.next) &&
               Close(ts, ReadsEnd(ts, rf.value.next, rr.value.node), RIGHT_BRACE) == Some(rr.value.next)
    requires rf.Success? ==>
               forall ss {:trigger ReadsEnd(ts, rf.value.next, ss)} |
                   ReadsEnd(ts, rf.value.next, ss).Some? && ReadsEnd(ts, rf.value.next, ss).value < |ts| ::
                 var m := ReadsEnd(ts, rf.value.next, ss).value;
                 ts[m].kind == RIGHT_BRACE ==> rr == Success(Parsed(ss, m + 1))
    ensures var r := ConsOfParts(rf, rr);
            r.Success? ==> pos < r.value.next && Within(ts, pos, r.value.next)
    ensures var r := ConsOfParts(rf, rr);
            r.Success? ==> Close(ts, ReadsEnd(ts, pos, r.value.node), RIGHT_BRACE) == Some(r.value.next)
    ensures forall ss {:trigger ReadsEnd(ts, pos, ss)} | ReadsEnd(ts, pos, ss).Some? && ReadsEnd(ts, pos, ss).value < |ts| ::
              var m := ReadsEnd(ts, pos, ss).value;
              ts[m].kind == RIGHT_BRACE ==> ConsOfParts(rf, rr) == Success(Parsed(ss, m + 1))
  {
    ListResult(ts, pos, RIGHT_BRACE, 1, rf, rr);
  }

  /** The loop of `parse`: declarations read until the cursor reaches `EOF`. */
  function ParseDeclarations(ts: seq<Token>, pos: nat): (r: Result<Parsed<seq<Stmt>>, Error>)
    requires EndsWithEof(ts) && pos < |ts|
    ensures r.Success? ==> Within(ts, pos, r.value.next) && AtEnd(ts, r.value.next)
    ensures r.Success? ==> ReadsEnd(ts, pos, r.value.node) == Some(r.value.next)
    ensures forall ss {:trigger ReadsEnd(ts, pos, ss)} | ReadsEnd(ts, pos, ss).Some? && ReadsEnd(ts, pos, ss).value < |ts| ::
              var m := ReadsEnd(ts, pos, ss).value;
              ts[m].kind == EOF ==> r == Success(Parsed(ss, m))
    decreases |ts| - pos, 1
  {
    if AtEnd(ts, pos) then
      NothingOpensAt(ts, pos);
      Success(Parsed([], pos))
    else
      DeclarationItems(ts, pos)
  }

  /** One turn of the loop of `parse`, before `EOF`: a declaration, then the
      rest of the program. */
  function DeclarationItems(ts: seq<Token>, pos: nat): (r: Result<Parsed<seq<Stmt>>, Error>)
    requires EndsWithEof(ts) && pos < |ts| && ts[pos].kind != EOF
    ensures r.Success? ==> Within(ts, pos, r.value.next) && AtEnd(ts, r.value.next)
    ensures r.Success? ==> ReadsEnd(ts, pos, r.value.node) == Some(r.value.next)
    ensures forall ss {:trigger ReadsEnd(ts, pos, ss)} | ReadsEnd(ts, pos, ss).Some? && ReadsEnd(ts, pos, ss).value < |ts| ::
              var m := ReadsEnd(ts, pos, ss).value;
              ts[m].kind == EOF ==> r == Success(Parsed(ss, m))
    decreases |ts| - pos, 0
  {
    var first := ParseDeclaration(ts, pos);
    var rest := if first.Success? then ParseDeclarations(ts, first.value.next) else Failure(ParseError);
    DeclarationsResult(ts, pos, first, rest);
    ConsOfParts(first, rest)
  }

  /** `DeclarationItems`' contract, from the contracts of `declaration` at
      `pos` (`rf`) and of the rest of the program after it (`rr`). */
  lemma {:induction false} DeclarationsResult(ts: seq<Token>, pos: nat,
                                              rf: Result<Parsed<Stmt>, Error>, rr: Result<Parsed<seq<Stmt>>, Error>)
    requires pos < |ts| && ts[pos].kind != EOF
    requires rf.Success? ==> StatementRead(ts, pos, rf.value)
    requires forall s {:trigger ReadEnd(ts, pos, s)} | ReadEnd(ts, pos, s).Some? ::
               rf == Success(Parsed(s, ReadEnd(ts, pos, s).value))
    requires rf.Success? && rr.Success? ==>
               Within(ts, rf.value.next, rr.value.next) && AtEnd(ts, rr.value.next) &&
               ReadsEnd(ts, rf.value.next, rr.value.node) == Some(rr.value.next)
    requires rf.Success? ==>
               forall ss {:trigger ReadsEnd(ts, rf.value.next, ss)} |
                   ReadsEnd(ts, rf.value.next, ss).Some? && ReadsEnd(ts, rf.value.next, ss).value < |ts| ::
                 var m := ReadsEnd(ts, rf.value.next, ss).value;
                 ts[m].kind == EOF ==> rr == Success(Parsed(ss, m))
    ensures var r := ConsOfParts(rf, rr);
            r.Success? ==> Within(ts, pos, r.value.next) && AtEnd(ts, r.value.next)
    ensures var r := ConsOfParts(rf, rr);
            r.Success? ==> ReadsEnd(ts, pos, r.value.node) == Some(r.value.next)
    ensures forall ss {:trigger ReadsEnd(ts, pos, ss)} | ReadsEnd(ts, pos, ss).Some? && ReadsEnd(ts, pos, ss).value < |ts| ::
              var m := ReadsEnd(ts, pos, ss).value;
              ts[m].kind == EOF ==> ConsOfParts(rf, rr) == Success(Parsed(ss, m))
  {
    ListResult(ts, pos, EOF, 0, rf, rr);
  }

  /** A declaration followed by the rest of a list, or the first error
      among them. */
  function ConsOfParts(rf: Result<Parsed<Stmt>, Error>, rr: Result<Parsed<seq<Stmt>>, Error>): Result<Parsed<seq<Stmt>>, Error>
  {
    if rf.Failure? then Failure(rf.error)
    else if rr.Failure? then Failure(rr.error)
    else Success(Parsed([rf.value.node] + rr.value.node, rr.value.next))
  }

  /** The list rules' contracts at a token that does not end the list:
      given what `declaration` returns at `pos` (`rf`) and what the rest of
      the list returns after it (`rr`), each described by its own contract,
      the list read is the declaration read followed by the rest, and every
      list read up to a `stop` token is the one returned, its end moved by
      `shift` (past the `}` of a block). */
  lemma {:induction false} ListResult(ts: seq<Token>, pos: nat, stop: TokenType, shift: nat,
                                      rf: Result<Parsed<Stmt>, Error>, rr: Result<Parsed<seq<Stmt>>, Error>)
    requires pos < |ts| && ts[pos].kind != stop
    requires rf.Success? ==> ReadEnd(ts, pos, rf.value.node) == Some(rf.value.next)
    requires forall s {:trigger ReadEnd(ts, pos, s)} | ReadEnd(ts, pos, s).Some? ::
               rf == Success(Parsed(s, ReadEnd(ts, pos, s).value))
    requires rf.Success? ==>
               forall ss {:trigger ReadsEnd(ts, rf.value.next, ss)} |
                   ReadsEnd(ts, rf.value.next, ss).Some? && ReadsEnd(ts, rf.value.next, ss).value < |ts| ::
                 var m := ReadsEnd(ts, rf.value.next, ss).value;
                 ts[m].kind == stop ==> rr == Success(Parsed(ss, m + shift))
    ensures ConsOfParts(rf, rr).Success? ==>
              ReadsEnd(ts, pos, ConsOfParts(rf, rr).value.node) == ReadsEnd(ts, rf.value.next, rr.value.node)
    ensures forall ss {:trigger ReadsEnd(ts, pos, ss)} | ReadsEnd(ts, pos, ss).Some? && ReadsEnd(ts, pos, ss).value < |ts| ::
              var m := ReadsEnd(ts, pos, ss).value;
              ts[m].kind == stop ==> ConsOfParts(rf, rr) == Success(Parsed(ss, m + shift))
  {
    if rf.Success? && rr.Success? {
      ReadsCons(ts, pos, rf.value.node, rf.value.next, rr.value.node);
    }
    forall ss | ReadsEnd(ts, pos, ss).Some? && ReadsEnd(ts, pos, ss).value < |ts| && ts[ReadsEnd(ts, pos, ss).value].kind == stop
      ensures ConsOfParts(rf, rr) == Success(Parsed(ss, ReadsEnd(ts, pos, ss).value + shift))
    {
      assert |ss| > 0;
      var m1 := ReadEnd(ts, pos, ss[0]).value;
      assert rf == Success(Parsed(ss[0], m1));
      assert ReadsEnd(ts, m1, ss[1..]) == ReadsEnd(ts, pos, ss);
      assert [ss[0]] + ss[1..] == ss;
    }
  }

  /** `parse`: the top-level declarations in source order, read from the
      first token up to an `EOF`; so they are well-formed and their texts,
      one after the other, run up to that `EOF`, which is the last token
      when no other `EOF` comes before it. Conversely, declarations read
      from the first token up to an `EOF` are what it returns. */
  function Parse(ts: seq<Token>): (r: Result<seq<Stmt>, Error>)
    requires EndsWithEof(ts)
    ensures r.Success? ==>
              var end := ReadsEnd(ts, 0, r.value);
              end.Some? && end.value < |ts| && ts[end.value].kind == EOF
    ensures r.Success? ==> AllWellFormed(r.value)
    ensures r.Success? ==> StmtsEnd(ts, 0, r.value) == ReadsEnd(ts, 0, r.value)
    ensures r.Success? && (forall i | 0 <= i < |ts| - 1 :: ts[i].kind != EOF) ==>
              StmtsEnd(ts, 0, r.value) == Some(|ts| - 1)
    ensures forall ss {:trigger ReadsEnd(ts, 0, ss)} | ReadsEnd(ts, 0, ss).Some? && ReadsEnd(ts, 0, ss).value < |ts| ::
              ts[ReadsEnd(ts, 0, ss).value].kind == EOF ==> r == Success(ss)
  {
    var program :- ParseDeclarations(ts, 0);
    ReadsSound(ts, 0, program.node);
    Success(program.node)
  }

  /** The token a statement of each kind starts with. */
  predicate Opens(k: TokenType, s: Stmt)
  {
    match s
    case Expression(_) => StartsExpression(k)
    case Print(_) => k == PRINT
    case Var(_, _) => k == VAR
    case Block(_) => k == LEFT_BRACE
    case If(_, _, _) => k == IF
  }

  /** A statement read from `p` starts on a token, the one its kind starts with. */
  lemma {:induction false} ReadOpensAt(ts: seq<Token>, p: nat)
    ensures forall s {:trigger ReadEnd(ts, p, s)} | ReadEnd(ts, p, s).Some? :: p < |ts| && Opens(ts[p].kind, s)
  {
    forall s | ReadEnd(ts, p, s).Some? ensures p < |ts| && Opens(ts[p].kind, s) {
      if s.Expression? {
        ExprFirst(ts, p, s.expr);
      }
    }
  }

  /** No statement starts on a `}` or on `EOF`, so the only list read from
      one is the empty list, which ends where it starts. */
  lemma {:induction false} NothingOpensAt(ts: seq<Token>, pos: nat)
    requires pos < |ts| && (ts[pos].kind == RIGHT_BRACE || ts[pos].kind == EOF)
    ensures forall ss {:trigger ReadsEnd(ts, pos, ss)} | ReadsEnd(ts, pos, ss).Some? :: ss == [] && ReadsEnd(ts, pos, ss) == Some(pos)
  {
    ReadOpensAt(ts, pos);
  }

  /** The parts of an `if` read from `start`: the condition up to the `)`
      before `j`, the then-branch from `j` to `k`, and, iff `else` is at `k`,
      the else-branch after it. */
  lemma {:induction false} IfOf(ts: seq<Token>, start: nat, s: Stmt) returns (j: nat, k: nat)
    requires start < |ts| && ts[start].kind == IF && ReadEnd(ts, start, s).Some?
    ensures s.If? && start + 3 < j && k < |ts| && ts[start + 1].kind == LEFT_PAREN
    ensures ExprRead(ts, start + 2, s.cond) == Some(j - 1) && ts[j - 1].kind == RIGHT_PAREN
    ensures ReadEnd(ts, j, s.thenBranch) == Some(k) && !s.thenBranch.Var?
    ensures s.elseBranch.None? <==> ts[k].kind != ELSE
    ensures s.elseBranch.None? ==> ReadEnd(ts, start, s) == Some(k)
    ensures s.elseBranch.Some? ==>
              !s.elseBranch.value.Var? && ReadEnd(ts, k + 1, s.elseBranch.value) == ReadEnd(ts, start, s)
  {
    if s.Expression? {
      ExprFirst(ts, start, s.expr);
    }
    j := Close(ts, ExprRead(ts, start + 2, s.cond), RIGHT_PAREN).value;
    k := ReadEnd(ts, j, s.thenBranch).value;
    ExprGrows(ts, start + 2, s.cond);
  }

  /** A text read as a statement from an `if` is an `if`, and `(` follows. */
  lemma {:induction false} IfOpens(ts: seq<Token>, start: nat)
    requires start < |ts| && ts[start].kind == IF
    ensures forall s {:trigger ReadEnd(ts, start, s)} | ReadEnd(ts, start, s).Some? ::
              s.If? && start + 1 < |ts| && ts[start + 1].kind == LEFT_PAREN
  {
    forall s | ReadEnd(ts, start, s).Some?
      ensures s.If? && start + 1 < |ts| && ts[start + 1].kind == LEFT_PAREN
    {
      var j, k := IfOf(ts, start, s);
    }
  }

  /** An `if` read from `start` has its condition returned by `expression`,
      when `rc` is what `expression` returns after the `(`, and `)` follows. */
  lemma {:induction false} IfConditionRead(ts: seq<Token>, start: nat, rc: Result<Parsed<Expr>, Error>)
    requires start + 2 < |ts| && ts[start].kind == IF
    requires forall e {:trigger ExprRead(ts, start + 2, e)} | ExprRead(ts, start + 2, e).Some? && ExprRead(ts, start + 2, e).value < |ts| ::
               var n := ExprRead(ts, start + 2, e).value;
               !IsBinaryOperator(ts[n].kind) && ts[n].kind != EQUAL ==> rc == Success(Parsed(e, n))
    ensures forall s {:trigger ReadEnd(ts, start, s)} | ReadEnd(ts, start, s).Some? ::
              s.If? && rc.Success? && rc.value.node == s.cond && rc.value.next < |ts| && ts[rc.value.next].kind == RIGHT_PAREN
  {
    forall s | ReadEnd(ts, start, s).Some?
      ensures s.If? && rc.Success? && rc.value.node == s.cond && rc.value.next < |ts| && ts[rc.value.next].kind == RIGHT_PAREN
    {
      var j, k := IfOf(ts, start, s);
    }
  }

  /** An `if` read from `start`, whose condition was parsed as `cond`
      ending right before `pos`, has the then-branch `rt` returns when `rt`
      is what `statement` returns at `pos`; the rest is the else-branch read
      after `else` when `else` follows, and nothing otherwise. */
  lemma {:induction false} IfBranchesRead(ts: seq<Token>, start: nat, cond: Expr, pos: nat, rt: Result<Parsed<Stmt>, Error>)
    requires start < |ts| && ts[start].kind == IF && 0 < pos
    requires ExprRead(ts, start + 2, cond) == Some(pos - 1)
    requires forall s {:trigger ReadEnd(ts, start, s)} | ReadEnd(ts, start, s).Some? :: s.If? && s.cond == cond
    requires forall t: Stmt {:trigger ReadEnd(ts, pos, t)} | !t.Var? && ReadEnd(ts, pos, t).Some? ::
               rt == Success(Parsed(t, ReadEnd(ts, pos, t).value))
    ensures forall s {:trigger ReadEnd(ts, start, s)} | ReadEnd(ts, start, s).Some? ::
              && s.If? && rt.Success? && rt.value.node == s.thenBranch && rt.value.next < |ts|
              && (s.elseBranch.None? <==> ts[rt.value.next].kind != ELSE)
              && (s.elseBranch.None? ==> ReadEnd(ts, start, s) == Some(rt.value.next))
              && (s.elseBranch.Some? ==>
                    !s.elseBranch.value.Var? && ReadEnd(ts, rt.value.next + 1, s.elseBranch.value) == ReadEnd(ts, start, s))
  {
    forall s | ReadEnd(ts, start, s).Some?
      ensures && s.If? && rt.Success? && rt.value.node == s.thenBranch && rt.value.next < |ts|
              && (s.elseBranch.None? <==> ts[rt.value.next].kind != ELSE)
              && (s.elseBranch.None? ==> ReadEnd(ts, start, s) == Some(rt.value.next))
              && (s.elseBranch.Some? ==>
                    !s.elseBranch.value.Var? && ReadEnd(ts, rt.value.next + 1, s.elseBranch.value) == ReadEnd(ts, start, s))
    {
      var k := IfThenOf(ts, start, s, pos);
    }
  }

  /** `IfOf` for an `if` whose condition is known to end right before
      `pos`: the then-branch is read from `pos`. */
  lemma {:induction false} IfThenOf(ts: seq<Token>, start: nat, s: Stmt, pos: nat) returns (k: nat)
    requires start < |ts| && ts[start].kind == IF && ReadEnd(ts, start, s).Some? && 0 < pos
    requires s.If? && ExprRead(ts, start + 2, s.cond) == Some(pos - 1)
    ensures k < |ts| && !s.thenBranch.Var? && ReadEnd(ts, pos, s.thenBranch) == Some(k)
    ensures s.elseBranch.None? <==> ts[k].kind != ELSE
    ensures s.elseBranch.None? ==> ReadEnd(ts, start, s) == Some(k)
    ensures s.elseBranch.Some? ==>
              !s.elseBranch.value.Var? && ReadEnd(ts, k + 1, s.elseBranch.value) == ReadEnd(ts, start, s)
  {
    var j, k' := IfOf(ts, start, s);
    k := k';
  }

  /** An `if` read from `start`, whose condition and then-branch were
      parsed as `cond` and `t`, is the `if` of those and the else-branch
      `re` returns, ending where `re` ends, when `re` is what the optional
      else-branch rule returns after `t`. */
  lemma {:induction false} IfElseRead(ts: seq<Token>, start: nat, cond: Expr, t: Parsed<Stmt>, re: Result<Parsed<Option<Stmt>>, Error>)
    requires t.next < |ts|
    requires forall s {:trigger ReadEnd(ts, start, s)} | ReadEnd(ts, start, s).Some? ::
               && s.If? && s.cond == cond && s.thenBranch == t.node
               && (s.elseBranch.None? <==> ts[t.next].kind != ELSE)
               && (s.elseBranch.None? ==> ReadEnd(ts, start, s) == Some(t.next))
               && (s.elseBranch.Some? ==>
                     !s.elseBranch.value.Var? && ReadEnd(ts, t.next + 1, s.elseBranch.value) == ReadEnd(ts, start, s))
    requires re.Success? && re.value.node.None? ==> re.value.next == t.next
    requires ts[t.next].kind != ELSE ==> re.Success? && re.value.node.None?
    requires ts[t.next].kind == ELSE ==>
               forall e: Stmt {:trigger ReadEnd(ts, t.next + 1, e)} | !e.Var? && ReadEnd(ts, t.next + 1, e).Some? ::
                 re == Success(Parsed(Some(e), ReadEnd(ts, t.next + 1, e).value))
    ensures forall s {:trigger ReadEnd(ts, start, s)} | ReadEnd(ts, start, s).Some? ::
              re.Success? && s == If(cond, t.node, re.value.node) && ReadEnd(ts, start, s) == Some(re.value.next)
  {
    forall s | ReadEnd(ts, start, s).Some?
      ensures re.Success? && s == If(cond, t.node, re.value.node) && ReadEnd(ts, start, s) == Some(re.value.next)
    {
      if s.elseBranch.Some? {
        assert ReadEnd(ts, t.next + 1, s.elseBranch.value).Some?;
      }
    }
  }

  /** The contract of `ParseIfBranches`, given what `statement` returns at
      `pos` (`rt`) and what the optional else-branch rule returns after it
      (`re`), each described by its own contract. */
  lemma {:induction false} IfBranchesResult(ts: seq<Token>, start: nat, cond: Expr, pos: nat,
                                            rt: Result<Parsed<Stmt>, Error>, re: Result<Parsed<Option<Stmt>>, Error>)
    requires start + 3 < pos < |ts| && ts[start].kind == IF && ts[start + 1].kind == LEFT_PAREN
    requires ExprRead(ts, start + 2, cond) == Some(pos - 1) && ts[pos - 1].kind == RIGHT_PAREN
    requires forall s {:trigger ReadEnd(ts, start, s)} | ReadEnd(ts, start, s).Some? :: s.If? && s.cond == cond
    requires rt.Success? ==> StatementRead(ts, pos, rt.value) && !rt.value.node.Var?
    requires forall t: Stmt {:trigger ReadEnd(ts, pos, t)} | !t.Var? && ReadEnd(ts, pos, t).Some? ::
               rt == Success(Parsed(t, ReadEnd(ts, pos, t).value))
    requires rt.Success? && re.Success? ==> (re.value.node.Some? <==> ts[rt.value.next].kind == ELSE)
    requires rt.Success? && re.Success? && re.value.node.None? ==> re.value.next == rt.value.next
    requires rt.Success? && re.Success? && re.value.node.Some? ==>
               StatementRead(ts, rt.value.next + 1, Parsed(re.value.node.value, re.value.next)) && !re.value.node.value.Var?
    requires rt.Success? && ts[rt.value.next].kind != ELSE ==> re.Success?
    requires rt.Success? && ts[rt.value.next].kind == ELSE ==>
               forall e: Stmt {:trigger ReadEnd(ts, rt.value.next + 1, e)} | !e.Var? && ReadEnd(ts, rt.value.next + 1, e).Some? ::
                 re == Success(Parsed(Some(e), ReadEnd(ts, rt.value.next + 1, e).value))
    ensures IfOfParts(cond, rt, re).Success? ==>
              var v := IfOfParts(cond, rt, re).value;
              StatementRead(ts, start, v) && v.node.If? && v.node.cond == cond
    ensures forall s {:trigger ReadEnd(ts, start, s)} | ReadEnd(ts, start, s).Some? ::
              IfOfParts(cond, rt, re) == Success(Parsed(s, ReadEnd(ts, start, s).value))
  {
    IfBranchesRead(ts, start, cond, pos, rt);
    if rt.Success? {
      var t := rt.value;
      assert ts[rt.value.next].kind == ELSE ==>
               forall e: Stmt {:trigger ReadEnd(ts, rt.value.next + 1, e)} | !e.Var? && ReadEnd(ts, rt.value.next + 1, e).Some? ::
                 re == Success(Parsed(Some(e), ReadEnd(ts, rt.value.next + 1, e).value));
      IfElseRead(ts, start, cond, t, re);
      if re.Success? {
        IfRead(ts, start, Parsed(cond, pos - 1), pos, t, re.value.node);
      }
    }
  }

  /** An `if` read from its parts: after the then-branch, the else-branch is
      read when there is one, and otherwise the `if` ends there unless
      `else` follows. */
  lemma {:induction false} IfRead(ts: seq<Token>, start: nat, c: Parsed<Expr>, j: nat, t: Parsed<Stmt>, e: Option<Stmt>)
    requires start + 1 < |ts| && ts[start].kind == IF && ts[start + 1].kind == LEFT_PAREN
    requires ExprRead(ts, start + 2, c.node) == Some(c.next)
    requires c.next < |ts| && ts[c.next].kind == RIGHT_PAREN && j == c.next + 1
    requires ReadEnd(ts, j, t.node) == Some(t.next) && t.next < |ts| && !t.node.Var?
    requires e.Some? ==> ts[t.next].kind == ELSE && !e.value.Var?
    ensures ReadEnd(ts, start, If(c.node, t.node, e)) ==
              if e.Some? then ReadEnd(ts, t.next + 1, e.value) else if ts[t.next].kind != ELSE then Some(t.next) else None
  {
  }

  /** A statement read and a list read after it are the longer list read. */
  lemma {:induction false} ReadsCons(ts: seq<Token>, pos: nat, s: Stmt, next: nat, ss: seq<Stmt>)
    requires ReadEnd(ts, pos, s) == Some(next)
    ensures ReadsEnd(ts, pos, [s] + ss) == ReadsEnd(ts, next, ss)
  {
    assert ([s] + ss)[0] == s;
    assert ([s] + ss)[1..] == ss;
  }

  // ---------------------------------------------------------------------------
  // What a statement read is

  /** The end of the text of `s` from `pos`, when `s` is well-formed and, if
      it could still take an `else`, ends on a token that is not `else`. */
  function Yield(ts: seq<Token>, pos: nat, s: Stmt): Option<nat>
  {
    match StmtEnd(ts, pos, s)
    case None => None
    case Some(n) => if WellFormed(s) && (EndsOpen(s) ==> n < |ts| && ts[n].kind != ELSE) then Some(n) else None
  }

  /** A statement read from `pos` is a well-formed statement whose text runs
      exactly as far, and one that could still take an `else` ends on a
      token that is not `else`. */
  lemma {:induction false} ReadSound(ts: seq<Token>, pos: nat, s: Stmt)
    ensures ReadEnd(ts, pos, s).Some? ==> Yield(ts, pos, s) == ReadEnd(ts, pos, s)
    decreases s, 1
  {
    match s
    case Block(ss) => BlockSound(ts, pos, ss);
    case If(c, t, e) => IfSound(ts, pos, c, t, e);
    case _ => SimpleSound(ts, pos, s);
  }

  /** `ReadSound` for an expression statement, `print` and `var`. */
  lemma {:induction false} SimpleSound(ts: seq<Token>, pos: nat, s: Stmt)
    requires s.Expression? || s.Print? || s.Var?
    ensures ReadEnd(ts, pos, s).Some? ==> Yield(ts, pos, s) == ReadEnd(ts, pos, s)
  {
  }

  /** `ReadSound` for a block. */
  lemma {:induction false} BlockSound(ts: seq<Token>, pos: nat, ss: seq<Stmt>)
    ensures ReadEnd(ts, pos, Block(ss)).Some? ==> Yield(ts, pos, Block(ss)) == ReadEnd(ts, pos, Block(ss))
    decreases Block(ss), 0
  {
    if pos < |ts| && ts[pos].kind == LEFT_BRACE {
      ReadsSound(ts, pos + 1, ss);
    }
  }

  /** `ReadSound` for an `if`. */
  lemma {:induction false} IfSound(ts: seq<Token>, pos: nat, c: Expr, t: Stmt, e: Option<Stmt>)
    ensures ReadEnd(ts, pos, If(c, t, e)).Some? ==> Yield(ts, pos, If(c, t, e)) == ReadEnd(ts, pos, If(c, t, e))
    decreases If(c, t, e), 0
  {
    if ReadEnd(ts, pos, If(c, t, e)).Some? {
      var j := Close(ts, ExprRead(ts, pos + 2, c), RIGHT_PAREN).value;
      var k := ReadEnd(ts, j, t).value;
      ReadSound(ts, j, t);
      if e.Some? {
        ReadSound(ts, k + 1, e.value);
        IfElseSoundStep(ts, pos, c, j, t, k, e.value);
      } else {
        IfSoundStep(ts, pos, c, j, t, k);
      }
    }
  }

  /** The step of `IfSound` once the then-branch is read, for an `if`
      without `else`. */
  lemma {:induction false} IfSoundStep(ts: seq<Token>, pos: nat, c: Expr, j: nat, t: Stmt, k: nat)
    requires pos + 1 < |ts| && ts[pos].kind == IF && ts[pos + 1].kind == LEFT_PAREN && !t.Var?
    requires Close(ts, ExprRead(ts, pos + 2, c), RIGHT_PAREN) == Some(j)
    requires ReadEnd(ts, j, t) == Some(k) && Yield(ts, j, t) == Some(k) && k < |ts|
    ensures ReadEnd(ts, pos, If(c, t, None)).Some? ==> Yield(ts, pos, If(c, t, None)) == ReadEnd(ts, pos, If(c, t, None))
  {
    IfReadAt(ts, pos, c, j, t, k);
    IfYield(ts, pos, c, j, t, k, None);
  }

  /** An `if` without `else`, once the condition closes at `j` and the
      then-branch reads up to `k`, reads up to `k` unless `else` is there. */
  lemma {:induction false} IfReadAt(ts: seq<Token>, pos: nat, c: Expr, j: nat, t: Stmt, k: nat)
    requires pos + 1 < |ts| && ts[pos].kind == IF && ts[pos + 1].kind == LEFT_PAREN && !t.Var?
    requires Close(ts, ExprRead(ts, pos + 2, c), RIGHT_PAREN) == Some(j)
    requires ReadEnd(ts, j, t) == Some(k) && k < |ts|
    ensures ReadEnd(ts, pos, If(c, t, None)) == if ts[k].kind != ELSE then Some(k) else None
  {
  }

  /** The step of `IfSound` once the then-branch is read, for an `if` with
      an `else`. */
  lemma {:induction false} IfElseSoundStep(ts: seq<Token>, pos: nat, c: Expr, j: nat, t: Stmt, k: nat, e: Stmt)
    requires pos + 1 < |ts| && ts[pos].kind == IF && ts[pos + 1].kind == LEFT_PAREN && !t.Var?
    requires Close(ts, ExprRead(ts, pos + 2, c), RIGHT_PAREN) == Some(j)
    requires ReadEnd(ts, j, t) == Some(k) && Yield(ts, j, t) == Some(k) && k < |ts|
    requires ts[k].kind == ELSE && !e.Var?
    requires ReadEnd(ts, k + 1, e).Some? ==> Yield(ts, k + 1, e) == ReadEnd(ts, k + 1, e)
    ensures ReadEnd(ts, pos, If(c, t, Some(e))).Some? ==> Yield(ts, pos, If(c, t, Some(e))) == ReadEnd(ts, pos, If(c, t, Some(e)))
  {
    IfElseReadAt(ts, pos, c, j, t, k, e);
    IfYield(ts, pos, c, j, t, k, Some(e));
  }

  /** An `if` with an `else`, once the condition closes at `j` and the
      then-branch reads up to the `else` at `k`, reads as far as the
      else-branch from `k + 1`. */
  lemma {:induction false} IfElseReadAt(ts: seq<Token>, pos: nat, c: Expr, j: nat, t: Stmt, k: nat, e: Stmt)
    requires pos + 1 < |ts| && ts[pos].kind == IF && ts[pos + 1].kind == LEFT_PAREN && !t.Var?
    requires Close(ts, ExprRead(ts, pos + 2, c), RIGHT_PAREN) == Some(j)
    requires ReadEnd(ts, j, t) == Some(k) && k < |ts| && ts[k].kind == ELSE && !e.Var?
    ensures ReadEnd(ts, pos, If(c, t, Some(e))) == ReadEnd(ts, k + 1, e)
  {
  }

  /** The counterpart of `IfRead` for `Yield`. */
  lemma {:induction false} IfYield(ts: seq<Token>, start: nat, c: Expr, j: nat, t: Stmt, k: nat, e: Option<Stmt>)
    requires start + 1 < |ts| && ts[start].kind == IF && ts[start + 1].kind == LEFT_PAREN && !t.Var?
    requires Close(ts, ExprRead(ts, start + 2, c), RIGHT_PAREN) == Some(j)
    requires Yield(ts, j, t) == Some(k) && k < |ts|
    requires e.Some? ==> ts[k].kind == ELSE && !e.value.Var?
    ensures Yield(ts, start, If(c, t, e)) ==
              if e.Some? then Yield(ts, k + 1, e.value) else if ts[k].kind != ELSE then Some(k) else None
  {
    assert StmtEnd(ts, j, t) == Some(k) && WellFormed(t) && Shaped(c);
    if e.Some? {
      assert !EndsOpen(t);
      assert StmtEnd(ts, start, If(c, t, e)) == StmtEnd(ts, k + 1, e.value);
    } else {
      assert StmtEnd(ts, start, If(c, t, e)) == Some(k);
    }
  }

  /** Statements read one after the other are well-formed and their texts,
      one after the other, run exactly as far. */
  lemma {:induction false} ReadsSound(ts: seq<Token>, pos: nat, ss: seq<Stmt>)
    ensures ReadsEnd(ts, pos, ss).Some? ==> StmtsEnd(ts, pos, ss) == ReadsEnd(ts, pos, ss) && AllWellFormed(ss)
    decreases ss, 2
  {
    if |ss| > 0 {
      ReadSound(ts, pos, ss[0]);
      var m := ReadEnd(ts, pos, ss[0]);
      if m.Some? {
        ReadsSound(ts, m.value, ss[1..]);
      }
    }
  }
}
