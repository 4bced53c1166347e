/** What the parser's grouping and error rules mean, as general facts about
    the recursive-descent functions and on small token streams. */
module ParserProperties {
  import opened Wrappers
  import opened Errors
  import opened Tokens
  import opened Values
  import opened Ast
  import opened Parser

  // ---------------------------------------------------------------------------
  // General facts

  /** Only a variable may stand left of `=`: when the left side parsed to
      anything else and `=` follows, the assignment fails. */
  lemma {:induction false} AssignTargetMustBeVariable(ts: seq<Token>, pos: nat)
    requires EndsWithEof(ts) && pos < |ts|
    requires ParseBinary(ts, pos, 0).Success?
    requires var target := ParseBinary(ts, pos, 0).value;
             ts[target.next].kind == EQUAL && !target.node.Variable?
    ensures ParseAssignment(ts, pos).Failure?
  {
  }

  /** A statement never starts with `var`, so neither branch of a parsed
      `if` is a declaration, and `if (c) var x;` fails. */
  lemma {:induction false} DeclarationIsNoBranch(ts: seq<Token>, pos: nat)
    requires EndsWithEof(ts) && pos < |ts|
    ensures ts[pos].kind == VAR ==> ParseStatement(ts, pos).Failure?
    ensures ParseStatement(ts, pos).Success? && ParseStatement(ts, pos).value.node.If? ==>
              var s := ParseStatement(ts, pos).value.node;
              !s.thenBranch.Var? && (s.elseBranch.Some? ==> !s.elseBranch.value.Var?)
  {
  }

  /** A block whose tokens hold no `}` fails: it meets `EOF` first. */
  lemma {:induction false} UnclosedBlockFails(ts: seq<Token>, pos: nat)
    requires EndsWithEof(ts) && pos < |ts|
    requires forall k | pos <= k < |ts| :: ts[k].kind != RIGHT_BRACE
    ensures ParseBlock(ts, pos).Failure?
    decreases |ts| - pos
  {
    if ts[pos].kind != EOF {
      var first := ParseDeclaration(ts, pos);
      if first.Success? {
        UnclosedBlockFails(ts, first.value.next);
      }
    }
  }

  /** An expression statement needs its `;`. */
  lemma {:induction false} MissingSemicolonFails(ts: seq<Token>, pos: nat)
    requires EndsWithEof(ts) && pos < |ts|
    requires ParseExpression(ts, pos).Success?
    requires ts[ParseExpression(ts, pos).value.next].kind != SEMICOLON
    ensures ParseExpressionStatement(ts, pos).Failure?
  {
  }

  /** An `else` always belongs to the nearest `if`: no parsed statement has
      an `else` attached to an `if` whose then-branch ends in an `if` still
      missing its `else`. */
  lemma {:induction false} ElseGoesToNearestIf(ts: seq<Token>, pos: nat)
    requires EndsWithEof(ts) && pos < |ts|
    requires ParseStatement(ts, pos).Success?
    ensures var s := ParseStatement(ts, pos).value.node;
            s.If? && s.elseBranch.Some? ==> !EndsOpen(s.thenBranch)
  {
    ReadSound(ts, pos, ParseStatement(ts, pos).value.node);
  }

  // ---------------------------------------------------------------------------
  // Token streams of a given shape

  /** `ts` is five tokens of the given kinds, then `EOF`. */
  predicate FiveTokens(ts: seq<Token>, k0: TokenType, k1: TokenType, k2: TokenType, k3: TokenType, k4: TokenType)
  {
    && |ts| == 6
    && ts[0].kind == k0 && ts[1].kind == k1 && ts[2].kind == k2
    && ts[3].kind == k3 && ts[4].kind == k4 && ts[5].kind == EOF
  }

  /** The tree a single identifier or number token parses to. */
  function LeafOf(t: Token): Expr
  {
    if t.kind == IDENTIFIER then Variable(t) else Literal(LiteralValue(t.literal))
  }

  /** Such a token, followed by no binary operator, is a whole equality
      expression; followed by no `=` either, a whole expression. */
  lemma {:induction false} Leaf(ts: seq<Token>, pos: nat)
    requires EndsWithEof(ts) && pos + 1 < |ts|
    requires ts[pos].kind == IDENTIFIER || ts[pos].kind == NUMBER
    requires !IsBinaryOperator(ts[pos + 1].kind)
    ensures ParseBinary(ts, pos, 0) == Success(Parsed(LeafOf(ts[pos]), pos + 1))
    ensures ts[pos + 1].kind != EQUAL ==> ParseExpression(ts, pos) == Success(Parsed(LeafOf(ts[pos]), pos + 1))
  {
    assert ExprEnd(ts, pos, LeafOf(ts[pos])) == Some(pos + 1);
    BinaryComplete(ts, pos, LeafOf(ts[pos]), pos + 1, 0);
    if ts[pos + 1].kind != EQUAL {
      ExpressionComplete(ts, pos, LeafOf(ts[pos]), pos + 1);
    }
  }

  /** `a - b - c` groups to the left. */
  lemma {:induction false} SubtractionGroupsLeft(ts: seq<Token>)
    requires FiveTokens(ts, IDENTIFIER, MINUS, IDENTIFIER, MINUS, IDENTIFIER)
    ensures ParseExpression(ts, 0) ==
              Success(Parsed(Binary(Binary(Variable(ts[0]), ts[1], Variable(ts[2])), ts[3], Variable(ts[4])), 5))
  {
    var ab := Binary(Variable(ts[0]), ts[1], Variable(ts[2]));
    var abc := Binary(ab, ts[3], Variable(ts[4]));
    assert ExprEnd(ts, 0, ab) == Some(3);
    assert ExprEnd(ts, 0, abc) == Some(5);
    ExpressionComplete(ts, 0, abc, 5);
  }

  /** `1 + 2 * 3`: the factor binds tighter than the term. */
  lemma {:induction false} ProductBindsTighter(ts: seq<Token>)
    requires FiveTokens(ts, NUMBER, PLUS, NUMBER, STAR, NUMBER)
    ensures ParseExpression(ts, 0) ==
              Success(Parsed(Binary(LeafOf(ts[0]), ts[1], Binary(LeafOf(ts[2]), ts[3], LeafOf(ts[4]))), 5))
  {
    var product := Binary(LeafOf(ts[2]), ts[3], LeafOf(ts[4]));
    var sum := Binary(LeafOf(ts[0]), ts[1], product);
    assert ExprEnd(ts, 2, product) == Some(5);
    assert ExprEnd(ts, 0, sum) == Some(5);
    ExpressionComplete(ts, 0, sum, 5);
  }

  /** `a = b = c` groups to the right. */
  lemma {:induction false} AssignmentGroupsRight(ts: seq<Token>)
    requires FiveTokens(ts, IDENTIFIER, EQUAL, IDENTIFIER, EQUAL, IDENTIFIER)
    ensures ParseExpression(ts, 0) == Success(Parsed(Expr.Assign(ts[0], Expr.Assign(ts[2], Variable(ts[4]))), 5))
  {
    var bc := Expr.Assign(ts[2], Variable(ts[4]));
    assert ExprEnd(ts, 2, bc) == Some(5);
    assert ExprEnd(ts, 0, Expr.Assign(ts[0], bc)) == Some(5);
    ExpressionComplete(ts, 0, Expr.Assign(ts[0], bc), 5);
  }

  /** `1 = 2` is not an assignment: its target is no variable. */
  lemma {:induction false} LiteralTargetFails(ts: seq<Token>)
    requires |ts| == 4 && ts[0].kind == NUMBER && ts[1].kind == EQUAL && ts[2].kind == NUMBER && ts[3].kind == EOF
    ensures ParseExpression(ts, 0).Failure?
  {
    Leaf(ts, 0);
    AssignTargetMustBeVariable(ts, 0);
  }

  /** `ts` is the token kinds of `if (x) if (y) print 1; else print 2;`. */
  predicate DanglingElse(ts: seq<Token>)
  {
    && |ts| == 16
    && ts[0].kind == IF && ts[1].kind == LEFT_PAREN && ts[2].kind == IDENTIFIER && ts[3].kind == RIGHT_PAREN
    && ts[4].kind == IF && ts[5].kind == LEFT_PAREN && ts[6].kind == IDENTIFIER && ts[7].kind == RIGHT_PAREN
    && ts[8].kind == PRINT && ts[9].kind == NUMBER && ts[10].kind == SEMICOLON
    && ts[11].kind == ELSE && ts[12].kind == PRINT && ts[13].kind == NUMBER && ts[14].kind == SEMICOLON
    && ts[15].kind == EOF
  }

  /** The inner `if (y) print 1; else print 2;` takes the `else`. */
  lemma {:induction false} InnerIfTakesElse(ts: seq<Token>)
    requires DanglingElse(ts)
    ensures ParseStatement(ts, 4) ==
              Success(Parsed(If(Variable(ts[6]), Print(LeafOf(ts[9])), Some(Print(LeafOf(ts[13])))), 15))
  {
    var inner := If(Variable(ts[6]), Print(LeafOf(ts[9])), Some(Print(LeafOf(ts[13]))));
    InnerText(ts);
    assert ReadEnd(ts, 4, inner) == Some(15);
  }

  /** The texts of the pieces of the inner `if`. */
  lemma {:induction false} InnerText(ts: seq<Token>)
    requires DanglingElse(ts)
    ensures ExprRead(ts, 6, Variable(ts[6])) == Some(7)
    ensures ReadEnd(ts, 8, Print(LeafOf(ts[9]))) == Some(11)
    ensures ReadEnd(ts, 12, Print(LeafOf(ts[13]))) == Some(15)
  {
    assert ExprRead(ts, 9, LeafOf(ts[9])) == Some(10);
    assert ExprRead(ts, 13, LeafOf(ts[13])) == Some(14);
  }

  /** `if (x) if (y) print 1; else print 2;`: the `else` goes to the inner
      `if`, and the outer `if` has none. */
  lemma {:induction false} DanglingElseGoesInside(ts: seq<Token>)
    requires DanglingElse(ts)
    ensures ParseStatement(ts, 0) ==
              Success(Parsed(If(Variable(ts[2]),
                                If(Variable(ts[6]), Print(LeafOf(ts[9])), Some(Print(LeafOf(ts[13])))),
                                None), 15))
  {
    var inner := If(Variable(ts[6]), Print(LeafOf(ts[9])), Some(Print(LeafOf(ts[13]))));
    InnerText(ts);
    assert ReadEnd(ts, 4, inner) == Some(15);
    assert ExprRead(ts, 2, Variable(ts[2])) == Some(3);
    assert ReadEnd(ts, 0, If(Variable(ts[2]), inner, None)) == Some(15);
  }
}
