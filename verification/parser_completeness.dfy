/** The parser stated without the parser. The rules' contracts say that a
    statement text, as the rules read it, is parsed back into its tree; this
    module shows that the rules read exactly the texts the trees spell
    (`StmtEnd`, where a statement that could still take an `else` is not
    followed by one). Together this makes `Parse` the inverse of `StmtsEnd`
    on well-formed programs: the parse of a token sequence is the one list
    of well-formed statements whose texts run up to its `EOF`, and the
    grammar is unambiguous. */
module ParserCompleteness {

  import opened Wrappers
  import opened Tokens
  import opened Ast
  import opened Parser

  // ---------------------------------------------------------------------------
  // A statement read is a well-formed statement text

  /** A well-formed statement's text starts with a token that is neither
      `else`, `}` nor `EOF`, so no statement follows another where an
      `else` or the end of a block or program is expected. */
  lemma {:induction false} TextFirst(ts: seq<Token>, pos: nat, s: Stmt)
    requires WellFormed(s) && StmtEnd(ts, pos, s).Some?
    ensures pos < |ts| && ts[pos].kind != ELSE && ts[pos].kind != RIGHT_BRACE && ts[pos].kind != EOF
  {
    if s.Expression? {
      ExprFirst(ts, pos, s.expr);
    }
  }

  /** The converse of `ReadSound`: a well-formed statement text, which ends
      on a token other than `else` if it could still take one, is read as
      far as it runs. */
  lemma {:induction false} YieldRead(ts: seq<Token>, pos: nat, s: Stmt)
    ensures Yield(ts, pos, s).Some? ==> ReadEnd(ts, pos, s) == Yield(ts, pos, s)
    decreases s, 1
  {
    match s
    case Block(ss) => BlockYieldRead(ts, pos, ss);
    case If(c, t, e) => IfYieldRead(ts, pos, c, t, e);
    case _ => SimpleYieldRead(ts, pos, s);
  }

  /** `YieldRead` for an expression statement, `print` and `var`. */
  lemma {:induction false} SimpleYieldRead(ts: seq<Token>, pos: nat, s: Stmt)
    requires s.Expression? || s.Print? || s.Var?
    ensures Yield(ts, pos, s).Some? ==> ReadEnd(ts, pos, s) == Yield(ts, pos, s)
  {
  }

  /** `YieldRead` for a block. */
  lemma {:induction false} BlockYieldRead(ts: seq<Token>, pos: nat, ss: seq<Stmt>)
    ensures Yield(ts, pos, Block(ss)).Some? ==> ReadEnd(ts, pos, Block(ss)) == Yield(ts, pos, Block(ss))
    decreases Block(ss), 0
  {
    if pos < |ts| && ts[pos].kind == LEFT_BRACE {
      YieldsRead(ts, pos + 1, ss);
    }
  }

  /** `YieldRead` for an `if`. */
  lemma {:induction false} IfYieldRead(ts: seq<Token>, pos: nat, c: Expr, t: Stmt, e: Option<Stmt>)
    ensures Yield(ts, pos, If(c, t, e)).Some? ==> ReadEnd(ts, pos, If(c, t, e)) == Yield(ts, pos, If(c, t, e))
    decreases If(c, t, e), 0
  {
    if Yield(ts, pos, If(c, t, e)).Some? {
      var j := Close(ts, ExprEnd(ts, pos + 2, c), RIGHT_PAREN).value;
      var k := StmtEnd(ts, j, t).value;
      YieldRead(ts, j, t);
      if e.Some? {
        YieldRead(ts, k + 1, e.value);
        IfElseYieldReadStep(ts, pos, c, j, t, k, e.value);
      } else {
        IfYieldReadStep(ts, pos, c, j, t, k);
      }
    }
  }

  /** The step of `IfYieldRead` once the then-branch's text is known, for
      an `if` without `else`. */
  lemma {:induction false} IfYieldReadStep(ts: seq<Token>, pos: nat, c: Expr, j: nat, t: Stmt, k: nat)
    requires Yield(ts, pos, If(c, t, None)).Some?
    requires pos + 1 < |ts| && ts[pos].kind == IF && ts[pos + 1].kind == LEFT_PAREN
    requires Close(ts, ExprEnd(ts, pos + 2, c), RIGHT_PAREN) == Some(j) && StmtEnd(ts, j, t) == Some(k)
    requires Yield(ts, j, t).Some? ==> ReadEnd(ts, j, t) == Yield(ts, j, t)
    ensures ReadEnd(ts, pos, If(c, t, None)) == Yield(ts, pos, If(c, t, None))
  {
    assert WellFormed(If(c, t, None));
    assert k < |ts| && Yield(ts, j, t) == Some(k);
    CloseAt(ts, ExprEnd(ts, pos + 2, c), RIGHT_PAREN, j);
    IfRead(ts, pos, Parsed(c, j - 1), j, Parsed(t, k), None);
    IfYield(ts, pos, c, j, t, k, None);
  }

  /** The step of `IfYieldRead` once the then-branch's text is known, for
      an `if` with an `else`. */
  lemma {:induction false} IfElseYieldReadStep(ts: seq<Token>, pos: nat, c: Expr, j: nat, t: Stmt, k: nat, e: Stmt)
    requires Yield(ts, pos, If(c, t, Some(e))).Some?
    requires pos + 1 < |ts| && ts[pos].kind == IF && ts[pos + 1].kind == LEFT_PAREN
    requires Close(ts, ExprEnd(ts, pos + 2, c), RIGHT_PAREN) == Some(j) && StmtEnd(ts, j, t) == Some(k)
    requires Yield(ts, j, t).Some? ==> ReadEnd(ts, j, t) == Yield(ts, j, t)
    requires k < |ts| && ts[k].kind == ELSE
    requires Yield(ts, k + 1, e).Some? ==> ReadEnd(ts, k + 1, e) == Yield(ts, k + 1, e)
    ensures ReadEnd(ts, pos, If(c, t, Some(e))) == Yield(ts, pos, If(c, t, Some(e)))
  {
    assert WellFormed(If(c, t, Some(e)));
    assert Yield(ts, j, t) == Some(k);
    CloseAt(ts, ExprEnd(ts, pos + 2, c), RIGHT_PAREN, j);
    IfRead(ts, pos, Parsed(c, j - 1), j, Parsed(t, k), Some(e));
    IfYield(ts, pos, c, j, t, k, Some(e));
  }

  /** The converse of `ReadsSound`: well-formed statement texts one after
      the other, ending on a token other than `else`, are read as far as
      they run. */
  lemma {:induction false} YieldsRead(ts: seq<Token>, pos: nat, ss: seq<Stmt>)
    ensures AllWellFormed(ss) && StmtsEnd(ts, pos, ss).Some? &&
            StmtsEnd(ts, pos, ss).value < |ts| && ts[StmtsEnd(ts, pos, ss).value].kind != ELSE ==>
              ReadsEnd(ts, pos, ss) == StmtsEnd(ts, pos, ss)
    decreases ss, 2
  {
    if |ss| > 0 {
      var m := StmtEnd(ts, pos, ss[0]);
      if m.Some? {
        if |ss| > 1 && StmtEnd(ts, m.value, ss[1]).Some? && WellFormed(ss[1]) {
          TextFirst(ts, m.value, ss[1]);
        }
        assert |ss| > 1 ==> ss[1..][0] == ss[1];
        YieldRead(ts, pos, ss[0]);
        YieldsRead(ts, m.value, ss[1..]);
      }
    }
  }

  /** The parser's reading of a statement, stated without the parser: the
      well-formed statement text, where one that could take an `else` is
      not followed by `else`. */
  lemma {:induction false} ReadIsYield(ts: seq<Token>, pos: nat, s: Stmt)
    ensures ReadEnd(ts, pos, s) == Yield(ts, pos, s)
  {
    ReadSound(ts, pos, s);
    YieldRead(ts, pos, s);
  }

  // ---------------------------------------------------------------------------
  // The parse of a program

  /** `parse` succeeds with `ss` exactly when `ss` are well-formed
      statements whose texts, one after the other, run from the first
      token up to an `EOF`. */
  lemma {:induction false} ParseIsInverse(ts: seq<Token>, ss: seq<Stmt>)
    requires EndsWithEof(ts)
    ensures Parse(ts) == Success(ss) <==>
              && AllWellFormed(ss)
              && var end := StmtsEnd(ts, 0, ss); end.Some? && end.value < |ts| && ts[end.value].kind == EOF
  {
    var end := StmtsEnd(ts, 0, ss);
    if AllWellFormed(ss) && end.Some? && end.value < |ts| && ts[end.value].kind == EOF {
      YieldsRead(ts, 0, ss);
    }
  }

  /** The grammar is unambiguous: two lists of well-formed statements whose
      texts both run from the first token up to an `EOF` are the same. */
  lemma {:induction false} Unambiguous(ts: seq<Token>, ss: seq<Stmt>, ss': seq<Stmt>, n: nat, n': nat)
    requires EndsWithEof(ts) && AllWellFormed(ss) && AllWellFormed(ss')
    requires StmtsEnd(ts, 0, ss) == Some(n) && n < |ts| && ts[n].kind == EOF
    requires StmtsEnd(ts, 0, ss') == Some(n') && n' < |ts| && ts[n'].kind == EOF
    ensures ss == ss'
  {
    ParseIsInverse(ts, ss);
    ParseIsInverse(ts, ss');
  }
}
