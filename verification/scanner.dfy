/** The scanner: turns the source text into tokens with a single forward
    cursor and one character of lookahead (src/scanner/Scanner.kt).

    `ScanToken` is one turn of the source's loop: it consumes at least one
    character starting at `start` and yields at most one token. `ScanFrom`
    repeats it to the end of the input, and `ScanTokens` appends the `EOF`
    token. Besides the tokens, `ScanFrom` reports the source span each token
    was cut from (`Scanned`), which is what the properties are stated over. */
module Scanner {

  import opened Wrappers
  import opened Errors
  import opened Tokens

  /** The reserved-word table. */
  const Keywords: map<string, TokenType> := map[
    "and" := AND, "class" := CLASS, "else" := ELSE, "false" := FALSE,
    "for" := FOR, "fun" := FUN, "if" := IF, "nil" := NIL,
    "or" := OR, "print" := PRINT, "return" := RETURN, "super" := SUPER,
    "this" := THIS, "true" := TRUE, "var" := VAR, "while" := WHILE
  ]

  // ---------------------------------------------------------------------------
  // Character classes

  predicate IsDigit(c: char) { '0' <= c <= '9' }

  /** `isAlphabet`: `_`, or a character whose simple lower-case mapping lies in
      `a`..`z`. Besides the ASCII letters that includes U+0130 (capital I with
      dot above, lower-cased to `i`) and U+212A (Kelvin sign, lower-cased to `k`). */
  predicate IsAlphabet(c: char)
  {
    c == '_' || 'a' <= c <= 'z' || 'A' <= c <= 'Z' || c == '\U{0130}' || c == '\U{212A}'
  }

  predicate IsAlphanumeric(c: char) { IsAlphabet(c) || IsDigit(c) }

  predicate IsWhitespace(c: char) { c == ' ' || c == '\r' || c == '\t' || c == '\n' }

  /** Characters `number` keeps consuming: digits and dots. */
  predicate IsNumberChar(c: char) { IsDigit(c) || c == '.' }

  predicate NotNewline(c: char) { c != '\n' }

  predicate NotQuote(c: char) { c != '"' }

  /** The characters that make a one-character token on their own. */
  function SingleCharKind(c: char): Option<TokenType>
  {
    match c
    case '(' => Some(LEFT_PAREN)
    case ')' => Some(RIGHT_PAREN)
    case '{' => Some(LEFT_BRACE)
    case '}' => Some(RIGHT_BRACE)
    case ',' => Some(COMMA)
    case '.' => Some(DOT)
    case '-' => Some(MINUS)
    case '+' => Some(PLUS)
    case ';' => Some(SEMICOLON)
    case '*' => Some(STAR)
    case _ => None
  }

  /** The characters that form a two-character operator when followed by `=`:
      the kind alone, and the kind with `=`. */
  function OperatorKinds(c: char): Option<(TokenType, TokenType)>
  {
    match c
    case '!' => Some((BANG, BANG_EQUAL))
    case '=' => Some((EQUAL, EQUAL_EQUAL))
    case '<' => Some((LESS, LESS_EQUAL))
    case '>' => Some((GREATER, GREATER_EQUAL))
    case _ => None
  }

  /** No case of `scanToken` handles `c`. */
  predicate Unhandled(c: char)
  {
    && SingleCharKind(c).None? && OperatorKinds(c).None?
    && c != '/' && c != '"' && !IsDigit(c) && !IsWhitespace(c) && !IsAlphabet(c)
  }

  // ---------------------------------------------------------------------------
  // Cursor helpers

  /** The end of the run of characters satisfying `p` that starts at `i`: the
      loops `while (peek() ...) nextChar()`, which stop at the end of input too. */
  function Span(src: string, i: nat, p: char -> bool): (j: nat)
    requires i <= |src|
    ensures i <= j <= |src|
    ensures forall k | i <= k < j :: p(src[k])
    ensures j == |src| || !p(src[j])
    decreases |src| - i
  {
    if i == |src| || !p(src[i]) then i else Span(src, i + 1, p)
  }

  /** `src[start..end]` is a run of `p` that cannot be extended to the right. */
  predicate MaximalRun(src: string, start: nat, end: nat, p: char -> bool)
    requires start <= end <= |src|
  {
    && (forall k | start <= k < end :: p(src[k]))
    && (end == |src| || !p(src[end]))
  }

  /** `matchNext(e)` at `i`: the next character exists and is `e`. */
  predicate FollowedBy(src: string, i: nat, e: char)
  {
    i < |src| && src[i] == e
  }

  /** Number of newline characters in `s`. */
  function Newlines(s: string): nat
  {
    if |s| == 0 then 0 else (if s[0] == '\n' then 1 else 0) + Newlines(s[1..])
  }

  // ---------------------------------------------------------------------------
  // Number conversion

  function DigitValue(c: char): (d: nat)
    requires IsDigit(c)
    ensures d <= 9
  {
    c as int - '0' as int
  }

  function DigitsValue(s: string): nat
    requires forall k | 0 <= k < |s| :: IsDigit(s[k])
  {
    if |s| == 0 then 0 else 10 * DigitsValue(s[..|s| - 1]) + DigitValue(s[|s| - 1])
  }

  function Pow10(n: nat): (r: nat)
    ensures r >= 1
  {
    if n == 0 then 1 else 10 * Pow10(n - 1)
  }

  /** Every character of `s` is a digit. */
  predicate AllDigits(s: string)
  {
    forall k | 0 <= k < |s| :: IsDigit(s[k])
  }

  /** At most one character of `text` is a dot. */
  predicate AtMostOneDot(text: string)
  {
    forall i, j | 0 <= i < j < |text| :: !(text[i] == '.' && text[j] == '.')
  }

  /** The digits of a number lexeme with its dots dropped. */
  function Undotted(text: string): (d: string)
    requires forall k | 0 <= k < |text| :: IsNumberChar(text[k])
    ensures forall k | 0 <= k < |d| :: IsDigit(d[k])
  {
    if |text| == 0 then []
    else if text[|text| - 1] == '.' then Undotted(text[..|text| - 1])
    else
      var d := Undotted(text[..|text| - 1]);
      assert IsNumberChar(text[|text| - 1]);
      assert forall k | 0 <= k < |d| :: (d + [text[|text| - 1]])[k] == d[k];
      d + [text[|text| - 1]]
  }

  /** How many characters of a lexeme follow its last dot; 0 without a dot. */
  function FractionDigits(text: string): nat
  {
    if |text| == 0 || text[|text| - 1] == '.' || '.' !in text then 0
    else 1 + FractionDigits(text[..|text| - 1])
  }

  /** `toDouble` on a number lexeme, read exactly (no rounding): it succeeds iff
      the lexeme has at most one dot, and then its value is the integer the
      digits spell once the dot is dropped, divided by 10 to the number of
      digits after the dot. */
  function ParseNumber(text: string): (r: Option<real>)
    requires forall k | 0 <= k < |text| :: IsNumberChar(text[k])
    ensures r.Some? <==> AtMostOneDot(text)
    ensures r.Some? ==> r.value == DigitsValue(Undotted(text)) as real / Pow10(FractionDigits(text)) as real
  {
    var dot := Span(text, 0, IsDigit);
    if dot == |text| then
      NoDot(text);
      Some(DigitsValue(text) as real)
    else
      assert IsNumberChar(text[dot]);
      var fracEnd := Span(text, dot + 1, IsDigit);
      if fracEnd < |text| then
        assert IsNumberChar(text[fracEnd]);
        None
      else
        var whole := DigitsValue(text[..dot]);
        var frac := DigitsValue(text[dot + 1..]);
        DottedValue(text, dot);
        Some(whole as real + frac as real / Pow10(|text| - dot - 1) as real)
  }

  /** A lexeme of digits only is its own digits, with none after a dot. */
  lemma {:induction false} NoDot(text: string)
    requires forall k | 0 <= k < |text| :: IsDigit(text[k])
    ensures Undotted(text) == text && FractionDigits(text) == 0
  {
    if |text| > 0 {
      NoDot(text[..|text| - 1]);
      assert text[..|text| - 1] + [text[|text| - 1]] == text;
    }
  }

  /** Digits `a`, a dot and digits `b`: dropping the dot leaves `a + b`, with
      the digits of `b` after the dot. */
  lemma {:induction false} DotSplit(a: string, b: string)
    requires forall k | 0 <= k < |a| :: IsDigit(a[k])
    requires forall k | 0 <= k < |b| :: IsDigit(b[k])
    ensures forall k | 0 <= k < |a + ['.'] + b| :: IsNumberChar((a + ['.'] + b)[k])
    ensures Undotted(a + ['.'] + b) == a + b && FractionDigits(a + ['.'] + b) == |b|
    decreases |b|
  {
    var t := a + ['.'] + b;
    assert t[|a|] == '.';
    if |b| == 0 {
      assert t[..|t| - 1] == a;
      NoDot(a);
      assert a + b == a;
    } else {
      var b' := b[..|b| - 1];
      assert t[..|t| - 1] == a + ['.'] + b';
      DotSplit(a, b');
      assert a + b == (a + b') + [b[|b| - 1]];
    }
  }

  /** The value of digits `a` followed by digits `b`. */
  lemma {:induction false} DigitsAppend(a: string, b: string)
    requires forall k | 0 <= k < |a| :: IsDigit(a[k])
    requires forall k | 0 <= k < |b| :: IsDigit(b[k])
    ensures forall k | 0 <= k < |a + b| :: IsDigit((a + b)[k])
    ensures DigitsValue(a + b) == DigitsValue(a) * Pow10(|b|) + DigitsValue(b)
    decreases |b|
  {
    if |b| > 0 {
      var b', d := b[..|b| - 1], DigitValue(b[|b| - 1]);
      assert (a + b)[..|a + b| - 1] == a + b';
      DigitsAppend(a, b');
      ShiftDigit(DigitsValue(a), Pow10(|b'|), DigitsValue(b'), d);
    } else {
      assert a + b == a;
    }
  }

  /** Appending digit `d` to `x` shifted past `p` and followed by `y`. */
  lemma {:induction false} ShiftDigit(x: int, p: int, y: int, d: int)
    ensures 10 * (x * p + y) + d == x * (10 * p) + (10 * y + d)
  {
  }

  /** A lexeme with its one dot at `dot`: the digits after the dot are
      those after `dot`, and the digits without the dot spell the digits
      before it, shifted past those after it. */
  lemma {:induction false} OneDot(text: string, dot: nat)
    requires dot < |text| && text[dot] == '.'
    requires forall k | 0 <= k < |text| && k != dot :: IsDigit(text[k])
    ensures AllDigits(text[..dot]) && AllDigits(text[dot + 1..])
    ensures forall k | 0 <= k < |text| :: IsNumberChar(text[k])
    ensures FractionDigits(text) == |text| - dot - 1
    ensures DigitsValue(Undotted(text)) == DigitsValue(text[..dot]) * Pow10(|text| - dot - 1) + DigitsValue(text[dot + 1..])
  {
    var a, b := text[..dot], text[dot + 1..];
    assert text == a + ['.'] + b;
    DotSplit(a, b);
    DigitsAppend(a, b);
  }

  /** A lexeme with one dot, at `dot`: the whole part plus the fraction
      part scaled down is the undotted value scaled down. */
  lemma {:induction false} DottedValue(text: string, dot: nat)
    requires dot < |text| && text[dot] == '.'
    requires forall k | 0 <= k < |text| && k != dot :: IsDigit(text[k])
    ensures AllDigits(text[..dot]) && AllDigits(text[dot + 1..])
    ensures forall k | 0 <= k < |text| :: IsNumberChar(text[k])
    ensures DigitsValue(text[..dot]) as real + DigitsValue(text[dot + 1..]) as real / Pow10(|text| - dot - 1) as real ==
            DigitsValue(Undotted(text)) as real / Pow10(FractionDigits(text)) as real
  {
    OneDot(text, dot);
    Scale(DigitsValue(text[..dot]), DigitsValue(text[dot + 1..]), Pow10(|text| - dot - 1));
  }

  /** `w + f / p == (w * p + f) / p`, for the reals. */
  lemma {:induction false} Scale(w: nat, f: nat, p: nat)
    requires p >= 1
    ensures w as real + f as real / p as real == (w * p + f) as real / p as real
  {
    assert (w * p) as real / p as real == w as real;
  }

  // ---------------------------------------------------------------------------
  // The lexical rules, stated against the source text

  /** A token as scanned, with the source span `[start, end)` it was cut from. */
  datatype Scanned = Scanned(token: Token, start: nat, end: nat)

  /** The four shapes of token, by kind. */
  datatype KindClass = StringClass | NumberClass | WordClass | OperatorClass | EndClass

  function ClassOf(k: TokenType): KindClass
  {
    match k
    case STRING => StringClass
    case NUMBER => NumberClass
    case IDENTIFIER | AND | CLASS | ELSE | FALSE | FUN | FOR | IF | NIL | OR
      | PRINT | RETURN | SUPER | THIS | TRUE | VAR | WHILE => WordClass
    case EOF => EndClass
    case _ => OperatorClass
  }

  /** A string literal: from a quote to the next quote; the literal is the text between them. */
  predicate StringRule(src: string, start: nat, end: nat, t: Token)
    requires start < end <= |src|
  {
    && src[start] == '"' && start + 2 <= end && src[end - 1] == '"'
    && (forall k | start < k < end - 1 :: src[k] != '"')
    && t.literal == Some(StringLiteral(src[start + 1..end - 1]))
  }

  /** A number: a digit, then the longest run of digits and dots; the literal is its value. */
  predicate NumberRule(src: string, start: nat, end: nat, t: Token)
    requires start < end <= |src|
  {
    && IsDigit(src[start]) && MaximalRun(src, start, end, IsNumberChar)
    && ParseNumber(src[start..end]).Some?
    && t.literal == Some(NumberLiteral(ParseNumber(src[start..end]).value))
  }

  /** An identifier or reserved word: a letter or `_`, then the longest run of
      letters, `_` and digits; a keyword kind iff the text is in the table. */
  predicate WordRule(src: string, start: nat, end: nat, t: Token)
    requires start < end <= |src|
  {
    var text := src[start..end];
    && IsAlphabet(src[start]) && MaximalRun(src, start, end, IsAlphanumeric)
    && t.kind == (if text in Keywords then Keywords[text] else IDENTIFIER)
    && t.literal == None
  }

  /** Punctuation and operators: one character, or two for `!=`, `==`, `<=`,
      `>=` (maximal munch); `/` only when not followed by another `/`. */
  predicate OperatorRule(src: string, start: nat, end: nat, t: Token)
    requires start < end <= |src|
  {
    var c := src[start];
    && t.literal == None
    && ( || (end == start + 1 && SingleCharKind(c) == Some(t.kind))
         || (end == start + 1 && c == '/' && t.kind == SLASH && !FollowedBy(src, end, '/'))
         || (end == start + 1 && OperatorKinds(c).Some? && t.kind == OperatorKinds(c).value.0
             && !FollowedBy(src, end, '='))
         || (end == start + 2 && OperatorKinds(c).Some? && t.kind == OperatorKinds(c).value.1
             && src[start + 1] == '='))
  }

  /** The lexical rule for the kind of `t` holds at `[start, end)`. No rule admits `EOF`. */
  predicate LexicalRule(src: string, start: nat, end: nat, t: Token)
    requires start < end <= |src|
  {
    match ClassOf(t.kind)
    case StringClass => StringRule(src, start, end, t)
    case NumberClass => NumberRule(src, start, end, t)
    case WordClass => WordRule(src, start, end, t)
    case OperatorClass => OperatorRule(src, start, end, t)
    case EndClass => false
  }

  /** `x` is a token whose lexeme is exactly its source span and which obeys
      the rule of its kind. */
  predicate Lexes(src: string, x: Scanned)
  {
    && x.start < x.end <= |src|
    && x.token.lexeme == src[x.start..x.end]
    && LexicalRule(src, x.start, x.end, x.token)
  }

  /** `src[from..to]` produces no token: it is whitespace characters and `//`
      comments, each comment running up to (not including) the next newline
      of the whole source, or its end, within `to`. */
  predicate IsTrivia(src: string, from: nat, to: nat)
    requires from <= to <= |src|
    decreases |src| - from
  {
    if from == to then true
    else if IsWhitespace(src[from]) then IsTrivia(src, from + 1, to)
    else
      && from + 1 < to && src[from] == '/' && src[from + 1] == '/'
      && Span(src, from + 2, NotNewline) <= to
      && IsTrivia(src, Span(src, from + 2, NotNewline), to)
  }

  /** How far a token moves the line counter: only the newlines inside a
      string literal count. */
  function StringNewlines(t: Token): nat
  {
    if t.kind == STRING then Newlines(t.lexeme) else 0
  }

  /** The scan of `src` from `pos` with line counter `line` produced `xs`:
      some trivia, then the first token, which obeys its lexical rule and
      carries the counter plus its own string newlines, then the scan of the
      rest from the token's end; with no token left, the rest is trivia. */
  predicate WellScanned(src: string, pos: nat, line: nat, xs: seq<Scanned>)
    decreases |xs|
  {
    && pos <= |src|
    && if |xs| == 0 then IsTrivia(src, pos, |src|)
       else
         && pos <= xs[0].start
         && Lexes(src, xs[0])
         && IsTrivia(src, pos, xs[0].start)
         && xs[0].token.line == line + StringNewlines(xs[0].token)
         && WellScanned(src, xs[0].end, xs[0].token.line, xs[1..])
  }

  // ---------------------------------------------------------------------------
  // Scanning

  /** The outcome of one `scanToken` call: the token it added, if any, where
      the cursor stopped, and the line counter afterwards. */
  datatype Step = Step(token: Option<Token>, next: nat, line: nat)

  /** `r` added a token cut from `[start, r.next)` by its lexical rule, and the
      line counter moved by the token's string newlines only. */
  predicate TokenStep(src: string, start: nat, line: nat, r: Step)
  {
    && r.token.Some?
    && Lexes(src, Scanned(r.token.value, start, r.next))
    && r.token.value.line == r.line
    && r.line == line + StringNewlines(r.token.value)
  }

  /** `r` added no token: it skipped one whitespace character, or a `//`
      comment up to but not including the next newline. */
  predicate SkipStep(src: string, start: nat, line: nat, r: Step)
  {
    && r.token.None?
    && r.line == line
    && start < r.next <= |src|
    && IsTrivia(src, start, r.next)
    && (|| (IsWhitespace(src[start]) && r.next == start + 1)
        || (FollowedBy(src, start, '/') && FollowedBy(src, start + 1, '/')
            && MaximalRun(src, start + 2, r.next, NotNewline)))
  }

  /** The failures of `scanToken` at `start`: a character no case handles, a
      string with no closing quote, or a number `toDouble` rejects. */
  predicate ScanFails(src: string, start: nat)
    requires start < |src|
  {
    var c := src[start];
    || Unhandled(c)
    || (c == '"' && Span(src, start + 1, NotQuote) == |src|)
    || (IsDigit(c) && ParseNumber(src[start..Span(src, start + 1, IsNumberChar)]).None?)
  }

  /** Punctuation, one- or two-character operators, and a lone `/`. */
  function ScanOperator(src: string, start: nat, line: nat): (r: Step)
    requires start < |src|
    requires || SingleCharKind(src[start]).Some? || OperatorKinds(src[start]).Some?
             || (src[start] == '/' && !FollowedBy(src, start + 1, '/'))
    ensures TokenStep(src, start, line, r)
  {
    var c := src[start];
    if SingleCharKind(c).Some? then
      Step(Some(Token(SingleCharKind(c).value, src[start..start + 1], None, line)), start + 1, line)
    else if OperatorKinds(c).Some? then
      var (alone, withEqual) := OperatorKinds(c).value;
      if FollowedBy(src, start + 1, '=') then
        Step(Some(Token(withEqual, src[start..start + 2], None, line)), start + 2, line)
      else
        Step(Some(Token(alone, src[start..start + 1], None, line)), start + 1, line)
    else
      Step(Some(Token(SLASH, src[start..start + 1], None, line)), start + 1, line)
  }

  /** `string()`: everything up to the closing quote, counting the newlines on the way. */
  function ScanString(src: string, start: nat, line: nat): (r: Result<Step, Error>)
    requires start < |src| && src[start] == '"'
    ensures r.Failure? <==> Span(src, start + 1, NotQuote) == |src|
    ensures r.Success? ==> TokenStep(src, start, line, r.value)
  {
    var close := Span(src, start + 1, NotQuote);
    if close == |src| then Failure(UnterminatedString)
    else
      var line' := line + Newlines(src[start + 1..close]);
      QuotedNewlines(src, start, close);
      Success(Step(Some(Token(STRING, src[start..close + 1], Some(StringLiteral(src[start + 1..close])), line')),
                   close + 1, line'))
  }

  /** `number()`: the longest run of digits and dots, converted by `toDouble`. */
  function ScanNumber(src: string, start: nat, line: nat): (r: Result<Step, Error>)
    requires start < |src| && IsDigit(src[start])
    ensures r.Failure? <==> ParseNumber(src[start..Span(src, start + 1, IsNumberChar)]).None?
    ensures r.Success? ==> TokenStep(src, start, line, r.value)
  {
    var end := Span(src, start + 1, IsNumberChar);
    match ParseNumber(src[start..end])
    case None => Failure(MalformedNumber)
    case Some(n) => Success(Step(Some(Token(NUMBER, src[start..end], Some(NumberLiteral(n)), line)), end, line))
  }

  /** `identifier()`: the longest alphanumeric run, looked up in the keyword table. */
  function ScanWord(src: string, start: nat, line: nat): (r: Step)
    requires start < |src| && IsAlphabet(src[start])
    ensures TokenStep(src, start, line, r)
  {
    var end := Span(src, start + 1, IsAlphanumeric);
    var text := src[start..end];
    KeywordsAreWords(text);
    Step(Some(Token(if text in Keywords then Keywords[text] else IDENTIFIER, text, None, line)), end, line)
  }

  /** A `//` comment: skipped up to, not including, the next newline. */
  function SkipComment(src: string, start: nat, line: nat): (r: Step)
    requires FollowedBy(src, start, '/') && FollowedBy(src, start + 1, '/')
    ensures SkipStep(src, start, line, r)
  {
    var next := Span(src, start + 2, NotNewline);
    TriviaOfComment(src, start, next);
    Step(None, next, line)
  }

  /** One call of `scanToken`, starting at `start` with line counter `line`. */
  function ScanToken(src: string, start: nat, line: nat): (r: Result<Step, Error>)
    requires start < |src|
    ensures r.Failure? <==> ScanFails(src, start)
    ensures r.Failure? && Unhandled(src[start]) ==> r.error == UnexpectedChar(line)
    ensures r.Success? ==> start < r.value.next <= |src|
    ensures r.Success? && r.value.token.Some? ==> TokenStep(src, start, line, r.value)
    ensures r.Success? && r.value.token.None? ==> SkipStep(src, start, line, r.value)
  {
    var c := src[start];
    if c == '/' && FollowedBy(src, start + 1, '/') then
      Success(SkipComment(src, start, line))
    else if SingleCharKind(c).Some? || OperatorKinds(c).Some? || c == '/' then
      Success(ScanOperator(src, start, line))
    else if c == '"' then
      ScanString(src, start, line)
    else if IsDigit(c) then
      ScanNumber(src, start, line)
    else if IsWhitespace(c) then
      Success(Step(None, start + 1, line))
    else if IsAlphabet(c) then
      Success(ScanWord(src, start, line))
    else
      Failure(UnexpectedChar(line))
  }

  /** Scan everything from `pos` to the end of the input. */
  function ScanFrom(src: string, pos: nat, line: nat): (r: Result<seq<Scanned>, Error>)
    requires pos <= |src|
    ensures r.Success? ==> WellScanned(src, pos, line, r.value)
    ensures r.Failure? ==> exists k | pos <= k < |src| :: ScanFails(src, k)
    decreases |src| - pos
  {
    if pos == |src| then
      Success([])
    else
      match ScanToken(src, pos, line)
      case Failure(e) => Failure(e)
      case Success(step) =>
        match ScanFrom(src, step.next, step.line)
        case Failure(e) => Failure(e)
        case Success(rest) =>
          match step.token
          case None =>
            SkipKeepsWellScanned(src, pos, line, step, rest);
            Success(rest)
          case Some(t) =>
            assert ([Scanned(t, pos, step.next)] + rest)[1..] == rest;
            Success([Scanned(t, pos, step.next)] + rest)
  }

  /** The scan of the whole source, with spans. */
  function Scan(src: string): (r: Result<seq<Scanned>, Error>)
    ensures r.Success? ==> WellScanned(src, 0, 0, r.value)
    ensures r.Failure? ==> exists k | 0 <= k < |src| :: ScanFails(src, k)
  {
    ScanFrom(src, 0, 0)
  }

  function TokensOf(xs: seq<Scanned>): (ts: seq<Token>)
    ensures |ts| == |xs|
    ensures forall i | 0 <= i < |xs| :: ts[i] == xs[i].token
  {
    seq(|xs|, i requires 0 <= i < |xs| => xs[i].token)
  }

  /** `scanTokens`: the scanned tokens followed by exactly one `EOF`, which
      always carries line 1 and an empty lexeme; no other token is `EOF`. */
  function ScanTokens(src: string): (r: Result<seq<Token>, Error>)
    ensures r.Success? <==> Scan(src).Success?
    ensures r.Success? ==>
              && |r.value| == |Scan(src).value| + 1
              && r.value[|r.value| - 1] == Token(EOF, "", None, 1)
              && (forall i | 0 <= i < |r.value| - 1 :: r.value[i] == Scan(src).value[i].token)
              && (forall i | 0 <= i < |r.value| - 1 :: r.value[i].kind != EOF)
  {
    var xs :- Scan(src);
    ScannedFacts(src, 0, 0, xs);
    NoEofScanned(src, xs);
    Success(TokensOf(xs) + [Token(EOF, "", None, 1)])
  }

  // ---------------------------------------------------------------------------
  // Properties of a scan

  /** Over a whole scan: every token obeys its lexical rule, the tokens follow
      each other in source order without overlapping, and their line numbers
      start at the initial counter and never decrease. */
  lemma {:induction false} ScannedFacts(src: string, pos: nat, line: nat, xs: seq<Scanned>)
    requires WellScanned(src, pos, line, xs)
    ensures forall i | 0 <= i < |xs| :: Lexes(src, xs[i]) && pos <= xs[i].start
    ensures forall i, j | 0 <= i < j < |xs| :: xs[i].end <= xs[j].start
    ensures forall i | 0 <= i < |xs| :: line <= xs[i].token.line
    ensures forall i, j | 0 <= i < j < |xs| :: xs[i].token.line <= xs[j].token.line
    decreases |xs|
  {
    if |xs| > 0 {
      ScannedFacts(src, xs[0].end, xs[0].token.line, xs[1..]);
      assert forall i | 1 <= i < |xs| :: xs[i] == xs[1..][i - 1];
    }
  }

  lemma {:induction false} NoEofScanned(src: string, xs: seq<Scanned>)
    requires forall i | 0 <= i < |xs| :: Lexes(src, xs[i])
    ensures forall i | 0 <= i < |xs| :: xs[i].token.kind != EOF
  {
    forall i | 0 <= i < |xs|
      ensures xs[i].token.kind != EOF
    {
      assert LexicalRule(src, xs[i].start, xs[i].end, xs[i].token);
    }
  }

  /** Only `NUMBER` and `STRING` tokens carry a literal; `EOF` carries none. */
  lemma {:induction false} LiteralsOnlyOnValues(src: string)
    ensures ScanTokens(src).Success? ==>
              var ts := ScanTokens(src).value;
              forall i | 0 <= i < |ts| :: (ts[i].literal.Some? <==> ts[i].kind == NUMBER || ts[i].kind == STRING)
  {
    if ScanTokens(src).Success? {
      var ts, xs := ScanTokens(src).value, Scan(src).value;
      ScannedFacts(src, 0, 0, xs);
      forall i | 0 <= i < |ts|
        ensures ts[i].literal.Some? <==> ts[i].kind == NUMBER || ts[i].kind == STRING
      {
        if i < |ts| - 1 {
          LexedLiteral(src, xs[i]);
        }
      }
    }
  }

  /** A token obeying its lexical rule carries a literal iff it is a number
      or a string. */
  lemma {:induction false} LexedLiteral(src: string, x: Scanned)
    requires Lexes(src, x)
    ensures x.token.literal.Some? <==> x.token.kind == NUMBER || x.token.kind == STRING
  {
    assert LexicalRule(src, x.start, x.end, x.token);
  }

  /** The converse of `ScanFrom`'s contract: a list of tokens that scans the
      text from `pos` is what `ScanFrom` returns. */
  lemma {:induction false} ScanFromComplete(src: string, pos: nat, line: nat, xs: seq<Scanned>)
    requires WellScanned(src, pos, line, xs)
    ensures ScanFrom(src, pos, line) == Success(xs)
    decreases |src| - pos
  {
    if pos < |src| && |xs| > 0 && xs[0].start == pos {
      ScanFromComplete(src, xs[0].end, xs[0].token.line, xs[1..]);
      ScanFromAtToken(src, pos, line, xs);
    } else if pos < |src| {
      var target := if |xs| == 0 then |src| else xs[0].start;
      ScanTokenAtTrivia(src, pos, line, target);
      ScanFromComplete(src, ScanToken(src, pos, line).value.next, line, xs);
    }
  }

  /** The step of `ScanFromComplete` where the first token starts at `pos`. */
  lemma {:induction false} ScanFromAtToken(src: string, pos: nat, line: nat, xs: seq<Scanned>)
    requires pos < |src| && WellScanned(src, pos, line, xs) && |xs| > 0 && xs[0].start == pos
    requires ScanFrom(src, xs[0].end, xs[0].token.line) == Success(xs[1..])
    ensures ScanFrom(src, pos, line) == Success(xs)
  {
    var x := xs[0];
    ScanTokenAtToken(src, pos, line, x);
    assert [x] + xs[1..] == xs;
  }

  /** `Scan` returns `xs` exactly when `xs` scans the whole text: the text is
      trivia and the tokens of `xs`, each cut by its lexical rule, with the
      line counter starting at 0. */
  lemma {:induction false} ScanExact(src: string, xs: seq<Scanned>)
    ensures Scan(src) == Success(xs) <==> WellScanned(src, 0, 0, xs)
  {
    if WellScanned(src, 0, 0, xs) {
      ScanFromComplete(src, 0, 0, xs);
    }
  }

  /** `Scan` succeeds exactly when some list of tokens scans the text. */
  lemma {:induction false} ScanFailure(src: string)
    ensures Scan(src).Success? <==> exists xs :: WellScanned(src, 0, 0, xs)
  {
    if Scan(src).Success? {
      var ys := Scan(src).value;
      assert WellScanned(src, 0, 0, ys);
      assert exists xs :: WellScanned(src, 0, 0, xs);
    } else {
      forall xs
        ensures !WellScanned(src, 0, 0, xs)
      {
        ScanExact(src, xs);
      }
    }
  }

  /** At most one list of tokens scans a text from a given position and line. */
  lemma {:induction false} ScanDetermined(src: string, pos: nat, line: nat, xs: seq<Scanned>, ys: seq<Scanned>)
    requires WellScanned(src, pos, line, xs) && WellScanned(src, pos, line, ys)
    ensures xs == ys
  {
    ScanFromComplete(src, pos, line, xs);
    ScanFromComplete(src, pos, line, ys);
  }

  /** Where a token starts, `scanToken` cuts that token. */
  lemma {:induction false} ScanTokenAtToken(src: string, pos: nat, line: nat, x: Scanned)
    requires Lexes(src, x) && x.start == pos && x.token.line == line + StringNewlines(x.token)
    ensures ScanToken(src, pos, line) == Success(Step(Some(x.token), x.end, x.token.line))
  {
    TokenIsNoTrivia(src, x);
    LexesScans(src, x);
    var r := ScanToken(src, pos, line);
    var y := Scanned(r.value.token.value, pos, r.value.next);
    LexesUnique(src, x, y);
  }

  /** Where trivia starts, `scanToken` skips a piece of it and adds no token. */
  lemma {:induction false} ScanTokenAtTrivia(src: string, pos: nat, line: nat, target: nat)
    requires pos < target <= |src| && IsTrivia(src, pos, target)
    ensures var r := ScanToken(src, pos, line);
            && r.Success? && r.value.token.None? && r.value.line == line
            && r.value.next <= target && IsTrivia(src, r.value.next, target)
  {
    var r := ScanToken(src, pos, line);
    assert r.Success?;
    if r.value.token.Some? {
      TokenIsNoTrivia(src, Scanned(r.value.token.value, pos, r.value.next));
    } else if !IsWhitespace(src[pos]) {
      SpanUnique(src, pos + 2, NotNewline, r.value.next);
    }
  }

  /** A token starts neither on whitespace nor on `//`. */
  lemma {:induction false} TokenIsNoTrivia(src: string, x: Scanned)
    requires Lexes(src, x)
    ensures !IsWhitespace(src[x.start]) && !(src[x.start] == '/' && FollowedBy(src, x.start + 1, '/'))
  {
    assert LexicalRule(src, x.start, x.end, x.token);
  }

  /** The first character of a token fixes the rule it was cut by. */
  function CharClass(c: char): KindClass
  {
    if c == '"' then StringClass
    else if IsDigit(c) then NumberClass
    else if IsAlphabet(c) then WordClass
    else OperatorClass
  }

  lemma {:induction false} FirstCharClass(src: string, x: Scanned)
    requires Lexes(src, x)
    ensures ClassOf(x.token.kind) == CharClass(src[x.start])
  {
    assert LexicalRule(src, x.start, x.end, x.token);
  }

  /** `scanToken` does not fail where a token starts. */
  lemma {:induction false} LexesScans(src: string, x: Scanned)
    requires Lexes(src, x)
    ensures !ScanFails(src, x.start)
  {
    FirstCharClass(src, x);
    var c := src[x.start];
    if c == '"' {
      SpanUnique(src, x.start + 1, NotQuote, x.end - 1);
    } else if IsDigit(c) {
      SpanUnique(src, x.start + 1, IsNumberChar, x.end);
    }
  }

  /** Two tokens cut from the same start are the same cut. */
  lemma {:induction false} LexesUnique(src: string, x: Scanned, y: Scanned)
    requires Lexes(src, x) && Lexes(src, y) && x.start == y.start
    ensures x.end == y.end && x.token.kind == y.token.kind && x.token.literal == y.token.literal
  {
    FirstCharClass(src, x);
    FirstCharClass(src, y);
    var c := src[x.start];
    if c == '"' {
      SpanUnique(src, x.start + 1, NotQuote, x.end - 1);
      SpanUnique(src, x.start + 1, NotQuote, y.end - 1);
    } else if IsDigit(c) {
      SpanUnique(src, x.start, IsNumberChar, x.end);
      SpanUnique(src, x.start, IsNumberChar, y.end);
    } else if IsAlphabet(c) {
      SpanUnique(src, x.start, IsAlphanumeric, x.end);
      SpanUnique(src, x.start, IsAlphanumeric, y.end);
    } else {
      assert OperatorRule(src, x.start, x.end, x.token) && OperatorRule(src, y.start, y.end, y.token);
    }
  }

  // ---------------------------------------------------------------------------
  // Helper lemmas

  lemma {:induction false} KeywordsAreWords(text: string)
    ensures text in Keywords ==> ClassOf(Keywords[text]) == WordClass
  {
  }

  lemma {:induction false} SpanUnique(src: string, i: nat, p: char -> bool, j: nat)
    requires i <= j <= |src|
    requires MaximalRun(src, i, j, p)
    ensures Span(src, i, p) == j
  {
  }

  lemma {:induction false} NewlinesAppend(a: string, b: string)
    ensures Newlines(a + b) == Newlines(a) + Newlines(b)
  {
    if |a| == 0 {
      assert a + b == b;
    } else {
      assert (a + b)[0] == a[0];
      assert (a + b)[1..] == a[1..] + b;
      NewlinesAppend(a[1..], b);
    }
  }

  /** The quotes of a string lexeme are not newlines. */
  lemma {:induction false} QuotedNewlines(src: string, start: nat, close: nat)
    requires start < close < |src| && src[start] == '"' && src[close] == '"'
    ensures Newlines(src[start..close + 1]) == Newlines(src[start + 1..close])
  {
    assert src[start..close + 1] == [src[start]] + (src[start + 1..close] + [src[close]]);
    NewlinesAppend([src[start]], src[start + 1..close] + [src[close]]);
    NewlinesAppend(src[start + 1..close], [src[close]]);
  }

  lemma {:induction false} TriviaOfComment(src: string, start: nat, next: nat)
    requires start + 2 <= next <= |src|
    requires src[start] == '/' && src[start + 1] == '/'
    requires MaximalRun(src, start + 2, next, NotNewline)
    ensures IsTrivia(src, start, next)
  {
    SpanUnique(src, start + 2, NotNewline, next);
  }

  /** Skipped text in front of trivia is still trivia. */
  lemma {:induction false} TriviaExtends(src: string, pos: nat, line: nat, step: Step, e: nat)
    requires pos < |src| && SkipStep(src, pos, line, step)
    requires step.next <= e <= |src| && IsTrivia(src, step.next, e)
    ensures IsTrivia(src, pos, e)
  {
    if !IsWhitespace(src[pos]) {
      SpanUnique(src, pos + 2, NotNewline, step.next);
    }
  }

  lemma {:induction false} SkipKeepsWellScanned(src: string, pos: nat, line: nat, step: Step, rest: seq<Scanned>)
    requires pos < |src| && SkipStep(src, pos, line, step)
    requires WellScanned(src, step.next, line, rest)
    ensures WellScanned(src, pos, line, rest)
  {
    if |rest| == 0 {
      TriviaExtends(src, pos, line, step, |src|);
    } else {
      TriviaExtends(src, pos, line, step, rest[0].start);
    }
  }
}
