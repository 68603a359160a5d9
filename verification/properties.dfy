/** Properties of the lexer that relate several calls or pin down each arm
    of `next_token` against a declarative description of the input. */
module LexerProperties {
  import opened Wrappers
  import opened Tokens
  import opened Lexing
  import Decimal

  /** The lexer positioned on index `k` of `text`, as `read_char` leaves it. */
  function At(text: string, k: nat): (lx: Lexer)
    ensures Positioned(lx) && lx.input == text && lx.position == k
  {
    Lexer(text, k, k + 1, CharAt(text, k))
  }

  /** `skip_whitespace` stops exactly at the end of the whitespace run. */
  lemma SkipWhitespaceTo(lx: Lexer, k: int)
    requires Positioned(lx) && lx.position <= k && (k <= |lx.input| || k == lx.position)
    requires forall i | lx.position <= i < k :: IsWhitespace(lx.input[i])
    requires !IsWhitespace(CharAt(lx.input, k))
    ensures SkipWhitespace(lx) == At(lx.input, k)
  {
    var r := SkipWhitespace(lx);
    assert r.position < k ==> IsWhitespace(CharAt(lx.input, r.position));
    assert r.position > k ==> IsWhitespace(CharAt(lx.input, k));
  }

  /** Whitespace never produces a token: `next_token` gives the same result
      before and after the whitespace in front of the cursor. */
  lemma WhitespaceSkipped(lx: Lexer)
    requires Valid(lx)
    ensures Valid(SkipWhitespace(lx))
    ensures NextToken(lx) == NextToken(SkipWhitespace(lx))
  {
    var s := SkipWhitespace(lx);
    SkipWhitespaceTo(s, s.position);
  }

  /** `next_token` from inside a whitespace run is `next_token` from the
      first char after it. */
  lemma NextTokenSkips(lx: Lexer, k: int)
    requires Valid(lx) && lx.position <= k && (k <= |lx.input| || k == lx.position)
    requires forall i | lx.position <= i < k :: IsWhitespace(lx.input[i])
    requires !IsWhitespace(CharAt(lx.input, k))
    ensures Valid(At(lx.input, k)) && NextToken(lx) == NextToken(At(lx.input, k))
  {
    SkipWhitespaceTo(lx, k);
    WhitespaceSkipped(lx);
  }

  /** Each single-char operator or delimiter is one token whose literal is
      that char, and consumes exactly that char. */
  lemma NextTokenPunctuation(lx: Lexer)
    requires Valid(lx) && Punctuation(lx.currentChar).Some?
    ensures NextToken(lx) == Ok(Step(Token(Punctuation(lx.currentChar).value, [lx.currentChar]), At(lx.input, lx.position + 1)))
  {
    SkipWhitespaceTo(lx, lx.position);
  }

  /** `=` followed by `=` is one `==` token consuming both chars; any other
      `=` is an assignment consuming one. */
  lemma NextTokenEquals(lx: Lexer)
    requires Valid(lx) && lx.currentChar == '='
    ensures CharAt(lx.input, lx.position + 1) == '=' ==>
              NextToken(lx) == Ok(Step(Token(Eq, "=="), At(lx.input, lx.position + 2)))
    ensures CharAt(lx.input, lx.position + 1) != '=' ==>
              NextToken(lx) == Ok(Step(Token(Assign, "="), At(lx.input, lx.position + 1)))
  {
    SkipWhitespaceTo(lx, lx.position);
  }

  /** `!` followed by `=` is one `!=` token consuming both chars; any other
      `!` is a negation consuming one. */
  lemma NextTokenBang(lx: Lexer)
    requires Valid(lx) && lx.currentChar == '!'
    ensures CharAt(lx.input, lx.position + 1) == '=' ==>
              NextToken(lx) == Ok(Step(Token(NotEq, "!="), At(lx.input, lx.position + 2)))
    ensures CharAt(lx.input, lx.position + 1) != '=' ==>
              NextToken(lx) == Ok(Step(Token(Bang, "!"), At(lx.input, lx.position + 1)))
  {
    SkipWhitespaceTo(lx, lx.position);
  }

  /** Any char that is not whitespace, a letter, a digit or a recognised
      symbol is an illegal token with the placeholder literal; it consumes
      one char and lexing goes on. `[` and `]` are such chars. */
  lemma NextTokenIllegal(lx: Lexer)
    requires Valid(lx)
    requires !IsWhitespace(lx.currentChar) && !IsLetter(lx.currentChar)
    requires !Decimal.IsDigit(lx.currentChar) && !IsSymbol(lx.currentChar)
    ensures NextToken(lx) == Ok(Step(Token(Illegal, "something horrible"), At(lx.input, lx.position + 1)))
  {
    SkipWhitespaceTo(lx, lx.position);
  }

  /** A scan stops exactly at the end of the run of `cls` chars. */
  lemma ScanWhileTo(lx: Lexer, cls: CharClass, k: int)
    requires Positioned(lx) && lx.position <= k && (k <= |lx.input| || k == lx.position)
    requires forall i | lx.position <= i < k :: InClass(lx.input[i], cls)
    requires !InClass(CharAt(lx.input, k), cls)
    ensures ScanWhile(lx, cls) == At(lx.input, k)
  {
    var r := ScanWhile(lx, cls);
    assert r.position < k ==> InClass(CharAt(lx.input, r.position), cls);
    assert r.position > k ==> InClass(CharAt(lx.input, k), cls);
  }

  /** The run `ReadRun` reads is exactly the maximal run of `cls` chars from
      the cursor. */
  lemma ReadRunTo(lx: Lexer, cls: CharClass, e: int)
    requires Positioned(lx) && lx.position < e <= |lx.input|
    requires forall i | lx.position <= i < e :: InClass(lx.input[i], cls)
    requires e == |lx.input| || !InClass(lx.input[e], cls)
    ensures e == |lx.input| ==> ReadRun(lx, cls) == Err(CharOutOfRange)
    ensures e < |lx.input| ==>
              ReadRun(lx, cls) == Ok((lx.input[lx.position..e], Lexer(lx.input, e - 1, e, lx.input[e])))
  {
    assert !InClass(CharAt(lx.input, e), cls);
    ScanWhileTo(lx, cls, e);
  }

  /** Once the cursor is on a non-whitespace char, `next_token` is the
      classification followed by one `read_char`. */
  lemma NextTokenClassifies(lx: Lexer)
    requires Valid(lx) && !IsWhitespace(lx.currentChar)
    ensures Classify(lx).Err? ==> NextToken(lx) == Err(Classify(lx).error)
    ensures Classify(lx).Ok? ==>
              NextToken(lx) == Ok(Step(Classify(lx).value.0, ReadChar(Classify(lx).value.1)))
  {
    SkipWhitespaceTo(lx, lx.position);
  }

  /** A letter sends `next_token` to `parse_string`. */
  lemma ClassifyWord(lx: Lexer)
    requires Valid(lx) && IsLetter(lx.currentChar)
    ensures Classify(lx) == ParseString(lx)
  {
    assert !IsSymbol(lx.currentChar);
  }

  /** A digit sends `next_token` to `parse_number`. */
  lemma ClassifyNumber(lx: Lexer)
    requires Valid(lx) && Decimal.IsDigit(lx.currentChar)
    ensures Classify(lx) == ParseNumber(lx)
  {
    assert !IsSymbol(lx.currentChar) && !IsLetter(lx.currentChar);
  }

  /** `parse_string` reads exactly the maximal letter run at the cursor. */
  lemma ParseStringTo(lx: Lexer, e: int)
    requires Positioned(lx) && lx.position < e <= |lx.input|
    requires forall i | lx.position <= i < e :: IsLetter(lx.input[i])
    requires e == |lx.input| || !IsLetter(lx.input[e])
    ensures e == |lx.input| ==> ParseString(lx) == Err(CharOutOfRange)
    ensures e < |lx.input| ==>
              ParseString(lx) == Ok((WordToken(lx.input[lx.position..e]), Lexer(lx.input, e - 1, e, lx.input[e])))
  {
    assert IsLetter(lx.input[lx.position]);
    ReadRunTo(lx, Letter, e);
  }

  /** A word is the maximal run of letters and `_` from the cursor. It
      becomes its keyword or an identifier, and the cursor lands on the
      char after it; a word that runs to the end of the input panics in
      `back_char`. */
  lemma NextTokenWord(lx: Lexer, e: int)
    requires Valid(lx) && lx.position < e <= |lx.input|
    requires forall i | lx.position <= i < e :: IsLetter(lx.input[i])
    requires e == |lx.input| || !IsLetter(lx.input[e])
    ensures e == |lx.input| ==> NextToken(lx) == Err(CharOutOfRange)
    ensures e < |lx.input| ==>
              NextToken(lx) == Ok(Step(WordToken(lx.input[lx.position..e]), At(lx.input, e)))
  {
    assert IsLetter(lx.input[lx.position]);
    ParseStringTo(lx, e);
    ClassifyWord(lx);
    NextTokenClassifies(lx);
    if e < |lx.input| {
      var after := Lexer(lx.input, e - 1, e, lx.input[e]);
      assert Classify(lx) == Ok((WordToken(lx.input[lx.position..e]), after));
      assert ReadChar(after) == At(lx.input, e);
    }
  }

  /** `parse_number` reads exactly the maximal digit run at the cursor and
      panics when its value exceeds `i64::MAX`. */
  lemma ParseNumberTo(lx: Lexer, e: int)
    requires Positioned(lx) && lx.position < e <= |lx.input|
    requires forall i | lx.position <= i < e :: Decimal.IsDigit(lx.input[i])
    requires e == |lx.input| || !Decimal.IsDigit(lx.input[e])
    ensures e == |lx.input| ==> ParseNumber(lx) == Err(CharOutOfRange)
    ensures e < |lx.input| && Decimal.Value(lx.input[lx.position..e]) > I64Max ==>
              ParseNumber(lx) == Err(IntOverflow)
    ensures e < |lx.input| && Decimal.Value(lx.input[lx.position..e]) <= I64Max ==>
              ParseNumber(lx) == Ok((Token(Int(Decimal.Value(lx.input[lx.position..e])), lx.input[lx.position..e]), Lexer(lx.input, e - 1, e, lx.input[e])))
  {
    assert Decimal.IsDigit(lx.input[lx.position]);
    ReadRunTo(lx, Digit, e);
  }

  /** A digit run is the maximal run of ASCII digits from the cursor. It
      becomes an integer token carrying its decimal value with the run as
      literal; a run whose value exceeds `i64::MAX` panics in the parse, and
      a run that reaches the end of the input panics earlier, in `back_char`. */
  lemma NextTokenNumber(lx: Lexer, e: int)
    requires Valid(lx) && lx.position < e <= |lx.input|
    requires forall i | lx.position <= i < e :: Decimal.IsDigit(lx.input[i])
    requires e == |lx.input| || !Decimal.IsDigit(lx.input[e])
    ensures e == |lx.input| ==> NextToken(lx) == Err(CharOutOfRange)
    ensures e < |lx.input| && Decimal.Value(lx.input[lx.position..e]) > I64Max ==>
              NextToken(lx) == Err(IntOverflow)
    ensures e < |lx.input| && Decimal.Value(lx.input[lx.position..e]) <= I64Max ==>
              NextToken(lx) == Ok(Step(Token(Int(Decimal.Value(lx.input[lx.position..e])), lx.input[lx.position..e]), At(lx.input, e)))
  {
    assert Decimal.IsDigit(lx.input[lx.position]);
    ParseNumberTo(lx, e);
    ClassifyNumber(lx);
    NextTokenClassifies(lx);
    if e < |lx.input| {
      var digits := lx.input[lx.position..e];
      var after := Lexer(lx.input, e - 1, e, lx.input[e]);
      if Decimal.Value(digits) <= I64Max {
        assert Classify(lx) == Ok((Token(Int(Decimal.Value(digits)), digits), after));
        assert ReadChar(after) == At(lx.input, e);
      } else {
        assert Classify(lx) == Err(IntOverflow);
      }
    }
  }

  /* ---------------------------------------------------------------------
     Runs of calls
     --------------------------------------------------------------------- */

  /** A run of calls is the first call's token followed by the run from
      the lexer it leaves. */
  lemma RunCons(lx: Lexer, n: nat, t: Token, next: Lexer)
    requires Valid(lx) && NextToken(lx) == Ok(Step(t, next))
    ensures Valid(next)
    ensures Run(next, n).Ok? ==> Run(lx, n + 1) == Ok([t] + Run(next, n).value)
    ensures Run(next, n).Err? ==> Run(lx, n + 1) == Err(Run(next, n).error)
  {
  }

  /** Whitespace in front of the cursor changes none of the tokens of a
      run of calls, nor where the run panics. */
  lemma RunSkips(lx: Lexer, k: int, n: nat)
    requires Valid(lx) && lx.position <= k && (k <= |lx.input| || k == lx.position)
    requires forall i | lx.position <= i < k :: IsWhitespace(lx.input[i])
    requires !IsWhitespace(CharAt(lx.input, k))
    ensures Valid(At(lx.input, k)) && Run(lx, n) == Run(At(lx.input, k), n)
  {
    NextTokenSkips(lx, k);
  }

  /** `new` puts the cursor on index 0. */
  lemma LexStart(text: string, n: nat)
    requires WellFormed(text) && |text| > 0
    ensures Valid(At(text, 0)) && Lex(text, n) == Run(At(text, 0), n)
  {
    assert New(text) == Ok(At(text, 0));
  }

  /** A single call that succeeds is a run of one token. */
  lemma RunOne(lx: Lexer, t: Token, next: Lexer)
    requires Valid(lx) && NextToken(lx) == Ok(Step(t, next))
    ensures Run(lx, 1) == Ok([t])
  {
    assert Run(next, 0) == Ok([]);
    assert [t] + [] == [t];
  }

  /** A panic in the first call ends the run with that panic. */
  lemma RunPanics(lx: Lexer, n: nat)
    requires Valid(lx) && NextToken(lx).Err?
    ensures Run(lx, n + 1) == Err(NextToken(lx).error)
  {
  }

  /* ---------------------------------------------------------------------
     End of input
     --------------------------------------------------------------------- */

  /** The index `skip_whitespace` stops at when only whitespace is left:
      the end of the text, or the cursor itself when already past it. */
  function EndOf(lx: Lexer): nat
    requires Positioned(lx)
  {
    if lx.position <= |lx.input| then |lx.input| else lx.position
  }

  /** When only whitespace is left, `next_token` yields EOF with an empty
      literal and moves the cursor one past the end. */
  lemma NextTokenAtEnd(lx: Lexer)
    requires Valid(lx)
    requires forall i | lx.position <= i < |lx.input| :: IsWhitespace(lx.input[i])
    ensures NextToken(lx) == Ok(Step(Token(Eof, ""), At(lx.input, EndOf(lx) + 1)))
  {
    var k := EndOf(lx);
    SkipWhitespaceTo(lx, k);
    var s := At(lx.input, k);
    assert Classify(s) == Ok((Token(Eof, ""), s));
  }

  /** The classification yields EOF exactly when the cursor is past the
      last char. */
  lemma ClassifyEof(s: Lexer)
    requires Valid(s)
    ensures Classify(s).Ok? && Classify(s).value.0.kind == Eof <==> s.position >= |s.input|
  {
    var c := s.currentChar;
    if IsLetter(c) && !IsSymbol(c) {
      assert Classify(s) == ParseString(s);
    }
  }

  /** EOF is produced exactly when nothing but whitespace is left. */
  lemma EofOnlyAtEnd(lx: Lexer)
    requires Valid(lx)
    ensures NextToken(lx).Ok? && NextToken(lx).value.token.kind == Eof <==>
              forall i | lx.position <= i < |lx.input| :: IsWhitespace(lx.input[i])
  {
    var s := SkipWhitespace(lx);
    ClassifyEof(s);
    assert s.position < |lx.input| ==> !IsWhitespace(CharAt(lx.input, s.position));
  }

  /** Past the end, a call yields EOF and moves the cursor one further. */
  lemma NextTokenPastEnd(lx: Lexer)
    requires Valid(lx) && lx.position >= |lx.input|
    ensures NextToken(lx) == Ok(Step(Token(Eof, ""), At(lx.input, lx.position + 1)))
  {
    NextTokenAtEnd(lx);
    assert EndOf(lx) == lx.position;
  }

  /** Once the input is exhausted every further `next_token` call yields
      EOF again: lexing past the end never panics. */
  lemma {:induction false} EofForever(lx: Lexer, n: nat)
    requires Valid(lx) && lx.position >= |lx.input|
    ensures Run(lx, n) == Ok(Eofs(n))
    decreases n
  {
    if n > 0 {
      NextTokenPastEnd(lx);
      var next := At(lx.input, lx.position + 1);
      EofForever(next, n - 1);
      RunCons(lx, n - 1, Token(Eof, ""), next);
    }
  }

  /** `n` EOF tokens. */
  function Eofs(n: nat): (r: seq<Token>)
    ensures |r| == n && forall i | 0 <= i < n :: r[i] == Token(Eof, "")
  {
    if n == 0 then [] else [Token(Eof, "")] + Eofs(n - 1)
  }

  /* ---------------------------------------------------------------------
     The cursor
     --------------------------------------------------------------------- */

  /** `back_char` after `read_char` restores both indices but leaves the
      char of the NEXT index current, so it undoes the read only when the
      two chars are equal; at the last char it panics instead. */
  lemma BackAfterRead(lx: Lexer)
    requires Positioned(lx)
    ensures lx.position + 1 < |lx.input| ==>
              BackChar(ReadChar(lx)) == Ok(Lexer(lx.input, lx.position, lx.position + 1, lx.input[lx.position + 1]))
    ensures lx.position + 1 < |lx.input| ==>
              (BackChar(ReadChar(lx)) == Ok(lx) <==> lx.input[lx.position] == lx.input[lx.position + 1])
    ensures lx.position + 1 >= |lx.input| ==> BackChar(ReadChar(lx)) == Err(CharOutOfRange)
  {
  }

  /* ---------------------------------------------------------------------
     Keywords
     --------------------------------------------------------------------- */

  /** The kinds `lookup_keyword` can answer are exactly the keyword kinds. */
  lemma KeywordKinds(k: TokenType)
    ensures IsKeywordKind(k) <==> exists w :: LookupKeyword(w) == Some(k)
  {
    if IsKeywordKind(k) {
      var w := KeywordSpelling(k);
      LookupKeywordTable(w);
    }
  }

  /** The reserved word of each keyword kind. */
  function KeywordSpelling(k: TokenType): (w: string)
    requires IsKeywordKind(k)
    ensures LookupKeyword(w) == Some(k)
  {
    LookupKeywordTable("lambda");
    LookupKeywordTable("let");
    LookupKeywordTable("true");
    LookupKeywordTable("false");
    LookupKeywordTable("return");
    LookupKeywordTable("if");
    LookupKeywordTable("else");
    match k
    case Func => "lambda"
    case Let => "let"
    case True => "true"
    case False => "false"
    case Return => "return"
    case If => "if"
    case Else => "else"
  }

  /* ---------------------------------------------------------------------
     Whole-input round trips
     --------------------------------------------------------------------- */

  /** The numeral of a number followed by any non-digit lexes back to that
      number; a number above `i64::MAX` panics in the parse. */
  lemma LexNumeral(n: nat, c: char)
    requires !Decimal.IsDigit(c) && c != Nul && IsAscii(c)
    ensures n <= I64Max ==> Lex(Decimal.Show(n) + [c], 1) == Ok([Token(Int(n), Decimal.Show(n))])
    ensures n > I64Max ==> Lex(Decimal.Show(n) + [c], 1) == Err(IntOverflow)
  {
    var digits := Decimal.Show(n);
    var text := digits + [c];
    var e := |digits|;
    assert forall i | 0 <= i < e :: text[i] == digits[i];
    assert WellFormed(text);
    LexStart(text, 1);
    var lx := At(text, 0);
    NextTokenNumber(lx, e);
    assert text[0..e] == digits;
    Decimal.ValueOfShow(n);
    if n <= I64Max {
      assert NextToken(lx) == Ok(Step(Token(Int(n), digits), At(text, e)));
      RunOne(lx, Token(Int(n), digits), At(text, e));
    } else {
      assert NextToken(lx) == Err(IntOverflow);
      RunPanics(lx, 0);
    }
  }

  /** A numeral at the very end of the input panics in `back_char`. */
  lemma LexNumeralAtEnd(n: nat)
    ensures WellFormed(Decimal.Show(n))
    ensures Lex(Decimal.Show(n), 1) == Err(CharOutOfRange)
  {
    var text := Decimal.Show(n);
    assert WellFormed(text);
    var lx := At(text, 0);
    assert New(text) == Ok(lx);
    NextTokenNumber(lx, |text|);
    RunPanics(lx, 0);
  }

  /** A word followed by any non-letter lexes to its keyword or identifier
      token; a word at the very end of the input panics in `back_char`. */
  lemma LexWord(w: string, c: char)
    requires |w| > 0 && WellFormed(w) && forall i | 0 <= i < |w| :: IsLetter(w[i])
    requires !IsLetter(c) && c != Nul && IsAscii(c)
    ensures Lex(w + [c], 1) == Ok([WordToken(w)])
    ensures Lex(w, 1) == Err(CharOutOfRange)
  {
    var text := w + [c];
    assert forall i | 0 <= i < |w| :: text[i] == w[i];
    assert WellFormed(text);
    var lx := At(text, 0);
    assert New(text) == Ok(lx);
    NextTokenWord(lx, |w|);
    assert text[0..|w|] == w;
    RunOne(lx, WordToken(w), At(text, |w|));
    var lw := At(w, 0);
    assert New(w) == Ok(lw);
    NextTokenWord(lw, |w|);
    RunPanics(lw, 0);
  }
}
