/** The lexer of src/interpreter/lexer.rs: a character cursor over the
    source text that yields one token per `NextToken` call.

    Input is restricted to ASCII text without NUL (`WellFormed`): on such
    text the source's byte-length bounds agree with its char indexing, and
    `char::is_alphabetic` / `char::is_whitespace` agree with `IsLetter` /
    `IsWhitespace` below. */
module Lexing {
  import opened Wrappers
  import opened Tokens
  import Decimal

  /** The sentinel `'\u{0}'` that stands for "past the end of input". */
  const Nul: char := '\0'

  /** The ways the source program panics while lexing. */
  datatype Panic =
    | EmptyInput      // `new` unwraps the first char of an empty string
    | CharOutOfRange  // `back_char` unwraps a char index past the end
    | IntOverflow     // `parse::<i64>` rejects a digit run above i64::MAX

  /* ---------------------------------------------------------------------
     Keyword table
     --------------------------------------------------------------------- */

  /** The reserved words, in the order the source searches them. */
  const Keywords: seq<(string, TokenType)> := [
    ("lambda", Func),
    ("let", Let),
    ("true", True),
    ("false", False),
    ("return", Return),
    ("if", If),
    ("else", Else)
  ]

  /** The spellings in the first column of the table. */
  const KeywordSpellings: set<string> := set i | 0 <= i < |Keywords| :: Keywords[i].0

  /** The first entry of `table` spelled `word`, as the source's `for` loop
      over the table finds it. */
  function Search(word: string, table: seq<(string, TokenType)>): (r: Option<TokenType>)
    ensures r.None? <==> forall i | 0 <= i < |table| :: table[i].0 != word
    ensures r.Some? ==> exists i | 0 <= i < |table| :: table[i] == (word, r.value)
  {
    if |table| == 0 then None
    else if table[0].0 == word then Some(table[0].1)
    else
      var r := Search(word, table[1..]);
      assert forall i | 1 <= i < |table| :: table[i] == table[1..][i - 1];
      r
  }

  /** `lookup_keyword`: the keyword kind of a reserved word, `None` for
      every other word (the full table is stated by `LookupKeywordTable`). */
  function LookupKeyword(word: string): (r: Option<TokenType>)
    ensures r.Some? ==> IsKeywordKind(r.value)
  {
    Search(word, Keywords)
  }

  /** `lookup_keyword` answers exactly the seven reserved words. */
  lemma LookupKeywordTable(word: string)
    ensures LookupKeyword(word) == Some(Func) <==> word == "lambda"
    ensures LookupKeyword(word) == Some(Let) <==> word == "let"
    ensures LookupKeyword(word) == Some(True) <==> word == "true"
    ensures LookupKeyword(word) == Some(False) <==> word == "false"
    ensures LookupKeyword(word) == Some(Return) <==> word == "return"
    ensures LookupKeyword(word) == Some(If) <==> word == "if"
    ensures LookupKeyword(word) == Some(Else) <==> word == "else"
    ensures LookupKeyword(word).None? <==> word !in KeywordSpellings
  {
  }

  /** The token a scanned word becomes: its keyword kind if it is reserved,
      otherwise an identifier carrying the word itself. */
  function WordToken(word: string): (t: Token)
    ensures t.literal == word
    ensures t.kind.Ident? <==> LookupKeyword(word).None?
    ensures t.kind.Ident? ==> t.kind.name == word
    ensures !t.kind.Ident? ==> LookupKeyword(word) == Some(t.kind) && IsKeywordKind(t.kind)
  {
    match LookupKeyword(word)
    case Some(k) => Token(k, word)
    case None => Token(Ident(word), word)
  }

  /* ---------------------------------------------------------------------
     Character classes (ASCII)
     --------------------------------------------------------------------- */

  predicate IsAscii(c: char) {
    c as int < 128
  }

  /** The text the model accepts: ASCII without NUL. */
  predicate WellFormed(s: string) {
    forall i | 0 <= i < |s| :: s[i] != Nul && IsAscii(s[i])
  }

  /** `is_letter`: `char::is_alphabetic` or `_`. A letter is never a digit,
      whitespace or the sentinel, so the order of the tests in `next_token`
      does not matter for it. */
  predicate IsLetter(c: char): (b: bool)
    ensures b ==> IsAscii(c) && c != Nul && !Decimal.IsDigit(c) && !IsWhitespace(c)
  {
    'a' <= c <= 'z' || 'A' <= c <= 'Z' || c == '_'
  }

  /** `char::is_whitespace` on ASCII: space, tab, line feed, vertical tab,
      form feed and carriage return. Whitespace is never a digit or the
      sentinel. */
  predicate IsWhitespace(c: char): (b: bool)
    ensures b ==> IsAscii(c) && c != Nul && !Decimal.IsDigit(c)
  {
    c == ' ' || c == '\t' || c == '\n' || c == '\U{000B}' || c == '\U{000C}' || c == '\r'
  }

  /** The three char classes the lexer scans runs of. */
  datatype CharClass = Whitespace | Letter | Digit

  predicate InClass(c: char, cls: CharClass) {
    match cls
    case Whitespace => IsWhitespace(c)
    case Letter => IsLetter(c)
    case Digit => Decimal.IsDigit(c)
  }

  /* ---------------------------------------------------------------------
     The cursor
     --------------------------------------------------------------------- */

  /** `Lexer`: the text and a cursor over it. */
  datatype Lexer = Lexer(input: string, position: int, readPosition: int, currentChar: char)

  /** The char at index `i`, or the sentinel when `i` is outside the text
      (a negative `i64` cast to `usize` is past every end, too). */
  function CharAt(s: string, i: int): char {
    if 0 <= i < |s| then s[i] else Nul
  }

  /** The cursor shape between two `NextToken` calls: `readPosition` is one
      past `position` and `currentChar` is the char at `position`. */
  predicate Positioned(lx: Lexer) {
    0 <= lx.position && lx.readPosition == lx.position + 1
    && lx.currentChar == CharAt(lx.input, lx.position)
  }

  predicate Valid(lx: Lexer) {
    WellFormed(lx.input) && Positioned(lx)
  }

  /** `new`: a lexer on the first char; empty input panics. */
  function New(i: string): (r: Result<Lexer, Panic>)
    ensures r.Err? <==> |i| == 0
    ensures r.Err? ==> r.error == EmptyInput
    ensures r.Ok? ==> r.value.input == i && r.value.position == 0 && r.value.currentChar == i[0]
    ensures r.Ok? && WellFormed(i) ==> Valid(r.value)
  {
    if |i| == 0 then Err(EmptyInput) else Ok(Lexer(i, 0, 1, i[0]))
  }

  /** `read_char`: advance to `readPosition`, reading the sentinel there
      when it is past the end. */
  function ReadChar(lx: Lexer): (r: Lexer)
    ensures r.input == lx.input
    ensures r.position == lx.readPosition && r.readPosition > lx.readPosition
    ensures lx.readPosition >= 0 ==> Positioned(r)
    ensures WellFormed(lx.input) ==>
              (r.currentChar == Nul <==> !(0 <= lx.readPosition < |lx.input|))
  {
    Lexer(lx.input, lx.readPosition, lx.readPosition + 1, CharAt(lx.input, lx.readPosition))
  }

  /** `back_char`: step both indices back by one and re-read the char at
      the new `readPosition` (not at `position`); the unwrap panics when
      that index is not inside the text. */
  function BackChar(lx: Lexer): (r: Result<Lexer, Panic>)
    ensures r.Ok? <==> 0 < lx.readPosition <= |lx.input|
    ensures r.Err? ==> r.error == CharOutOfRange
    ensures r.Ok? ==>
              && r.value.input == lx.input
              && r.value.position == lx.position - 1
              && r.value.readPosition == lx.readPosition - 1
              && r.value.currentChar == lx.input[r.value.readPosition]
  {
    if 0 <= lx.readPosition - 1 < |lx.input| then
      Ok(Lexer(lx.input, lx.position - 1, lx.readPosition - 1, lx.input[lx.readPosition - 1]))
    else
      Err(CharOutOfRange)
  }

  /** `peek_ahead`: the char the next `ReadChar` would read, without moving. */
  function PeekAhead(lx: Lexer): (c: char)
    ensures c == ReadChar(lx).currentChar
    ensures ReadChar(lx).input == lx.input
    ensures Positioned(lx) ==> c == CharAt(lx.input, lx.position + 1)
  {
    if 0 <= lx.readPosition < |lx.input| then lx.input[lx.readPosition] else Nul
  }

  /** Read chars while the current one is of class `cls`: the loop shape of
      `skip_whitespace`, `read_identifier` and `parse_number`. The cursor
      stops on the first char at or after `position` outside `cls`. */
  function ScanWhile(lx: Lexer, cls: CharClass): (r: Lexer)
    requires Positioned(lx)
    ensures r.input == lx.input && Positioned(r)
    ensures lx.position <= r.position
    ensures r.position == lx.position || r.position <= |lx.input|
    ensures forall i | lx.position <= i < r.position :: InClass(lx.input[i], cls)
    ensures !InClass(r.currentChar, cls)
    decreases |lx.input| - lx.position
  {
    if InClass(lx.currentChar, cls) then ScanWhile(ReadChar(lx), cls) else lx
  }

  /** `skip_whitespace`. */
  function SkipWhitespace(lx: Lexer): (r: Lexer)
    requires Positioned(lx)
    ensures r.input == lx.input && Positioned(r)
    ensures lx.position <= r.position
    ensures r.position == lx.position || r.position <= |lx.input|
    ensures forall i | lx.position <= i < r.position :: IsWhitespace(lx.input[i])
    ensures !IsWhitespace(r.currentChar)
  {
    ScanWhile(lx, Whitespace)
  }

  /** The scan of `read_identifier` and of `parse_number`: read the maximal
      run of chars of class `cls` from `position`, step back with
      `BackChar` and slice the run out of the text. A run that reaches the
      end of the text makes `BackChar` panic. Afterwards `position` is on
      the run's last char while `currentChar` is already the char after it. */
  function ReadRun(lx: Lexer, cls: CharClass): (r: Result<(string, Lexer), Panic>)
    requires Positioned(lx) && InClass(lx.currentChar, cls)
    ensures r.Err? <==> forall i | lx.position <= i < |lx.input| :: InClass(lx.input[i], cls)
    ensures r.Err? ==> r.error == CharOutOfRange
    ensures r.Ok? ==>
              var word := r.value.0;
              var end := lx.position + |word|;
              && 0 < |word| && end < |lx.input|
              && word == lx.input[lx.position..end]
              && (forall i | 0 <= i < |word| :: InClass(word[i], cls))
              && !InClass(lx.input[end], cls)
              && r.value.1 == Lexer(lx.input, end - 1, end, lx.input[end])
  {
    var scanned := ScanWhile(lx, cls);
    assert lx.position < scanned.position;
    if scanned.position == |lx.input| then
      assert forall i | lx.position <= i < |lx.input| :: InClass(lx.input[i], cls);
      Err(CharOutOfRange)
    else
      assert !InClass(lx.input[scanned.position], cls);
      var back := BackChar(scanned).value;
      Ok((lx.input[lx.position..back.position + 1], back))
  }

  /** `parse_string`: scan a word and classify it as keyword or identifier. */
  function ParseString(lx: Lexer): (r: Result<(Token, Lexer), Panic>)
    requires Positioned(lx) && IsLetter(lx.currentChar)
    ensures r.Err? <==> forall i | lx.position <= i < |lx.input| :: IsLetter(lx.input[i])
    ensures r.Err? ==> r.error == CharOutOfRange
    ensures r.Ok? ==>
              var tok := r.value.0;
              && var end := lx.position + |tok.literal|;
              && end < |lx.input|
              && 0 < |tok.literal| && tok.literal == lx.input[lx.position..end]
              && (forall i | 0 <= i < |tok.literal| :: IsLetter(tok.literal[i]))
              && !IsLetter(lx.input[end])
              && r.value.1 == Lexer(lx.input, end - 1, end, lx.input[end])
              && tok == WordToken(tok.literal)
  {
    var read :- ReadRun(lx, Letter);
    Ok((WordToken(read.0), read.1))
  }

  /** `parse_number`: scan a digit run and parse it as an `i64`; a run whose
      value exceeds `i64::MAX` panics. */
  function ParseNumber(lx: Lexer): (r: Result<(Token, Lexer), Panic>)
    requires Positioned(lx) && Decimal.IsDigit(lx.currentChar)
    ensures r.Err? && r.error == CharOutOfRange <==>
              forall i | lx.position <= i < |lx.input| :: Decimal.IsDigit(lx.input[i])
    ensures r.Ok? || r.error != EmptyInput
    ensures r.Err? && r.error == IntOverflow ==>
              exists end | lx.position < end < |lx.input| ::
                && (forall i | lx.position <= i < end :: Decimal.IsDigit(lx.input[i]))
                && !Decimal.IsDigit(lx.input[end])
                && Decimal.Value(lx.input[lx.position..end]) > I64Max
    ensures r.Ok? ==>
              var tok := r.value.0;
              && tok.kind.Int?
              && var end := lx.position + |tok.literal|;
              && end < |lx.input|
              && tok.literal == lx.input[lx.position..end]
              && !Decimal.IsDigit(lx.input[end])
              && r.value.1 == Lexer(lx.input, end - 1, end, lx.input[end])
              && 0 < |tok.literal| && Decimal.AllDigits(tok.literal)
              && tok.kind.value == Decimal.Value(tok.literal)
  {
    var read :- ReadRun(lx, Digit);
    var digits := read.0;
    var n := Decimal.Value(digits);
    if n > I64Max then
      assert !Decimal.IsDigit(lx.input[lx.position + |digits|]);
      Err(IntOverflow)
    else
      Ok((Token(Int(n), digits), read.1))
  }

  /* ---------------------------------------------------------------------
     next_token
     --------------------------------------------------------------------- */

  /** The single-char operators and delimiters. `=` and `!` are not here:
      they depend on the next char. `[` and `]` are not here either. */
  function Punctuation(c: char): Option<TokenType> {
    match c
    case ';' => Some(Semicolon)
    case '(' => Some(LParen)
    case ')' => Some(RParen)
    case '{' => Some(LBrace)
    case '}' => Some(RBrace)
    case ',' => Some(Comma)
    case '+' => Some(Plus)
    case '<' => Some(Lt)
    case '>' => Some(Gt)
    case '*' => Some(Asterisk)
    case '/' => Some(FSlash)
    case '-' => Some(Minus)
    case _ => None
  }

  /** The placeholder literal of an illegal token. */
  const IllegalLiteral: string := "something horrible"

  /** One `next_token` call: the token and the lexer after it. */
  datatype Step = Step(token: Token, next: Lexer)

  /** The chars `next_token` matches explicitly: operators, delimiters and
      the end-of-input sentinel. */
  predicate IsSymbol(c: char) {
    c == '=' || c == '!' || Punctuation(c).Some? || c == Nul
  }

  /** The explicit arms of the `match` in `next_token`. `=` and `!` peek at
      the next char and take it too when it is `=`. The returned lexer has
      not yet taken the final `read_char`. */
  function Symbol(s: Lexer): (r: (Token, Lexer))
    requires Valid(s) && IsSymbol(s.currentChar)
    ensures r.1.input == s.input && r.1.readPosition == s.position + |r.0.literal| + (if r.0.kind == Eof then 1 else 0)
    ensures r.0.kind != Eof ==> r.1.readPosition <= |s.input| && r.0.literal == s.input[s.position..r.1.readPosition]
    ensures r.0.kind == Eof <==> s.position >= |s.input|
    ensures r.0.kind == Eof ==> r.0.literal == ""
    ensures r.0.kind !in {Illegal, LSquare, RSquare} && !r.0.kind.Ident? && !r.0.kind.Int?
  {
    var c := s.currentChar;
    if c == Nul then
      (Token(Eof, ""), s)
    else
      assert s.position < |s.input| && s.input[s.position] == c;
      assert s.input[s.position..s.position + 1] == [c];
      assert PeekAhead(s) == '=' ==> s.input[s.position..s.position + 2] == [c, '='];
      if c == '=' then
        if PeekAhead(s) == '=' then (Token(Eq, "=="), ReadChar(s))
        else (Token(Assign, "="), s)
      else if c == '!' then
        if PeekAhead(s) == '=' then (Token(NotEq, "!="), ReadChar(s))
        else (Token(Bang, "!"), s)
      else
        (Token(Punctuation(c).value, [c]), s)
  }

  /** The `match` of `next_token` on a lexer whose whitespace has been
      skipped. The returned lexer has not yet taken the final `read_char`:
      its `readPosition` is the index just after the token. */
  function Classify(s: Lexer): (r: Result<(Token, Lexer), Panic>)
    requires Valid(s)
    ensures r.Err? ==> r.error != EmptyInput
    ensures r.Ok? ==> r.value.1.input == s.input && s.position < r.value.1.readPosition
    ensures r.Ok? ==> r.value.0.kind != LSquare && r.value.0.kind != RSquare
    ensures r.Ok? && r.value.0.kind.Ident? ==>
              r.value.0.kind.name == r.value.0.literal
              && LookupKeyword(r.value.0.literal).None?
    ensures r.Ok? && r.value.0.kind.Int? ==>
              0 <= r.value.0.kind.value
              && Decimal.AllDigits(r.value.0.literal)
              && r.value.0.kind.value == Decimal.Value(r.value.0.literal)
  {
    var c := s.currentChar;
    if IsSymbol(c) then
      Ok(Symbol(s))
    else if IsLetter(c) then
      ParseString(s)
    else if Decimal.IsDigit(c) then
      ParseNumber(s)
    else
      Ok((Token(Illegal, IllegalLiteral), s))
  }

  /** `next_token`: skip whitespace, classify the current char, then read one
      more char so the cursor is on the char after the token. */
  function NextToken(lx: Lexer): (r: Result<Step, Panic>)
    requires Valid(lx)
    ensures r.Ok? ==> Valid(r.value.next) && r.value.next.input == lx.input
    ensures r.Ok? ==> SkipWhitespace(lx).position < r.value.next.position
    ensures r.Err? ==> r.error != EmptyInput
    ensures r.Ok? ==> r.value.token.kind != LSquare && r.value.token.kind != RSquare
    ensures r.Ok? && r.value.token.kind.Ident? ==>
              r.value.token.kind.name == r.value.token.literal
              && LookupKeyword(r.value.token.literal).None?
    ensures r.Ok? && r.value.token.kind.Int? ==>
              0 <= r.value.token.kind.value
              && Decimal.AllDigits(r.value.token.literal)
              && r.value.token.kind.value == Decimal.Value(r.value.token.literal)
  {
    var scanned :- Classify(SkipWhitespace(lx));
    Ok(Step(scanned.0, ReadChar(scanned.1)))
  }

  /* ---------------------------------------------------------------------
     Driving the lexer
     --------------------------------------------------------------------- */

  /** The tokens of `n` successive `next_token` calls, or the panic that
      stops them. */
  function Run(lx: Lexer, n: nat): (r: Result<seq<Token>, Panic>)
    requires Valid(lx)
    ensures r.Ok? ==> |r.value| == n
    ensures r.Err? ==> r.error != EmptyInput
    decreases n
  {
    if n == 0 then Ok([])
    else
      var step :- NextToken(lx);
      var rest :- Run(step.next, n - 1);
      Ok([step.token] + rest)
  }

  /** `new` followed by `n` calls of `next_token`. */
  function Lex(text: string, n: nat): (r: Result<seq<Token>, Panic>)
    requires WellFormed(text)
    ensures r.Err? && r.error == EmptyInput <==> |text| == 0
    ensures r.Ok? ==> |r.value| == n
  {
    var lx :- New(text);
    Run(lx, n)
  }
}
