/** The written form of each token and the round trip through one
    `next_token` call: a token written after some whitespace is read back
    as itself, provided the char after it does not continue it. */
module Lexemes {
  import opened Wrappers
  import opened Tokens
  import opened Lexing
  import opened LexerProperties
  import Decimal

  /** The fixed literal of each operator and delimiter kind. */
  function Spelling(k: TokenType): Option<string> {
    match k
    case Assign => Some("=")
    case Plus => Some("+")
    case Minus => Some("-")
    case Asterisk => Some("*")
    case FSlash => Some("/")
    case Bang => Some("!")
    case Lt => Some("<")
    case Gt => Some(">")
    case Eq => Some("==")
    case NotEq => Some("!=")
    case Comma => Some(",")
    case Semicolon => Some(";")
    case LParen => Some("(")
    case RParen => Some(")")
    case LBrace => Some("{")
    case RBrace => Some("}")
    case _ => None
  }

  /** The single-char arms of `next_token` produce exactly the kinds spelled
      by one char other than `=` and `!`. */
  lemma PunctuationSpelling(c: char, k: TokenType)
    ensures Punctuation(c) == Some(k) <==> Spelling(k) == Some([c]) && c != '=' && c != '!'
  {
  }

  predicate AllLetters(s: string) {
    forall i | 0 <= i < |s| :: IsLetter(s[i])
  }

  /** A word token: a keyword or an identifier. */
  predicate IsWordKind(k: TokenType) {
    k.Ident? || IsKeywordKind(k)
  }

  /** The tokens that can be written down as their own literal: words,
      integers in numeral form and the operators and delimiters. */
  predicate Lexeme(t: Token) {
    if IsWordKind(t.kind) then
      |t.literal| > 0 && AllLetters(t.literal) && t == WordToken(t.literal)
    else if t.kind.Int? then
      |t.literal| > 0 && Decimal.AllDigits(t.literal) && t.kind.value == Decimal.Value(t.literal)
    else
      Spelling(t.kind) == Some(t.literal)
  }

  /** Token `t` ends where its literal ends when `c` is the char after it
      (`Nul` at the end of the text): a word or a numeral needs a char
      after it that does not continue it, and `=` or `!` must not be
      followed by `=`. */
  predicate EndsBefore(t: Token, c: char) {
    if IsWordKind(t.kind) then c != Nul && !IsLetter(c)
    else if t.kind.Int? then c != Nul && !Decimal.IsDigit(c)
    else if t.kind == Assign || t.kind == Bang then c != '='
    else true
  }

  /** The first char of a lexeme is never whitespace and never `Nul`, and
      the literal is ASCII. */
  lemma LexemeChars(t: Token)
    requires Lexeme(t)
    ensures |t.literal| > 0 && !IsWhitespace(t.literal[0])
    ensures WellFormed(t.literal)
  {
    if !IsWordKind(t.kind) && !t.kind.Int? {
      match t.kind
      case Assign =>
      case Plus =>
      case Minus =>
      case Asterisk =>
      case FSlash =>
      case Bang =>
      case Lt =>
      case Gt =>
      case Eq =>
      case NotEq =>
      case Comma =>
      case Semicolon =>
      case LParen =>
      case RParen =>
      case LBrace =>
      case RBrace =>
    }
  }

  /** The classification of the cursor's char yields token `t` and a lexer
      whose `readPosition` is `end`: the final `read_char` of `next_token`
      then lands on `end`. */
  predicate ClassifiesTo(lx: Lexer, t: Token, end: int)
    requires Valid(lx)
  {
    && Classify(lx).Ok?
    && Classify(lx).value.0 == t
    && Classify(lx).value.1.input == lx.input
    && Classify(lx).value.1.readPosition == end
  }

  /** An operator or delimiter lexeme at the cursor is classified as its
      token, taking the lookahead char too for `==` and `!=`. */
  lemma ClassifySymbolLexeme(lx: Lexer, t: Token)
    requires Valid(lx) && !IsWordKind(t.kind) && !t.kind.Int? && Lexeme(t)
    requires lx.position + |t.literal| <= |lx.input|
    requires lx.input[lx.position..lx.position + |t.literal|] == t.literal
    requires EndsBefore(t, CharAt(lx.input, lx.position + |t.literal|))
    ensures ClassifiesTo(lx, t, lx.position + |t.literal|)
  {
    var s := lx.input;
    var g := lx.position;
    assert s[g] == t.literal[0];
    if t.kind == Eq || t.kind == NotEq {
      assert s[g + 1] == t.literal[1];
    } else if t.kind != Assign && t.kind != Bang {
      PunctuationSpelling(s[g], t.kind);
    }
    assert Classify(lx) == Ok(Symbol(lx));
  }

  /** A word lexeme at the cursor is classified as its keyword or
      identifier token. */
  lemma ClassifyWordLexeme(lx: Lexer, t: Token)
    requires Valid(lx) && IsWordKind(t.kind) && Lexeme(t)
    requires lx.position + |t.literal| <= |lx.input|
    requires lx.input[lx.position..lx.position + |t.literal|] == t.literal
    requires EndsBefore(t, CharAt(lx.input, lx.position + |t.literal|))
    ensures ClassifiesTo(lx, t, lx.position + |t.literal|)
  {
    var s := lx.input;
    var g := lx.position;
    var e := g + |t.literal|;
    assert forall i | g <= i < e :: s[i] == t.literal[i - g];
    ClassifyWord(lx);
    ParseStringTo(lx, e);
  }

  /** A numeral lexeme at the cursor is classified as its integer token. */
  lemma ClassifyIntLexeme(lx: Lexer, t: Token)
    requires Valid(lx) && t.kind.Int? && Lexeme(t)
    requires lx.position + |t.literal| <= |lx.input|
    requires lx.input[lx.position..lx.position + |t.literal|] == t.literal
    requires EndsBefore(t, CharAt(lx.input, lx.position + |t.literal|))
    ensures ClassifiesTo(lx, t, lx.position + |t.literal|)
  {
    ParseNumberLexeme(lx, t);
    ClassifyNumber(lx);
  }

  /** `parse_number` on a numeral written at the cursor reads exactly that
      numeral. */
  lemma ParseNumberLexeme(lx: Lexer, t: Token)
    requires Positioned(lx) && t.kind.Int? && Lexeme(t)
    requires lx.position + |t.literal| < |lx.input|
    requires lx.input[lx.position..lx.position + |t.literal|] == t.literal
    requires !Decimal.IsDigit(lx.input[lx.position + |t.literal|])
    ensures Decimal.IsDigit(lx.currentChar)
    ensures ParseNumber(lx) == Ok((t, Lexer(lx.input, lx.position + |t.literal| - 1, lx.position + |t.literal|, lx.input[lx.position + |t.literal|])))
  {
    var g := lx.position;
    var e := g + |t.literal|;
    assert forall i | g <= i < e :: lx.input[i] == t.literal[i - g];
    ParseNumberTo(lx, e);
  }

  /** A lexeme at the cursor is classified as its token. */
  lemma ClassifyLexeme(lx: Lexer, t: Token)
    requires Valid(lx) && Lexeme(t) && lx.position + |t.literal| <= |lx.input|
    requires lx.input[lx.position..lx.position + |t.literal|] == t.literal
    requires EndsBefore(t, CharAt(lx.input, lx.position + |t.literal|))
    ensures ClassifiesTo(lx, t, lx.position + |t.literal|)
  {
    if IsWordKind(t.kind) {
      ClassifyWordLexeme(lx, t);
    } else if t.kind.Int? {
      ClassifyIntLexeme(lx, t);
    } else {
      ClassifySymbolLexeme(lx, t);
    }
  }

  /** A classification that succeeds is what `next_token` returns, after
      the whitespace in front of it, with the cursor moved to the end. */
  lemma NextTokenClassifiesTo(lx: Lexer, g: int, t: Token, end: nat)
    requires Valid(lx) && lx.position <= g <= |lx.input|
    requires forall i | lx.position <= i < g :: IsWhitespace(lx.input[i])
    requires !IsWhitespace(CharAt(lx.input, g))
    requires Valid(At(lx.input, g)) && ClassifiesTo(At(lx.input, g), t, end)
    ensures NextToken(lx) == Ok(Step(t, At(lx.input, end)))
  {
    SkipWhitespaceTo(lx, g);
    var c := Classify(At(lx.input, g));
    assert ReadChar(c.value.1) == At(lx.input, end);
    assert NextToken(lx) == Ok(Step(c.value.0, ReadChar(c.value.1)));
  }

  /** A lexeme written at index `g` puts a valid cursor on a non-whitespace
      char there, and that cursor is classified as the lexeme's token. */
  lemma LexemeAt(text: string, g: nat, t: Token)
    requires WellFormed(text) && g + |t.literal| <= |text|
    requires text[g..g + |t.literal|] == t.literal
    requires Lexeme(t) && EndsBefore(t, CharAt(text, g + |t.literal|))
    ensures Valid(At(text, g)) && !IsWhitespace(CharAt(text, g))
    ensures ClassifiesTo(At(text, g), t, g + |t.literal|)
  {
    LexemeChars(t);
    assert text[g] == t.literal[0];
    ClassifyLexeme(At(text, g), t);
  }

  /** One `next_token` call over a gap and a lexeme that ends before the
      next char yields that lexeme's token and leaves the cursor right
      after its literal. */
  lemma NextTokenLexeme(lx: Lexer, g: nat, t: Token)
    requires Valid(lx) && lx.position <= g && g + |t.literal| <= |lx.input|
    requires forall i | lx.position <= i < g :: IsWhitespace(lx.input[i])
    requires lx.input[g..g + |t.literal|] == t.literal
    requires Lexeme(t) && EndsBefore(t, CharAt(lx.input, g + |t.literal|))
    ensures NextToken(lx) == Ok(Step(t, At(lx.input, g + |t.literal|)))
  {
    LexemeAt(lx.input, g, t);
    NextTokenClassifiesTo(lx, g, t, g + |t.literal|);
  }
}
