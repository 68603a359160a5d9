# A verified model of the interpreter's lexer

This project models the lexer of a small interpreter in Dafny:
- `src/interpreter/lexer.rs`: the keyword table, the character cursor and `next_token`;
- `src/interpreter/token.rs`: the token kinds and the `Token` record.

The source drives a mutable cursor. The model is an immutable `Lexer` value with the same four fields:
- the text;
- `position`;
- `readPosition`;
- `currentChar`.

Each operation is a pure function from one cursor to the next. Every panic of the lexer's own logic becomes an explicit `Err` outcome:
- `new` on an empty string;
- `back_char` unwrapping a char past the end of the text;
- `parse::<i64>` on a digit run above `i64::MAX`.

One panic is not modelled: the `i64` overflow of `read_position += 1` (src/interpreter/lexer.rs:43) in a debug build. The indices are unbounded, so the model's promises hold below that bound (see "## Left out").

Modules:
- `Wrappers`: `Option` and a `Result` whose error is the kind of panic.
- `Tokens`: `TokenType` and `Token`. The `Int` payload is bounded to the `i64` range.
- `Decimal`: the value of a run of ASCII digits, and the numeral of a natural number. They are inverse to each other.
- `Lexing`: the keyword table and the cursor operations:
  - `read_char`, `back_char`, `peek_ahead`, `skip_whitespace`;
  - the word and number scans;
  - `next_token`.

  It also defines `Run`, `n` successive `next_token` calls, and `Lex`, `new` followed by such a run. These are the way the unit tests drive the lexer.
- `LexerProperties`: each arm of `next_token` stated against a declarative description of the text:
  - whitespace skipping;
  - the end-of-input sentinel that repeats forever;
  - the `back_char` quirk;
  - the keyword table's reach;
  - whole-input round trips for numerals and words.
- `Lexemes`: the written form of every word, integer, operator and delimiter token. One `next_token` call over optional whitespace and a lexeme yields that lexeme's token and leaves the cursor right after it.

The text is restricted to ASCII without NUL (`Lexing.WellFormed`). On such text:
- the source's byte-length bounds agree with its char indexing;
- `char::is_alphabetic` is `a-z` and `A-Z`;
- `char::is_whitespace`, which `skip_whitespace` calls (src/interpreter/lexer.rs:156), is space, tab, line feed, vertical tab, form feed and carriage return; `Lexing.IsWhitespace` is exactly these six.

Two quirks are kept as written:
- `back_char` re-reads the char at the new `read_position`, not at `position`. So after a word or number, `position` is on the last char of the run while `currentChar` is already the char after it.
- A word or number that ends at the last char of the text makes `back_char` panic.

## Model

| member | source | states |
|---|---|---|
| Tokens.TokenEqualityIsStructural | src/interpreter/token.rs:1-48 | The derived equality: two tokens are equal exactly when kind, payload and literal are equal. |
| Lexing.Search | src/interpreter/lexer.rs:14-22 | The table search answers `None` exactly when no entry is spelled `word`. A `Some` answer is the kind of an entry spelled `word`. |
| Lexing.LookupKeyword | src/interpreter/lexer.rs:14-22 | Every answer of `lookup_keyword` is one of the seven keyword kinds. |
| Lexing.LookupKeywordTable | src/interpreter/lexer.rs:4-22 | Each keyword kind is answered for exactly its one spelling (`lambda` for `Func`, and so on). Every other word gets `None`. |
| Lexing.WordToken | src/interpreter/lexer.rs:107-118 | A scanned word becomes its keyword kind when reserved. Otherwise it becomes an identifier whose payload is the word. The literal is the word in both cases. |
| Lexing.New | src/interpreter/lexer.rs:170-177 | `new` panics exactly on empty input. Otherwise the cursor is on index 0 with the first char current, and the cursor invariant holds. |
| Lexing.ReadChar | src/interpreter/lexer.rs:33-45 | `read_char` moves `position` to `readPosition` and strictly increases `readPosition`. It restores the cursor invariant. It reads the NUL sentinel exactly when the index is outside the text. |
| Lexing.BackChar | src/interpreter/lexer.rs:47-51 | `back_char` succeeds exactly when the new `readPosition` indexes the text. It steps both indices back by one and makes the char at the new `readPosition` current. |
| Lexing.PeekAhead | src/interpreter/lexer.rs:161-167 | `peek_ahead` is the char the next `read_char` would read, that is the char after the cursor or NUL. |
| Lexing.IsLetter | src/interpreter/lexer.rs:147-149 | `is_letter` on ASCII: `a-z`, `A-Z` and `_`. A letter is never a digit, whitespace or the NUL sentinel, so the order of the tests in `next_token` does not matter for it. |
| Decimal.IsDigit | src/interpreter/lexer.rs:151-153 | `is_digit`: the ten ASCII digits `0-9`, never the NUL sentinel. |
| Lexing.IsWhitespace | src/interpreter/lexer.rs:156 | The `char::is_whitespace` test of `skip_whitespace` on ASCII: space, tab, line feed, vertical tab, form feed and carriage return, never a digit or the sentinel. |
| Decimal.Value | src/interpreter/lexer.rs:133 | `parse::<i64>` on a digit run: its decimal value, most significant digit first, with leading zeros allowed. A run of `k` digits is below `10^k`. The overflow check against `i64::MAX` is in `Lexing.ParseNumber`. |
| Lexing.ScanWhile | src/interpreter/lexer.rs:155-159 | The read-while loop stops on the first char at or after the cursor outside the class. Every char it passed is in the class. |
| Lexing.SkipWhitespace | src/interpreter/lexer.rs:155-159 | `skip_whitespace` passes only whitespace and stops on a non-whitespace char or the sentinel. |
| Lexing.ReadRun | src/interpreter/lexer.rs:97-105 | The scan of `read_identifier` panics exactly when the run reaches the end of the text. Otherwise it returns the maximal run as a slice of the text, with `position` on the run's last char and the following char current. |
| Lexing.ParseString | src/interpreter/lexer.rs:107-118 | `parse_string` returns as literal the non-empty, maximal run of letters from the cursor, a slice of the text, classified by the keyword table. It panics exactly when the letters reach the end. |
| Lexing.ParseNumber | src/interpreter/lexer.rs:120-145 | `parse_number` returns an `Int` whose literal is the non-empty, maximal digit run and whose value is that run's decimal value. The run reaching the end panics in `back_char`, and no other outcome is that panic. The overflow panic happens only when the maximal run stops before the end and its value exceeds `i64::MAX`. |
| Lexing.Symbol | src/interpreter/lexer.rs:55-82 | The explicit arms of the match: the literal is exactly the text consumed, and EOF comes exactly past the end with an empty literal. No arm yields an identifier, integer, illegal or bracket token. |
| Lexing.Classify | src/interpreter/lexer.rs:55-90 | The classification never yields `LSquare` or `RSquare`, and it always moves past the cursor. Identifiers never carry a keyword spelling, and integers are non-negative and carry their literal's value. |
| Lexing.NextToken | src/interpreter/lexer.rs:53-95 | After `next_token` the cursor invariant holds on the same text, and the cursor is past the skipped whitespace. The token-kind guarantees of the classification also hold. |
| Lexing.Run | src/interpreter/lexer.rs:200-205 | `n` successive calls yield exactly `n` tokens, or the panic that stopped them. |
| Lexing.Lex | src/interpreter/lexer.rs:200-205 | `new` then `n` calls: the empty-input panic happens exactly on empty text, and a success has `n` tokens. |
| LexerProperties.SkipWhitespaceTo | src/interpreter/lexer.rs:155-159 | `skip_whitespace` stops exactly at the first non-whitespace index `k`, leaving the cursor on `k`. |
| LexerProperties.WhitespaceSkipped | src/interpreter/lexer.rs:53-54 | `next_token` gives the same result before and after the whitespace in front of the cursor. |
| LexerProperties.NextTokenSkips | src/interpreter/lexer.rs:53-55 | `next_token` from inside a whitespace run equals `next_token` from the first char after the run. |
| LexerProperties.RunSkips | src/interpreter/lexer.rs:155-159 | Whitespace in front of the cursor changes no token of any run of calls, nor where it panics. |
| LexerProperties.NextTokenPunctuation | src/interpreter/lexer.rs:63-81 | Each single-char operator or delimiter is one token whose literal is that char, and exactly that char is consumed. |
| LexerProperties.NextTokenEquals | src/interpreter/lexer.rs:56-62 | `=` then `=` is one `==` token consuming two chars. Any other `=` is `Assign` consuming one. |
| LexerProperties.NextTokenBang | src/interpreter/lexer.rs:70-76 | `!` then `=` is one `!=` token consuming two chars. Any other `!` is `Bang` consuming one. |
| LexerProperties.NextTokenIllegal | src/interpreter/lexer.rs:83-92 | Any other char yields `Illegal` with the placeholder literal and consumes one char, and lexing goes on. This includes `[` and `]`. |
| LexerProperties.ScanWhileTo | src/interpreter/lexer.rs:99-101 | The read-while loop stops exactly at the end of the run of class chars. |
| LexerProperties.ReadRunTo | src/interpreter/lexer.rs:97-105 | The identifier scan returns exactly the maximal run from the cursor, or panics when that run reaches the end. |
| LexerProperties.ParseStringTo | src/interpreter/lexer.rs:107-118 | `parse_string` returns the keyword or identifier token of exactly the maximal letter run. A run reaching the end panics. |
| LexerProperties.NextTokenWord | src/interpreter/lexer.rs:97-118 | A word is the maximal run of letters and `_`, with digits excluded. It becomes its keyword or identifier token, with the cursor on the char after it, and a word running to the end panics in `back_char`. |
| LexerProperties.ParseNumberTo | src/interpreter/lexer.rs:120-145 | `parse_number` gives the token of the maximal digit run when its value fits in `i64`. It panics on overflow, and on a run reaching the end. |
| LexerProperties.NextTokenNumber | src/interpreter/lexer.rs:129-136 | A digit run becomes `Int(value)` with the run as literal, and the cursor lands after it. A value above `i64::MAX` panics in the parse, and a run reaching the end panics in `back_char`. |
| LexerProperties.NextTokenAtEnd | src/interpreter/lexer.rs:82 | When only whitespace is left, `next_token` yields EOF with literal `""` and moves one past the end. |
| LexerProperties.ClassifyEof | src/interpreter/lexer.rs:82 | The match yields EOF exactly when the cursor is past the last char. |
| LexerProperties.EofOnlyAtEnd | src/interpreter/lexer.rs:82-92 | `next_token` yields EOF exactly when nothing but whitespace is left. |
| LexerProperties.NextTokenPastEnd | src/interpreter/lexer.rs:36-43 | Past the end, `read_char` keeps the sentinel, so a call yields EOF and moves the cursor one further. |
| LexerProperties.EofForever | src/interpreter/lexer.rs:33-45 | Once the text is exhausted, every further run of calls yields only EOF tokens and never panics. |
| LexerProperties.BackAfterRead | src/interpreter/lexer.rs:47-51 | `back_char` after `read_char` restores both indices but makes the next index's char current. It undoes the read only when the two chars are equal, and panics at the last char. |
| LexerProperties.KeywordKinds | src/interpreter/lexer.rs:4-12 | The kinds `lookup_keyword` can answer are exactly the seven keyword kinds. |
| LexerProperties.KeywordSpelling | src/interpreter/lexer.rs:4-12 | Every keyword kind has a word that the table answers with that kind. |
| LexerProperties.LexNumeral | src/interpreter/lexer.rs:120-145 | The numeral of `n` followed by a non-digit lexes back to `Int(n)` with the numeral as literal. Above `i64::MAX` it panics in the parse. |
| LexerProperties.LexNumeralAtEnd | src/interpreter/lexer.rs:129 | A numeral that is the whole text panics in `back_char`. |
| LexerProperties.LexWord | src/interpreter/lexer.rs:103-104 | A word followed by a non-letter lexes to its keyword or identifier token. A word that is the whole text panics in `back_char`. |
| Lexemes.PunctuationSpelling | src/interpreter/lexer.rs:63-81 | The single-char arms produce exactly the kinds spelled by one char other than `=` and `!`. |
| Lexemes.ClassifySymbolLexeme | src/interpreter/lexer.rs:55-82 | An operator or delimiter written at the cursor is matched as its own token, with the lookahead char taken for `==` and `!=`. |
| Lexemes.ClassifyWordLexeme | src/interpreter/lexer.rs:107-118 | A word written at the cursor, followed by a non-letter, is matched as its keyword or identifier token. |
| Lexemes.ClassifyIntLexeme | src/interpreter/lexer.rs:120-145 | A numeral whose value fits in `i64`, written at the cursor and followed by a non-digit, is matched as its integer token. |
| Lexemes.ClassifyLexeme | src/interpreter/lexer.rs:55-90 | Every lexeme written at the cursor, ending before the next char, is matched as itself. |
| Lexemes.NextTokenClassifiesTo | src/interpreter/lexer.rs:53-95 | A successful match after a whitespace gap is what `next_token` returns, with the cursor moved to the token's end. |
| Lexemes.NextTokenLexeme | src/interpreter/lexer.rs:53-95 | Round trip: whitespace then a written lexeme is read back as exactly that token, and the cursor lands right after its literal. |
| Decimal.ValueOfShow | src/interpreter/lexer.rs:131-136 | Parsing the numeral of `n` gives `n` back. |
| Decimal.ShowOfValue | src/interpreter/lexer.rs:131-136 | Every digit run without leading zeros is the numeral of its parsed value, so parsing and printing are inverse. |

`LexerProperties` also holds proof steps that only unfold one layer of the model and have no row above:
- `NextTokenClassifies`, `ClassifyWord` and `ClassifyNumber` for the dispatch of the `match`;
- `RunCons`, `RunOne`, `RunPanics` and `LexStart` for runs of calls.

## Left out

- The `println!` debug output in `parse_string` and `parse_number` is left out. It is I/O and has no effect on any result.
- `#[derive(Debug)]` formatting is left out.
- Non-ASCII text is left out:
  - the Unicode tables of `is_alphabetic` and `is_whitespace`;
  - the mismatch between the byte length that `read_char` and `peek_ahead` compare against and the char index that `nth` uses.

  `WellFormed` restricts the text to ASCII, where these coincide.
- A NUL char inside the text is left out. The source treats it as end of input in the middle of the text. `WellFormed` excludes it.
- Panic messages are left out, and so are the internals of `str::parse::<i64>`. A panic is modelled only by its kind. The parse is the decimal value of the digits, with values above `i64::MAX` as the overflow panic.
- The `i64` width of `position` and `read_position` is not modelled; the indices are unbounded integers. Wrap-around would need a text of 2^63 chars, or about 2^63 `next_token` calls past the end, since each call moves the cursor one further (src/interpreter/lexer.rs:42-43, 92). In a debug build `read_position += 1` (src/interpreter/lexer.rs:43) then panics on overflow.
- LexerProperties.EofForever: "never panics" holds only below that bound of about 2^63 calls past the end.
- The three unit tests in `src/interpreter/lexer.rs` (lines 184-206, 209-271 and 274-391) are not restated as concrete lemmas. Unfolding `next_token` over a whole concrete text costs far more solver effort than the proofs here can afford. Every behaviour they check per token is stated for all inputs:
  - one call over whitespace and a lexeme yields that lexeme (`Lexemes.NextTokenLexeme`);
  - the per-arm lemmas;
  - EOF at the end (`LexerProperties.NextTokenAtEnd`, `LexerProperties.EofForever`).

  All three test inputs end in `;`, so the `back_char` panic does not arise in them.
- Lexemes.NextTokenLexeme: the round trip is stated for one `next_token` call. The composition over a whole sequence of lexemes separated by whitespace is not stated as one theorem. It follows call by call with `LexerProperties.RunCons`, but proving it in one piece exceeded the solver effort available.
- LexerProperties.RunSkips: whitespace invariance is stated for whitespace in front of the cursor. Inserting whitespace between two later tokens changes the text, and that relation between two different texts is not stated.
- `src/interpreter/ast.rs` and `src/main.rs` are not part of this model. They hold no lexer behaviour.
