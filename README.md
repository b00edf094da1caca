# verilog-format in Dafny

A model of the core of verilog-format, a small formatter for Verilog source.
It has two parts.

- **The token table and its tokenizer.** A closed set of token kinds, each
  given either an exact literal text (16 keywords, 13 delimiters, 14
  operators) or a regular expression (number, identifier, string, directive,
  comment). The `logos` derive turns this table into a maximal-munch
  tokenizer.
- **The printer.** One loop over the token stream. It carries an
  indentation level, a deferred `module` step, a start-of-line flag and the
  previous kind. For every token it:
  - writes indentation at the start of a line;
  - writes one space unless the pair of kinds is glued;
  - echoes the lexeme;
  - breaks the line after `;`, `,`, `begin`, `end` and `endgenerate`.

## Files

- `tokens.dfy` (module `Tokens`): the `Kind` datatype, the literal text of
  each kind, and tokens as (text, kind) pairs.
- `lexer.dfy` (module `Lexer`):
  - one matcher per rule, returning the length it accepts at a position;
  - the languages of the regular expressions, written on whole words;
  - the maximal-munch `Scan`, with lemmas that each matcher and the scan
    choose the longest word;
  - what the scan yields at a letter, a digit, a slash and a two-character
    operator.
- `stream.dfy` (module `Stream`): the lexing loop `Lex` and `Tokenize`. It
  skips trivia, takes lexeme after lexeme, and stops at the end of input
  (`TokenEnd`) or at the first position nothing matches (`Error`).
- `positions.dfy` (module `Positions`): `Starts`, the position where each
  token of the stream was read. It ties every token to the scan at that
  position, and an `Error` terminator to a position where no rule matches.
- `printer.dfy` (module `Printer`):
  - the per-token `Step` function and its fold `Emit`, which specify the
    printer;
  - the `Print` method, the loop itself, proved equal to that
    specification;
  - lemmas on indentation depth, spacing, line breaks and the preservation
    of token text.
- `text.dfy` (module `Text`): the relation "one text is another with some
  characters of a set deleted", shared by the lexer and the printer.

## Modelling choices

- **Trivia.** The model assumes that spaces, tabs, carriage returns and
  newlines between tokens are skipped, and nothing else. The source does
  not say which characters the `logos` library skips; its default may take
  in more of the control characters (see "## Left out").
- **Ties.**
  - At equal length a literal beats every regular expression (`reg` is
    `Reg`).
  - Among the regular expressions, the identifier beats the number. An
    all-hex word such as `a`, `dead` or `_` matches both at equal length,
    and the source does not settle which wins; this model makes it an
    identifier.
- **Quirks kept from the rules.**
  - The identifier continuation class is `[a-zA-z0-9$_]`. Its `A-z` range
    also admits `[`, `\`, `]`, `^`, `_` and the backtick, so `a[7` is one
    identifier.
  - A comment is `//`, then the rest of the line, then its newline, which
    belongs to the token. A `//` with no newline after it is not a comment.
    It lexes as the `/` operator.
- **Error and end tokens.** The `Error` token's text is the rest of the
  input from the failing position. `TokenEnd` has empty text.
- **The printer's input.** The printer takes the token sequence. It stops at
  its first `TokenEnd` or `Error`, or at the end of the sequence.

## Model

| member | source | states |
|---|---|---|
| Lexer.IdentifierLongest | src/lexer.rs:15-16 | The identifier matcher's length is a word of `[a-zA-Z_][a-zA-z0-9$_]*`, and no longer word of it starts there |
| Lexer.StringLongest | src/lexer.rs:18-19 | The string matcher's length is a word `"…"` with no `"` inside, and no longer such word starts there |
| Lexer.StringNoLonger | src/lexer.rs:18-19 | A string word at a position is exactly as long as the matcher says: a string cannot contain a double quote |
| Lexer.DirectiveLongest | src/lexer.rs:21-22 | The directive matcher's length is a backtick followed by one or more `[a-zA-Z0-9_]`, and no longer such word starts there |
| Lexer.CommentLongest | src/lexer.rs:24-25 | The comment matcher's length is `//`, non-newlines, then one newline, and no longer such word starts there |
| Lexer.CommentNeedsNewline | src/lexer.rs:24-25 | At `//` a comment exists iff a newline follows. It ends with the first such newline, which is part of it |
| Lexer.NumberLongest | src/lexer.rs:12-13 | The number matcher's length is a word of the number regex (optional size and base prefix, hex body, optional `ns`/`ps`), and no longer such word starts there |
| Lexer.BodyNoLonger | src/lexer.rs:12 | No `[0-9a-fA-F_]+(ns\|ps)?` body at a position is longer than the measured body |
| Lexer.BaseUnique | src/lexer.rs:12 | The size and base prefix `([1-9][0-9_]*)?'[dDbBoOhH]` at a position has only one possible length |
| Lexer.BasedAccepted | src/lexer.rs:12 | A prefix followed by a non-empty body is a number word |
| Lexer.NumberNoLonger | src/lexer.rs:12-13 | No number word at a position is longer than the number matcher's length |
| Lexer.RuleLenIsLongest | src/lexer.rs:12-157 | For every kind, the matcher gives a word of that kind's rule, or 0. No longer word of the rule starts there |
| Lexer.RuleAccepted | src/lexer.rs:12-157 | A non-empty matcher length is a word of the kind's rule |
| Lexer.RuleNoLonger | src/lexer.rs:12-157 | No word of a kind's rule is longer than its matcher's length |
| Lexer.LiteralLongest | src/lexer.rs:28-157 | A literal matches nothing longer than its own text |
| Lexer.LiteralPresent | src/lexer.rs:28-157 | A non-empty literal match is exactly the literal's text at that position |
| Lexer.LongestLiteral | src/lexer.rs:28-157 | The longest literal candidate lies within the input. When non-empty it is a literal matching at exactly its length |
| Lexer.LongestLiteralIsLongest | src/lexer.rs:28-157 | No literal of the table matches longer than the chosen literal candidate |
| Lexer.Candidates | src/lexer.rs:1-2 | One candidate per priority group. Each lies within the input, and a non-empty one is never a terminator |
| Lexer.GroupRule | src/lexer.rs:1-2 | Each non-empty candidate sits in its own group and has the length its rule accepts |
| Lexer.Best | src/lexer.rs:1-2 | The chosen match is one of the candidates, or `Error` with length 0 |
| Lexer.BestChoice | src/lexer.rs:1-2 | The choice is its group's candidate and at least as long as every other candidate. Among equally long candidates it is from the earliest group |
| Lexer.Scan | src/lexer.rs:1-2 | A scan lies within the input, is `Error` exactly when empty, and is never a terminator when non-empty |
| Lexer.ScanChoice | src/lexer.rs:1-2 | The scan is the longest candidate, earliest group first on a tie |
| Lexer.ScanBound | src/lexer.rs:1-2 | No rule accepts more at a position than the scan takes |
| Lexer.MaximalMunch | src/lexer.rs:1-157 | The scanned lexeme is a word of its kind's rule. No rule accepts anything longer. A literal accepting the same length beats any regular expression, and an identifier beats a number |
| Lexer.LiteralFirst | src/lexer.rs:1-2 | If a literal accepts the scanned length, the scan is a literal |
| Lexer.IdentifierBeforeNumber | src/lexer.rs:12-16 | If an identifier accepts the scanned length, the scan is that identifier or a literal |
| Lexer.IdentifierTie | src/lexer.rs:12-16 | When the identifier is as long as the scan, the scan is an identifier or a literal |
| Lexer.KeywordShape | src/lexer.rs:28-74 | Every keyword starts with a lower-case letter |
| Lexer.KeywordSpelling | src/lexer.rs:28-74 | Every character of every keyword continues an identifier |
| Lexer.PunctuationShape | src/lexer.rs:77-157 | Every delimiter and operator is one or two characters. It starts with a character that starts no identifier, number, string or directive. Only `/` starts with a slash |
| Lexer.NoRegexAt | src/lexer.rs:12-25 | At a character that starts no identifier, number, string or directive, no regular expression matches. The one exception is the comment, and only at a slash |
| Lexer.ScanIs | src/lexer.rs:1-2 | When some rule matches, the scan is at least as long as that match. Its length is what the rule of its own kind accepts |
| Lexer.NumberInWord | src/lexer.rs:12-16 | At a letter or `_`, the number never outruns the identifier |
| Lexer.KeywordInWord | src/lexer.rs:15-74 | At a letter or `_`, a keyword never outruns the identifier |
| Lexer.WordLength | src/lexer.rs:15-16 | At a letter or `_`, the scan takes the whole identifier run |
| Lexer.WordKind | src/lexer.rs:15-74 | At a letter or `_`, the scan is an identifier or the keyword spelled by the run |
| Lexer.WordToken | src/lexer.rs:15-74 | At a letter or `_`, the token is the keyword spelled by the whole run when there is one, and an identifier otherwise |
| Lexer.KeywordWins | src/lexer.rs:28-74 | A keyword spelled by the whole identifier run makes the scan a literal |
| Lexer.DigitToken | src/lexer.rs:12-13 | At a digit, the token is a non-empty number of the number matcher's length |
| Lexer.TwoCharTextNamesKind | src/lexer.rs:138-157 | Each two-character operator text names one kind only |
| Lexer.OperatorToken | src/lexer.rs:138-157 | `==`, `<=`, `<<`, `>=` and `&&` are scanned whole as their own kind, never as two one-character tokens |
| Lexer.SlashToken | src/lexer.rs:24-25 | At `//`, the token is the comment running to the first newline, or the `/` operator when no newline follows |
| Lexer.RegIsKeyword | src/lexer.rs:64-65 | The word `reg` scans as `Reg`, not as an identifier |
| Lexer.KeywordPrefixIsIdentifier | src/lexer.rs:15-16 | `reg_abc` scans as one 7-character identifier |
| Lexer.BracketInIdentifier | src/lexer.rs:15 | `a[7` scans as one identifier, because `A-z` takes in `[` |
| Stream.ScanAtSound | src/lexer.rs:1-2 | The scan always fits the input: non-empty and ordinary, or empty and `Error` |
| Stream.ScanAtFaithful | src/lexer.rs:1-2 | Every non-empty scan is a word of the rule it names |
| Stream.Lex | src/lexer.rs:5-9 | The stream ends with `TokenEnd`, whose text is empty, or with `Error`, whose text is non-empty |
| Stream.LexOrdinary | src/lexer.rs:5-9 | Every token before the terminator is non-empty and neither `TokenEnd` nor `Error` |
| Stream.Tokenize | src/lexer.rs:5-9 | The stream is non-empty and ends with exactly one terminator. Every earlier token is a non-empty ordinary lexeme |
| Stream.LexCovers | src/lexer.rs:5-9 | From any position, the token texts and the terminator's text are the input with only trivia characters deleted |
| Stream.TokenizeCovers | src/lexer.rs:5-9 | The texts of the whole stream are the input with only spaces, tabs, carriage returns and newlines deleted |
| Positions.ReadsAt | src/lexer.rs:1-2 | In a stream read at its starts, the token at any index is the lexeme the scanner finds at its start, and the next start is the first non-trivia position after it |
| Positions.LexAt | src/lexer.rs:1-2 | From any position, every token is read at its start: it is the scanner's lexeme there, with the kind the scanner names, and the next token starts right after the trivia that follows it |
| Positions.LexEnd | src/lexer.rs:5-9 | The terminator starts at the last start. Its text is the input from there on. It is `Error` exactly when that rest is non-empty, and then the scanner found no lexeme there |
| Positions.TokenizeScans | src/lexer.rs:1-2 | Every token of the stream before the terminator is exactly the maximal-munch scan at its start, so a keyword is never cut off a longer word. The first start is the first non-trivia position of the input |
| Positions.TokenizeEnd | src/lexer.rs:5-9 | The terminator holds the input from its start on, so it starts as far from the end as its text is long. It is `TokenEnd` exactly at the end of the input |
| Positions.TokenizeError | src/lexer.rs:8-9 | Where the stream ends in `Error`, input is left and no rule of the table matches there at all |
| Lexer.ScanEmpty | src/lexer.rs:8-9 | The scan finds nothing exactly where no rule of the table matches |
| Stream.LexWords | src/lexer.rs:1-2 | A scanner faithful to the rules yields only words of the rules |
| Stream.TokenizeWords | src/lexer.rs:12-157 | Every token before the terminator is a word of its own kind's rule |
| Printer.Indent | src/printer.rs:34-38 | Indentation is four spaces per level, and nothing for a level of zero or less |
| Printer.WriteIndent | src/printer.rs:34-38 | The indentation loop writes exactly `Indent(level)` |
| Printer.StepText | src/printer.rs:34-77 | A token's output is its lead, then its text verbatim, then `\n` after `;`, `,`, `begin`, `end` and `endgenerate`. The lead is indentation at a line start. Otherwise it is one space unless the (previous, current) pair is glued |
| Printer.NextLayout | src/printer.rs:22-78 | After a token, the level has moved by that token's change, plus 1 for `module` (deferred past its own indentation). No step is pending. A line starts after a comment or a break. The kind is remembered |
| Printer.StepKeepsText | src/printer.rs:34-74 | One step adds only spaces and newlines around the token's text |
| Printer.EmitLayout | src/printer.rs:22-43 | After any sequence, the level is (openers + `module`s) − closers. No step is pending. A line starts exactly at the start or after a comment or a break |
| Printer.EmitKeepsText | src/printer.rs:35-74 | The output of any sequence is its token texts in order, with only spaces and newlines added |
| Printer.Stop | src/printer.rs:13-19 | Printing takes the tokens up to, and not including, the first `TokenEnd` or `Error` |
| Printer.TailIgnored | src/printer.rs:14-19 | Nothing after the first terminator changes the output |
| Printer.FormatKeepsSource | src/printer.rs:63 | Formatting keeps every non-whitespace character. With whitespace removed, the input is the output followed by the terminator's text (empty at the end of input, the unlexed rest after an unknown token) |
| Printer.PrintToken | src/printer.rs:21-78 | One pass of the loop body gives exactly the state and text of `Step` |
| Printer.Print | src/printer.rs:5-83 | The loop returns exactly the formatted text of the token stream up to its first terminator |

## Left out

- `src/main.rs`, `benches/format.rs` and `src/test.rs` are not part of this
  model. They handle command-line parsing, file reading, printing and
  benchmarking.
- The generated automaton of the `logos` runtime (`advance`, `slice`) is not
  part of this model. The tokenizer is modelled from the rules: longest
  match, a literal winning a tie against a regular expression, and trivia
  skipped between tokens.
- Printer.Print: does not model the `eprintln!` on an unknown token. It is a
  side effect on standard error; the model only stops printing there.
- Printer.Print: has no `fmt::Error` path. Writing into a `String` cannot
  fail, so the model is total and returns the string.
- Printer.Print: does not take the printer's `text` parameter, which the
  source never reads.
- Printer.Print: does not model `last_post_space`, which is assigned once
  and never read.
- Lexer.Scan: the tie between an all-hex identifier and a number of the same
  length is resolved for the identifier. The source does not show which the
  runtime picks.
- Stream.Lex: skips only spaces, tabs, carriage returns and newlines between
  tokens. If the library also skips the other control characters up to
  0x20 (form feed, vertical tab, NUL and the rest), the model differs
  there: such a character ends the model's stream with `Error`, and the
  printer stops at it.
- Printer.Print: the source's `tab_level` and `upd_tab_level` start as
  untyped integer literals, so they are 32-bit signed (`i32`). Past
  2^31 - 1 nested openers, or as many unmatched closers, the source panics
  in a debug build and wraps in a release build. The model's levels are
  unbounded integers, so it has no such limit.
- Printer.EmitLayout: its count formula for the level holds over unbounded
  integers. It does not model the `i32` overflow described above.
- Stream.Lex: the lexing loop is written for any scanner. Answers that do
  not fit the input are treated as no match. `Stream.ScanAtSound` shows the
  formatter's own scan always fits, so this case never arises for it.
