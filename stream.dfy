/** The lexing loop of the formatter: skip trivia, take the lexeme the
    scanner finds, and stop at the end of input or at the first position
    where no rule matches. */
module Stream {
  import opened Tokens
  import opened Text
  import opened Lexer

  // ----------------------------------------------------------------------
  // The token stream.
  // ----------------------------------------------------------------------

  /** The result of lexing from some position: the tokens read, then the
      terminator that stopped the lexer. */
  datatype Lexed = Lexed(tokens: seq<Token>, end: Token)

  /** A scanner gives the kind and length of the lexeme at a position;
      the lexing loop below is written for any scanner, and the lexer of the
      formatter uses `ScanAt`. */
  type Scanner = (string, nat) -> Match

  /** Which words each rule accepts; the lexer of the formatter is
      faithful to `Matches`. */
  type Language = (Kind, string) -> bool

  /** A match at `i` lies within the input, and is either non-empty and of
      an ordinary kind, or empty and `Error`. */
  predicate Fits(s: string, i: nat, m: Match) {
    && i + m.len <= |s|
    && (m.len == 0 ==> m.kind == Error)
    && (m.len > 0 ==> !IsTerminator(m.kind))
  }

  /** A non-empty match at `i` is a word of the rule it names. */
  predicate WordAt(lang: Language, s: string, i: nat, m: Match) {
    0 < m.len <= |s| - i ==> lang(m.kind, s[i..i + m.len])
  }

  /** A scanner whose every answer within the input fits. */
  ghost predicate Sound(scan: Scanner) {
    forall s: string, i: nat {:trigger scan(s, i)} :: i <= |s| ==> Fits(s, i, scan(s, i))
  }

  /** A scanner that reports only words of the rule it names. */
  ghost predicate Faithful(scan: Scanner, lang: Language) {
    forall s: string, i: nat {:trigger WordAt(lang, s, i, scan(s, i))} :: i <= |s| ==> WordAt(lang, s, i, scan(s, i))
  }

  /** The maximal-munch scan, total over positions. */
  function ScanAt(s: string, i: nat): (m: Match) {
    if i <= |s| then Scan(s, i) else Match(Error, 0)
  }

  lemma ScanAtSound()
    ensures Sound(ScanAt)
  {
    forall s: string, i: nat | i <= |s| ensures Fits(s, i, ScanAt(s, i)) {
    }
  }

  lemma ScanAtFaithful()
    ensures Faithful(ScanAt, Matches)
  {
    forall s: string, i: nat | i <= |s| ensures WordAt(Matches, s, i, ScanAt(s, i)) {
      ScanAccepted(s, i);
    }
  }

  /** The tokens from position `i` on: skip trivia, then take the lexeme
      the scanner finds, until the end of input (`TokenEnd`, empty text) or
      a position where the scanner finds no lexeme (`Error`, holding the
      rest of the input). An answer that does not fit the input is taken
      as no lexeme; `ScanAtSound` shows the scan of the formatter always
      fits. */
  function Lex(scan: Scanner, s: string, i: nat): (l: Lexed)
    requires i <= |s|
    ensures IsTerminator(l.end.kind)
    ensures l.end.kind == TokenEnd ==> l.end.text == ""
    ensures l.end.kind == Error ==> l.end.text != ""
    decreases |s| - i
  {
    var j := i + Span(s, i, Trivia);
    if j == |s| then Lexed([], Token("", TokenEnd))
    else
      var m := scan(s, j);
      if m.len == 0 || !Fits(s, j, m) then Lexed([], Token(s[j..], Error))
      else
        var rest := Lex(scan, s, j + m.len);
        Lexed([Token(s[j..j + m.len], m.kind)] + rest.tokens, rest.end)
  }

  /** Every token read is a non-empty lexeme of an ordinary kind. */
  lemma {:induction false} LexOrdinary(scan: Scanner, s: string, i: nat)
    requires i <= |s|
    ensures forall t :: t in Lex(scan, s, i).tokens ==> !IsTerminator(t.kind) && t.text != ""
    decreases |s| - i
  {
    var j := i + Span(s, i, Trivia);
    if j < |s| && scan(s, j).len > 0 && Fits(s, j, scan(s, j)) {
      var n := j + scan(s, j).len;
      LexStep(scan, s, i, j, n);
      LexOrdinary(scan, s, n);
      OrdinaryCons(Token(s[j..n], scan(s, j).kind), Lex(scan, s, n).tokens);
    } else {
      LexStops(scan, s, i);
    }
  }

  /** An ordinary token in front of ordinary tokens. */
  lemma OrdinaryCons(tok: Token, rest: seq<Token>)
    requires !IsTerminator(tok.kind) && tok.text != ""
    requires forall t :: t in rest ==> !IsTerminator(t.kind) && t.text != ""
    ensures forall t :: t in [tok] + rest ==> !IsTerminator(t.kind) && t.text != ""
  {
  }

  /** The whole input as a token stream, closed by its terminator. */
  function Tokenize(s: string): (ts: seq<Token>)
    ensures |ts| >= 1 && IsTerminator(ts[|ts| - 1].kind)
    ensures forall j :: 0 <= j < |ts| - 1 ==> !IsTerminator(ts[j].kind) && ts[j].text != ""
  {
    var l := Lex(ScanAt, s, 0);
    LexOrdinary(ScanAt, s, 0);
    assert forall j :: 0 <= j < |l.tokens| ==> l.tokens[j] in l.tokens;
    l.tokens + [l.end]
  }

  /** The token texts, in order and with the terminator's, are the input
      with some trivia characters deleted and nothing else changed. */
  lemma {:induction false} LexCovers(scan: Scanner, s: string, i: nat)
    requires i <= |s|
    ensures var l := Lex(scan, s, i);
      Erasure(s[i..], Texts(l.tokens) + l.end.text, TriviaChars)
    decreases |s| - i
  {
    var j := i + Span(s, i, Trivia);
    var l := Lex(scan, s, i);
    var out := Texts(l.tokens) + l.end.text;
    if j == |s| {
      assert out == [] && s[j..] == [];
      ErasureRefl(s[j..], TriviaChars);
    } else if scan(s, j).len == 0 || !Fits(s, j, scan(s, j)) {
      assert out == s[j..];
      ErasureRefl(s[j..], TriviaChars);
    } else {
      var n := j + scan(s, j).len;
      var rest := Lex(scan, s, n);
      LexStep(scan, s, i, j, n);
      ConsText(Token(s[j..n], scan(s, j).kind), rest);
      LexCovers(scan, s, n);
      ErasureKeep(s, j, n, Texts(rest.tokens) + rest.end.text);
    }
    SkipTrivia(s, i, j, out);
  }

  /** The text of a stream that starts with `tok` is the lexeme of `tok`
      followed by the text of the rest. */
  lemma ConsText(tok: Token, rest: Lexed)
    ensures Texts([tok] + rest.tokens) + rest.end.text == tok.text + (Texts(rest.tokens) + rest.end.text)
  {
    TextsAppend([tok], rest.tokens);
    assert Texts([tok]) == tok.text + Texts([]);
  }

  /** Lexing from `i` reads the lexeme at `j`, then lexes on from its end. */
  lemma {:induction false} LexStep(scan: Scanner, s: string, i: nat, j: nat, n: nat)
    requires i <= |s| && j == i + Span(s, i, Trivia) && j < |s|
    requires scan(s, j).len > 0 && Fits(s, j, scan(s, j)) && n == j + scan(s, j).len
    ensures var rest := Lex(scan, s, n);
      Lex(scan, s, i) == Lexed([Token(s[j..n], scan(s, j).kind)] + rest.tokens, rest.end)
  {
  }

  /** Lexing stops at once at the end of input or where the scanner finds
      no lexeme that fits. */
  lemma LexStops(scan: Scanner, s: string, i: nat)
    requires i <= |s|
    ensures var j := i + Span(s, i, Trivia);
      j == |s| || scan(s, j).len == 0 || !Fits(s, j, scan(s, j)) ==> Lex(scan, s, i).tokens == []
  {
  }

  /** A lexeme is kept whole in front of what the rest erases to. */
  lemma ErasureKeep(s: string, j: nat, n: nat, tail: string)
    requires j <= n <= |s| && Erasure(s[n..], tail, TriviaChars)
    ensures Erasure(s[j..], s[j..n] + tail, TriviaChars)
  {
    ErasureRefl(s[j..n], TriviaChars);
    ErasureAppend(s[j..n], s[j..n], s[n..], tail, TriviaChars);
    assert s[j..] == s[j..n] + s[n..];
  }

  /** The trivia skipped before a token erases to nothing. */
  lemma SkipTrivia(s: string, i: nat, j: nat, out: string)
    requires i <= |s| && j == i + Span(s, i, Trivia)
    requires Erasure(s[j..], out, TriviaChars)
    ensures Erasure(s[i..], out, TriviaChars)
  {
    forall k | 0 <= k < |s[i..j]| ensures s[i..j][k] in TriviaChars {
      SpanRun(s, i, Trivia, i + k);
    }
    ErasurePrefix(s[i..j], s[j..], out, TriviaChars);
    assert s[i..] == s[i..j] + s[j..];
  }

  /** Every token of `ts` is a word of its kind's rule. */
  predicate AllWords(lang: Language, ts: seq<Token>) {
    ts == [] || (lang(ts[0].kind, ts[0].text) && AllWords(lang, ts[1..]))
  }

  lemma {:induction false} AllWordsAt(lang: Language, ts: seq<Token>, k: nat)
    requires AllWords(lang, ts) && k < |ts|
    ensures lang(ts[k].kind, ts[k].text)
  {
    if k > 0 {
      AllWordsAt(lang, ts[1..], k - 1);
    }
  }

  /** Every token read is a word of its kind's rule, given a scanner that
      only reports words. */
  lemma {:induction false} LexWords(scan: Scanner, lang: Language, s: string, i: nat)
    requires Faithful(scan, lang) && i <= |s|
    ensures AllWords(lang, Lex(scan, s, i).tokens)
    decreases |s| - i
  {
    var j := i + Span(s, i, Trivia);
    if j < |s| && scan(s, j).len > 0 && Fits(s, j, scan(s, j)) {
      var n := j + scan(s, j).len;
      LexWords(scan, lang, s, n);
      WordsStep(scan, lang, s, i, j, n);
    } else {
      LexStops(scan, s, i);
    }
  }

  /** The lexeme read at `j` is a word, and so is every token after it. */
  lemma WordsStep(scan: Scanner, lang: Language, s: string, i: nat, j: nat, n: nat)
    requires Faithful(scan, lang) && i <= |s| && j == i + Span(s, i, Trivia) && j < |s|
    requires scan(s, j).len > 0 && Fits(s, j, scan(s, j)) && n == j + scan(s, j).len
    requires AllWords(lang, Lex(scan, s, n).tokens)
    ensures AllWords(lang, Lex(scan, s, i).tokens)
  {
    var rest := Lex(scan, s, n).tokens;
    LexStep(scan, s, i, j, n);
    WordsCons(scan, lang, s, j, rest);
    WordsSame(lang, Lex(scan, s, i).tokens, [Token(s[j..n], scan(s, j).kind)] + rest);
  }

  /** `AllWords` carried over to an equal sequence: a rewriting step that
      lets `WordsStep` end on its own goal. */
  lemma WordsSame(lang: Language, ts: seq<Token>, us: seq<Token>)
    requires ts == us && AllWords(lang, us)
    ensures AllWords(lang, ts)
  {
  }

  /** A faithful scanner's lexeme, put in front of words, keeps them words. */
  lemma WordsCons(scan: Scanner, lang: Language, s: string, j: nat, rest: seq<Token>)
    requires Faithful(scan, lang) && j <= |s| && AllWords(lang, rest)
    requires 0 < scan(s, j).len <= |s| - j
    ensures AllWords(lang, [Token(s[j..j + scan(s, j).len], scan(s, j).kind)] + rest)
  {
    var ts := [Token(s[j..j + scan(s, j).len], scan(s, j).kind)] + rest;
    assert WordAt(lang, s, j, scan(s, j));
    assert ts[1..] == rest;
  }

  /** Lexing the whole input loses nothing but trivia: the texts of the
      stream, terminator included, are the input with some spaces, tabs,
      carriage returns and newlines deleted. */
  lemma TokenizeCovers(s: string)
    ensures Erasure(s, Texts(Tokenize(s)), TriviaChars)
  {
    var l := Lex(ScanAt, s, 0);
    LexCovers(ScanAt, s, 0);
    TextsAppend(l.tokens, [l.end]);
    assert Texts([l.end]) == l.end.text;
    assert s[0..] == s;
  }

  /** Every token of the stream before its terminator is a word of its
      kind's rule. */
  lemma TokenizeWords(s: string)
    ensures var ts := Tokenize(s);
      forall k :: 0 <= k < |ts| - 1 ==> Matches(ts[k].kind, ts[k].text)
  {
    var ts := Tokenize(s);
    var l := Lex(ScanAt, s, 0);
    ScanAtFaithful();
    LexWords(ScanAt, Matches, s, 0);
    forall k | 0 <= k < |ts| - 1 ensures Matches(ts[k].kind, ts[k].text) {
      AllWordsAt(Matches, l.tokens, k);
    }
  }

  /** A nonempty scan is a word of the kind it reports. */
  lemma ScanAccepted(s: string, i: nat)
    requires i <= |s|
    ensures WordAt(Matches, s, i, Scan(s, i))
  {
    MaximalMunch(s, i);
  }
}
