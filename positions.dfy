/** Where the lexing loop reads: the position at which each token of the
    stream starts, the scan found there, and the position at which the
    terminator starts. */
module Positions {
  import opened Tokens
  import opened Text
  import opened Lexer
  import opened Stream

  /** The first non-trivia position from `n`. */
  function Next(s: string, n: nat): (j: nat)
    requires n <= |s|
    ensures n <= j <= |s| && (j == |s| || s[j] !in TriviaChars)
  {
    n + Span(s, n, Trivia)
  }

  /** Where lexing from `i` reads: the start of each token in order, and
      last the start of the terminator, the first position after trivia at
      which no lexeme is taken. */
  function Starts(scan: Scanner, s: string, i: nat): (ps: seq<nat>)
    requires i <= |s|
    ensures |ps| > 0
    decreases |s| - i
  {
    var j := i + Span(s, i, Trivia);
    if j == |s| then [j]
    else
      var m := scan(s, j);
      if m.len == 0 || !Fits(s, j, m) then [j]
      else [j] + Starts(scan, s, j + m.len)
  }

  /** `t` is the lexeme the scanner finds at `p`, with the kind it names. */
  predicate ReadAt(scan: Scanner, s: string, p: nat, t: Token) {
    && p < |s| && 0 < scan(s, p).len && Fits(s, p, scan(s, p))
    && t == Token(s[p..p + scan(s, p).len], scan(s, p).kind)
  }

  /** `ts` is read at the starts `ps`, one per token plus the terminator's:
      each token is the lexeme found at its start, and the next start is
      the first non-trivia position after it. */
  predicate ReadsFrom(scan: Scanner, s: string, ps: seq<nat>, ts: seq<Token>)
    decreases ts
  {
    && |ps| == |ts| + 1
    && (ts != [] ==>
         && ReadAt(scan, s, ps[0], ts[0]) && ps[1] == Next(s, ps[0] + |ts[0].text|)
         && ReadsFrom(scan, s, ps[1..], ts[1..]))
  }

  /** The `k`-th token of a read sequence is read at its start, and the
      next start is the first non-trivia position after it. */
  lemma {:induction false} ReadsAt(scan: Scanner, s: string, ps: seq<nat>, ts: seq<Token>, k: nat)
    requires ReadsFrom(scan, s, ps, ts) && k < |ts|
    ensures ReadAt(scan, s, ps[k], ts[k]) && ps[k + 1] == Next(s, ps[k] + |ts[k].text|)
  {
    if k > 0 {
      ReadsAt(scan, s, ps[1..], ts[1..], k - 1);
    }
  }

  /** A lexeme read at `j`, in front of tokens read from the first
      non-trivia position after it. */
  lemma ReadsCons(scan: Scanner, s: string, j: nat, tok: Token, qs: seq<nat>, rest: seq<Token>)
    requires ReadAt(scan, s, j, tok) && ReadsFrom(scan, s, qs, rest)
    requires qs[0] == Next(s, j + |tok.text|)
    ensures ReadsFrom(scan, s, [j] + qs, [tok] + rest)
  {
    assert ([j] + qs)[1..] == qs && ([tok] + rest)[1..] == rest;
  }

  /** `ReadsFrom` carried over to equal sequences: a rewriting step that lets
      `LexAt` end on its own goal. */
  lemma ReadsSame(scan: Scanner, s: string, ps: seq<nat>, ts: seq<Token>, qs: seq<nat>, us: seq<Token>)
    requires ps == qs && ts == us && ReadsFrom(scan, s, qs, us)
    ensures ReadsFrom(scan, s, ps, ts)
  {
  }

  /** The first start from `i` is the first non-trivia position. */
  lemma StartsFirst(scan: Scanner, s: string, i: nat)
    requires i <= |s|
    ensures |Starts(scan, s, i)| > 0 && Starts(scan, s, i)[0] == Next(s, i)
  {
  }

  /** The starts from `i` are the lexeme's start in front of the starts
      from its end. */
  lemma {:induction false} StartsStep(scan: Scanner, s: string, i: nat, j: nat, n: nat)
    requires i <= |s| && j == i + Span(s, i, Trivia) && j < |s|
    requires scan(s, j).len > 0 && Fits(s, j, scan(s, j)) && n == j + scan(s, j).len
    ensures Starts(scan, s, i) == [j] + Starts(scan, s, n)
  {
  }

  /** Where no lexeme is taken, the only start is the terminator's. */
  lemma {:induction false} StartsStops(scan: Scanner, s: string, i: nat)
    requires i <= |s|
    ensures var j := i + Span(s, i, Trivia);
      j == |s| || scan(s, j).len == 0 || !Fits(s, j, scan(s, j)) ==> Starts(scan, s, i) == [j]
  {
  }

  /** Lexing from `i` reads each token at its start. */
  lemma {:induction false} LexAt(scan: Scanner, s: string, i: nat)
    requires i <= |s|
    ensures ReadsFrom(scan, s, Starts(scan, s, i), Lex(scan, s, i).tokens)
    decreases |s| - i
  {
    var j := i + Span(s, i, Trivia);
    if j < |s| && scan(s, j).len > 0 && Fits(s, j, scan(s, j)) {
      var n := j + scan(s, j).len;
      LexAt(scan, s, n);
      LexAtStep(scan, s, i, j, n);
    } else {
      LexStops(scan, s, i);
      StartsStops(scan, s, i);
      ReadsSame(scan, s, Starts(scan, s, i), Lex(scan, s, i).tokens, [j], []);
    }
  }

  /** Reading the lexeme at `j` in front of what is read from its end. */
  lemma LexAtStep(scan: Scanner, s: string, i: nat, j: nat, n: nat)
    requires i <= |s| && j == i + Span(s, i, Trivia) && j < |s|
    requires scan(s, j).len > 0 && Fits(s, j, scan(s, j)) && n == j + scan(s, j).len
    requires ReadsFrom(scan, s, Starts(scan, s, n), Lex(scan, s, n).tokens)
    ensures ReadsFrom(scan, s, Starts(scan, s, i), Lex(scan, s, i).tokens)
  {
    var tok := Token(s[j..n], scan(s, j).kind);
    LexStep(scan, s, i, j, n);
    StartsStep(scan, s, i, j, n);
    StartsFirst(scan, s, n);
    assert |tok.text| == n - j;
    ReadsCons(scan, s, j, tok, Starts(scan, s, n), Lex(scan, s, n).tokens);
    ReadsSame(scan, s, Starts(scan, s, i), Lex(scan, s, i).tokens,
      [j] + Starts(scan, s, n), [tok] + Lex(scan, s, n).tokens);
  }

  /** `q` is where the terminator `end` starts: its text is the rest of the
      input from there, and it is `Error` exactly when that rest is not
      empty, the scanner finding no lexeme that fits there. */
  predicate EndsAt(scan: Scanner, s: string, q: nat, end: Token) {
    && q <= |s| && end.text == s[q..]
    && (end.kind == Error <==> q < |s|)
    && (q < |s| ==> scan(s, q).len == 0 || !Fits(s, q, scan(s, q)))
  }

  /** Lexing from `i` ends where the last start is. */
  lemma {:induction false} LexEnd(scan: Scanner, s: string, i: nat)
    requires i <= |s|
    ensures var ps := Starts(scan, s, i); EndsAt(scan, s, ps[|ps| - 1], Lex(scan, s, i).end)
    decreases |s| - i
  {
    var j := i + Span(s, i, Trivia);
    if j < |s| && scan(s, j).len > 0 && Fits(s, j, scan(s, j)) {
      var n := j + scan(s, j).len;
      LexEnd(scan, s, n);
      LexEndStep(scan, s, i, j, n);
    } else {
      StartsStops(scan, s, i);
      LexStops(scan, s, i);
    }
  }

  /** Lexing from `i` and from the end of the lexeme at `j` end alike. */
  lemma LexEndStep(scan: Scanner, s: string, i: nat, j: nat, n: nat)
    requires i <= |s| && j == i + Span(s, i, Trivia) && j < |s|
    requires scan(s, j).len > 0 && Fits(s, j, scan(s, j)) && n == j + scan(s, j).len
    ensures var ps, qs := Starts(scan, s, i), Starts(scan, s, n);
      ps[|ps| - 1] == qs[|qs| - 1] && Lex(scan, s, i).end == Lex(scan, s, n).end
  {
    LexStep(scan, s, i, j, n);
    StartsStep(scan, s, i, j, n);
    var qs := Starts(scan, s, n);
    assert ([j] + qs)[|qs|] == qs[|qs| - 1];
  }

  /** Every token of the stream before its terminator is exactly the
      lexeme of the maximal-munch scan at its start, with the kind it names:
      a keyword is never split off the front of a longer word, nor a word
      cut anywhere but where the scan ends. The first start is the first
      non-trivia position of the input, and each next start the first
      non-trivia position after the previous token; `ReadsAt` reads this
      off at any index. */
  lemma TokenizeScans(s: string)
    ensures var ts := Tokenize(s); var ps := Starts(ScanAt, s, 0);
      |ps| == |ts| && ps[0] == Next(s, 0) && ReadsFrom(ScanAt, s, ps, ts[..|ts| - 1])
  {
    var l := Lex(ScanAt, s, 0);
    var ts := Tokenize(s);
    assert ts[..|ts| - 1] == l.tokens;
    LexAt(ScanAt, s, 0);
    StartsFirst(ScanAt, s, 0);
  }

  /** The stream's terminator starts at the last start, as far from the end
      of the input as its text is long, and holds the input from there on.
      It is `TokenEnd` exactly when nothing is left there. */
  lemma TokenizeEnd(s: string)
    ensures var ts := Tokenize(s); var ps := Starts(ScanAt, s, 0);
      var q := ps[|ps| - 1]; var end := ts[|ts| - 1];
      q <= |s| && end.text == s[q..] && q == |s| - |end.text| && (end.kind == TokenEnd <==> q == |s|)
  {
    var l := Lex(ScanAt, s, 0);
    assert Tokenize(s)[|Tokenize(s)| - 1] == l.end;
    LexEnd(ScanAt, s, 0);
  }

  /** Where the stream ends in `Error`, no rule of the table matches at all:
      the lexer gives up only where nothing can be read. */
  lemma TokenizeError(s: string)
    ensures var ts := Tokenize(s); var ps := Starts(ScanAt, s, 0);
      var q := ps[|ps| - 1];
      ts[|ts| - 1].kind == Error ==> q < |s| && NoMatchAt(s, q)
  {
    var l := Lex(ScanAt, s, 0);
    var ps := Starts(ScanAt, s, 0);
    assert Tokenize(s)[|Tokenize(s)| - 1] == l.end;
    LexEnd(ScanAt, s, 0);
    var q := ps[|ps| - 1];
    if q < |s| {
      NothingAt(s, q);
    }
  }

  /** Where `ScanAt` has no lexeme that fits, no rule matches. */
  lemma NothingAt(s: string, q: nat)
    requires q < |s| && (ScanAt(s, q).len == 0 || !Fits(s, q, ScanAt(s, q)))
    ensures NoMatchAt(s, q)
  {
    ScanEmpty(s, q);
  }
}
