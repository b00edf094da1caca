/** The tokenizer derived from the token table: one matcher per rule, each
    giving the length of the longest lexeme it accepts at a position, and a
    maximal-munch scan that keeps the longest of them, a literal winning a
    tie against a regular expression. */
module Lexer {
  import opened Tokens
  import opened Text

  // ----------------------------------------------------------------------
  // Character classes: the bracket expressions of the regular expressions.
  // ----------------------------------------------------------------------

  /** Characters taken to be skipped between tokens: an assumption about the
      tokenizer library (none of them starts a rule). */
  const TriviaChars: set<char> := {' ', '\t', '\r', '\n'}

  datatype CharClass =
    | Trivia         // skipped between tokens
    | Hex            // [0-9a-fA-F_]
    | Width          // [0-9_]
    | IdentCont      // [a-zA-z0-9$_], where A-z runs from 'A' to 'z'
    | DirectiveChar  // [a-zA-Z0-9_]
    | NotNewline     // .
    | NotQuote       // [^"]

  predicate IsDigit(c: char) { '0' <= c <= '9' }

  predicate IsLetter(c: char) { 'a' <= c <= 'z' || 'A' <= c <= 'Z' }

  /** [a-zA-Z_], the first character of an identifier. */
  predicate IsIdentStart(c: char) { IsLetter(c) || c == '_' }

  /** [dDbBoOhH], the base letter of a sized number. */
  predicate IsBase(c: char) {
    c == 'd' || c == 'D' || c == 'b' || c == 'B' || c == 'o' || c == 'O' || c == 'h' || c == 'H'
  }

  predicate InClass(c: char, cc: CharClass) {
    match cc
    case Trivia => c in TriviaChars
    case Hex => IsDigit(c) || 'a' <= c <= 'f' || 'A' <= c <= 'F' || c == '_'
    case Width => IsDigit(c) || c == '_'
    case IdentCont => 'a' <= c <= 'z' || 'A' <= c <= 'z' || IsDigit(c) || c == '$' || c == '_'
    case DirectiveChar => IsLetter(c) || IsDigit(c) || c == '_'
    case NotNewline => c != '\n'
    case NotQuote => c != '"'
  }

  predicate AllIn(w: string, cc: CharClass) {
    forall k :: 0 <= k < |w| ==> InClass(w[k], cc)
  }

  /** Length of the longest run of characters of class `cc` starting at `i`. */
  function Span(s: string, i: nat, cc: CharClass): (n: nat)
    requires i <= |s|
    ensures i + n <= |s|
    ensures i + n == |s| || !InClass(s[i + n], cc)
    decreases |s| - i
  {
    if i < |s| && InClass(s[i], cc) then 1 + Span(s, i + 1, cc) else 0
  }

  /** Every character the span covers is of class `cc`. */
  lemma {:induction false} SpanRun(s: string, i: nat, cc: CharClass, k: nat)
    requires i <= |s| && i <= k < i + Span(s, i, cc)
    ensures InClass(s[k], cc)
    decreases k - i
  {
    if i < k {
      SpanRun(s, i + 1, cc, k);
    }
  }

  /** A character outside `cc` bounds the span before it. */
  lemma {:induction false} SpanBelow(s: string, i: nat, cc: CharClass, k: nat)
    requires i <= k < |s| && !InClass(s[k], cc)
    ensures i + Span(s, i, cc) <= k
    decreases k - i
  {
    if i < k && InClass(s[i], cc) {
      SpanBelow(s, i + 1, cc, k);
    }
  }

  lemma SpanIsRun(s: string, i: nat, cc: CharClass)
    requires i <= |s|
    ensures AllIn(s[i..i + Span(s, i, cc)], cc)
  {
    var w := s[i..i + Span(s, i, cc)];
    forall k | 0 <= k < |w| ensures InClass(w[k], cc) {
      SpanRun(s, i, cc, i + k);
      assert w[k] == s[i + k];
    }
  }

  /** No run of class `cc` at `i` is longer than `Span`. */
  lemma SpanIsMaximal(s: string, i: nat, cc: CharClass, m: nat)
    requires i + m <= |s|
    requires AllIn(s[i..i + m], cc)
    ensures m <= Span(s, i, cc)
  {
    var w := s[i..i + m];
    forall j | i <= j < i + m ensures InClass(s[j], cc) {
      assert w[j - i] == s[j];
    }
  }

  // ----------------------------------------------------------------------
  // The languages of the regular-expression rules, stated on whole words.
  // ----------------------------------------------------------------------

  /** [a-zA-Z_][a-zA-z0-9$_]* */
  predicate IsIdentifierWord(w: string) {
    |w| >= 1 && IsIdentStart(w[0]) && AllIn(w[1..], IdentCont)
  }

  /** "[^"]*" */
  predicate IsStringWord(w: string) {
    |w| >= 2 && w[0] == '"' && w[|w| - 1] == '"' && AllIn(w[1..|w| - 1], NotQuote)
  }

  /** `[a-zA-Z0-9_]+ */
  predicate IsDirectiveWord(w: string) {
    |w| >= 2 && w[0] == '`' && AllIn(w[1..], DirectiveChar)
  }

  /** //.*\n, the newline included */
  predicate IsCommentWord(w: string) {
    |w| >= 3 && w[0] == '/' && w[1] == '/' && w[|w| - 1] == '\n'
    && AllIn(w[2..|w| - 1], NotNewline)
  }

  /** [0-9a-fA-F_]+(ns|ps)? */
  predicate IsBodyWord(w: string) {
    (|w| >= 1 && AllIn(w, Hex))
    || (|w| >= 3 && AllIn(w[..|w| - 2], Hex)
        && (w[|w| - 2] == 'n' || w[|w| - 2] == 'p') && w[|w| - 1] == 's')
  }

  /** ([1-9][0-9_]*)?'[dDbBoOhH] */
  predicate IsBaseWord(w: string) {
    |w| >= 2 && w[|w| - 2] == '\'' && IsBase(w[|w| - 1])
    && (|w| == 2 || ('1' <= w[0] <= '9' && AllIn(w[1..|w| - 2], Width)))
  }

  /** (([1-9][0-9_]*)?'[dDbBoOhH])?[0-9a-fA-F_]+(ns|ps)? */
  ghost predicate IsNumberWord(w: string) {
    IsBodyWord(w) || exists p :: IsSizedNumberSplit(w, p)
  }

  /** `w` is a size and base prefix of length `p` followed by a body. */
  predicate IsSizedNumberSplit(w: string, p: nat) {
    2 <= p < |w| && IsBaseWord(w[..p]) && IsBodyWord(w[p..])
  }

  /** The words a rule accepts; the special kinds accept none. */
  ghost predicate Matches(k: Kind, w: string) {
    if k.Number? then IsNumberWord(w)
    else if k.Identifier? then IsIdentifierWord(w)
    else if k.String? then IsStringWord(w)
    else if k.Directive? then IsDirectiveWord(w)
    else if k.Comment? then IsCommentWord(w)
    else IsLiteral(k) && w == LiteralText(k)
  }

  // ----------------------------------------------------------------------
  // Matchers: the length each rule accepts at position i (0 for none).
  // ----------------------------------------------------------------------

  function LiteralLen(s: string, i: nat, k: Kind): (n: nat)
    requires i <= |s|
    ensures i + n <= |s|
  {
    var t := LiteralText(k);
    if |t| <= |s| - i && s[i..i + |t|] == t then |t| else 0
  }

  function IdentifierLen(s: string, i: nat): (n: nat)
    requires i <= |s|
    ensures i + n <= |s|
  {
    if i < |s| && IsIdentStart(s[i]) then 1 + Span(s, i + 1, IdentCont) else 0
  }

  function StringLen(s: string, i: nat): (n: nat)
    requires i <= |s|
    ensures i + n <= |s|
  {
    if i < |s| && s[i] == '"' then
      var r := Span(s, i + 1, NotQuote);
      if i + 1 + r < |s| then r + 2 else 0
    else 0
  }

  function DirectiveLen(s: string, i: nat): (n: nat)
    requires i <= |s|
    ensures i + n <= |s|
  {
    if i < |s| && s[i] == '`' then
      var r := Span(s, i + 1, DirectiveChar);
      if r > 0 then r + 1 else 0
    else 0
  }

  function CommentLen(s: string, i: nat): (n: nat)
    requires i <= |s|
    ensures i + n <= |s|
  {
    if i + 1 < |s| && s[i] == '/' && s[i + 1] == '/' then
      var r := Span(s, i + 2, NotNewline);
      if i + 2 + r < |s| then r + 3 else 0
    else 0
  }

  /** (ns|ps) */
  function UnitLen(s: string, i: nat): (n: nat)
    requires i <= |s|
    ensures i + n <= |s|
  {
    if i + 2 <= |s| && (s[i] == 'n' || s[i] == 'p') && s[i + 1] == 's' then 2 else 0
  }

  /** [0-9a-fA-F_]+(ns|ps)? */
  function BodyLen(s: string, i: nat): (n: nat)
    requires i <= |s|
    ensures i + n <= |s|
  {
    var h := Span(s, i, Hex);
    if h == 0 then 0 else h + UnitLen(s, i + h)
  }

  /** ([1-9][0-9_]*)?'[dDbBoOhH] */
  function BaseLen(s: string, i: nat): (n: nat)
    requires i <= |s|
    ensures i + n <= |s|
  {
    if i + 1 < |s| && s[i] == '\'' then
      (if IsBase(s[i + 1]) then 2 else 0)
    else if i < |s| && '1' <= s[i] <= '9' then
      var q := i + 1 + Span(s, i + 1, Width);
      if q + 1 < |s| && s[q] == '\'' && IsBase(s[q + 1]) then q + 2 - i else 0
    else 0
  }

  function Max(a: nat, b: nat): (m: nat) { if a < b then b else a }

  function NumberLen(s: string, i: nat): (n: nat)
    requires i <= |s|
    ensures i + n <= |s|
  {
    var p := BaseLen(s, i);
    var based := if p > 0 && BodyLen(s, i + p) > 0 then p + BodyLen(s, i + p) else 0;
    Max(based, BodyLen(s, i))
  }

  /** The length the rule of kind `k` accepts at `i`. */
  function RuleLen(s: string, i: nat, k: Kind): (n: nat)
    requires i <= |s|
    ensures i + n <= |s|
  {
    if k.Number? then NumberLen(s, i)
    else if k.Identifier? then IdentifierLen(s, i)
    else if k.String? then StringLen(s, i)
    else if k.Directive? then DirectiveLen(s, i)
    else if k.Comment? then CommentLen(s, i)
    else LiteralLen(s, i, k)
  }

  // ----------------------------------------------------------------------
  // Each matcher returns the longest prefix its rule's language accepts.
  // ----------------------------------------------------------------------

  lemma IdentifierLongest(s: string, i: nat, m: nat)
    requires i <= |s|
    ensures var n := IdentifierLen(s, i);
      (n > 0 ==> IsIdentifierWord(s[i..i + n]))
      && (n < m <= |s| - i ==> !IsIdentifierWord(s[i..i + m]))
  {
    var n := IdentifierLen(s, i);
    if n > 0 {
      SpanIsRun(s, i + 1, IdentCont);
      DropOfSlice(s, i, i + n, 1);
    }
    if 0 < m <= |s| - i && IsIdentifierWord(s[i..i + m]) {
      DropOfSlice(s, i, i + m, 1);
      SpanIsMaximal(s, i + 1, IdentCont, m - 1);
    }
  }

  lemma StringLongest(s: string, i: nat, m: nat)
    requires i <= |s|
    ensures var n := StringLen(s, i);
      (n > 0 ==> IsStringWord(s[i..i + n]))
      && (n < m <= |s| - i ==> !IsStringWord(s[i..i + m]))
  {
    StringAccepted(s, i);
    if 0 < m <= |s| - i && IsStringWord(s[i..i + m]) {
      StringNoLonger(s, i, m);
    }
  }

  lemma StringAccepted(s: string, i: nat)
    requires i <= |s|
    ensures StringLen(s, i) > 0 ==> IsStringWord(s[i..i + StringLen(s, i)])
  {
    var n := StringLen(s, i);
    if n > 0 {
      var r := Span(s, i + 1, NotQuote);
      assert n == r + 2;
      SpanIsRun(s, i + 1, NotQuote);
      SliceOfSlice(s, i, i + n, 1, n - 1);
    }
  }

  lemma StringNoLonger(s: string, i: nat, m: nat)
    requires 0 < m <= |s| - i && IsStringWord(s[i..i + m])
    ensures StringLen(s, i) == m
  {
    SliceOfSlice(s, i, i + m, 1, m - 1);
    SpanIsMaximal(s, i + 1, NotQuote, m - 2);
    assert s[i..i + m][m - 1] == s[i + m - 1];
    SpanBelow(s, i + 1, NotQuote, i + m - 1);
  }

  lemma DirectiveLongest(s: string, i: nat, m: nat)
    requires i <= |s|
    ensures var n := DirectiveLen(s, i);
      (n > 0 ==> IsDirectiveWord(s[i..i + n]))
      && (n < m <= |s| - i ==> !IsDirectiveWord(s[i..i + m]))
  {
    var n := DirectiveLen(s, i);
    if n > 0 {
      SpanIsRun(s, i + 1, DirectiveChar);
      DropOfSlice(s, i, i + n, 1);
    }
    if 0 < m <= |s| - i && IsDirectiveWord(s[i..i + m]) {
      DropOfSlice(s, i, i + m, 1);
      SpanIsMaximal(s, i + 1, DirectiveChar, m - 1);
    }
  }

  lemma CommentLongest(s: string, i: nat, m: nat)
    requires i <= |s|
    ensures var n := CommentLen(s, i);
      (n > 0 ==> IsCommentWord(s[i..i + n]))
      && (n < m <= |s| - i ==> !IsCommentWord(s[i..i + m]))
  {
    CommentAccepted(s, i);
    if 0 < m <= |s| - i && IsCommentWord(s[i..i + m]) {
      CommentNoLonger(s, i, m);
    }
  }

  lemma CommentAccepted(s: string, i: nat)
    requires i <= |s|
    ensures CommentLen(s, i) > 0 ==> IsCommentWord(s[i..i + CommentLen(s, i)])
  {
    var n := CommentLen(s, i);
    if n > 0 {
      var r := Span(s, i + 2, NotNewline);
      assert n == r + 3;
      SpanIsRun(s, i + 2, NotNewline);
      SliceOfSlice(s, i, i + n, 2, n - 1);
    }
  }

  lemma CommentNoLonger(s: string, i: nat, m: nat)
    requires 0 < m <= |s| - i && IsCommentWord(s[i..i + m])
    ensures CommentLen(s, i) == m
  {
    SliceOfSlice(s, i, i + m, 2, m - 1);
    SpanIsMaximal(s, i + 2, NotNewline, m - 3);
    assert s[i..i + m][m - 1] == s[i + m - 1];
    SpanBelow(s, i + 2, NotNewline, i + m - 1);
  }

  /** The body of a number, [0-9a-fA-F_]+(ns|ps)?, is accepted as measured. */
  lemma BodyAccepted(s: string, i: nat)
    requires i <= |s|
    ensures BodyLen(s, i) > 0 ==> IsBodyWord(s[i..i + BodyLen(s, i)])
  {
    var h := Span(s, i, Hex);
    var b := BodyLen(s, i);
    SpanIsRun(s, i, Hex);
    if b > 0 && UnitLen(s, i + h) == 2 {
      TakeOfSlice(s, i, i + b, b - 2);
    }
  }

  /** No body word at `i` is longer than the measured body. */
  lemma BodyNoLonger(s: string, i: nat, m: nat)
    requires 0 < m <= |s| - i && IsBodyWord(s[i..i + m])
    ensures m <= BodyLen(s, i)
  {
    var w := s[i..i + m];
    if AllIn(w, Hex) {
      SpanIsMaximal(s, i, Hex, m);
    } else {
      TakeOfSlice(s, i, i + m, m - 2);
      assert w[m - 2] == s[i + m - 2] && w[m - 1] == s[i + m - 1];
      BodyWithUnit(s, i, m);
    }
  }

  /** A hex run followed by a time unit is measured whole. */
  lemma BodyWithUnit(s: string, i: nat, m: nat)
    requires 3 <= m <= |s| - i
    requires AllIn(s[i..i + m - 2], Hex)
    requires (s[i + m - 2] == 'n' || s[i + m - 2] == 'p') && s[i + m - 1] == 's'
    ensures BodyLen(s, i) == m
  {
    SpanIsMaximal(s, i, Hex, m - 2);
    SpanBelow(s, i, Hex, i + m - 2);
  }

  /** The size and base prefix is accepted as measured. */
  lemma BaseAccepted(s: string, i: nat)
    requires i <= |s|
    ensures BaseLen(s, i) > 0 ==> BaseLen(s, i) >= 2 && IsBaseWord(s[i..i + BaseLen(s, i)])
  {
    var p := BaseLen(s, i);
    if p > 0 && s[i] != '\'' {
      var r := Span(s, i + 1, Width);
      assert p == r + 3;
      SpanIsRun(s, i + 1, Width);
      SliceOfSlice(s, i, i + p, 1, p - 2);
    }
  }

  /** The size and base prefix, when present, has one length only. */
  lemma BaseUnique(s: string, i: nat, q: nat)
    requires 2 <= q <= |s| - i && IsBaseWord(s[i..i + q])
    ensures BaseLen(s, i) == q
  {
    var w := s[i..i + q];
    if q == 2 {
      assert w[0] == s[i] && w[1] == s[i + 1];
    } else {
      SliceOfSlice(s, i, i + q, 1, q - 2);
      assert w[0] == s[i] && w[q - 2] == s[i + q - 2] && w[q - 1] == s[i + q - 1];
      SizedBase(s, i, q);
    }
  }

  /** A width, a quote and a base letter are measured whole. */
  lemma SizedBase(s: string, i: nat, q: nat)
    requires 3 <= q <= |s| - i
    requires '1' <= s[i] <= '9' && AllIn(s[i + 1..i + q - 2], Width)
    requires s[i + q - 2] == '\'' && IsBase(s[i + q - 1])
    ensures BaseLen(s, i) == q
  {
    SpanIsMaximal(s, i + 1, Width, q - 3);
    SpanBelow(s, i + 1, Width, i + q - 2);
  }

  lemma NumberLongest(s: string, i: nat, m: nat)
    requires i <= |s|
    ensures var n := NumberLen(s, i);
      (n > 0 ==> IsNumberWord(s[i..i + n]))
      && (n < m <= |s| - i ==> !IsNumberWord(s[i..i + m]))
  {
    NumberAccepted(s, i);
    if 0 < m <= |s| - i && IsNumberWord(s[i..i + m]) {
      NumberNoLonger(s, i, m);
    }
  }

  lemma NumberAccepted(s: string, i: nat)
    requires i <= |s|
    ensures NumberLen(s, i) > 0 ==> IsNumberWord(s[i..i + NumberLen(s, i)])
  {
    var p := BaseLen(s, i);
    var b := BodyLen(s, i + p);
    if p > 0 && b > 0 && BodyLen(s, i) <= p + b {
      BasedAccepted(s, i, p, NumberLen(s, i));
    } else {
      assert NumberLen(s, i) == BodyLen(s, i);
      BodyAccepted(s, i);
      if BodyLen(s, i) > 0 {
        NumberFromBody(s[i..i + BodyLen(s, i)]);
      }
    }
  }

  lemma BasedAccepted(s: string, i: nat, p: nat, n: nat)
    requires i <= |s|
    requires p == BaseLen(s, i) > 0 && n == p + BodyLen(s, i + p) && n > p
    ensures IsNumberWord(s[i..i + n])
  {
    BaseAccepted(s, i);
    BodyAccepted(s, i + p);
    NumberFromParts(s, i, p, n);
  }

  lemma NumberFromBody(w: string)
    requires IsBodyWord(w)
    ensures IsNumberWord(w)
  {
  }

  /** A size and base prefix followed by a body is a number. */
  lemma NumberFromParts(s: string, i: nat, p: nat, n: nat)
    requires 2 <= p < n <= |s| - i
    requires IsBaseWord(s[i..i + p]) && IsBodyWord(s[i + p..i + n])
    ensures IsNumberWord(s[i..i + n])
  {
    TakeOfSlice(s, i, i + n, p);
    DropOfSlice(s, i, i + n, p);
    assert IsSizedNumberSplit(s[i..i + n], p);
  }

  /** No number word at `i` is longer than the measured number. */
  lemma NumberNoLonger(s: string, i: nat, m: nat)
    requires 0 < m <= |s| - i && IsNumberWord(s[i..i + m])
    ensures m <= NumberLen(s, i)
  {
    var w := s[i..i + m];
    if IsBodyWord(w) {
      BodyNoLonger(s, i, m);
    } else {
      var q :| IsSizedNumberSplit(w, q);
      TakeOfSlice(s, i, i + m, q);
      DropOfSlice(s, i, i + m, q);
      BasedNoLonger(s, i, q, m);
    }
  }

  lemma BasedNoLonger(s: string, i: nat, q: nat, m: nat)
    requires 2 <= q < m <= |s| - i
    requires IsBaseWord(s[i..i + q]) && IsBodyWord(s[i + q..i + m])
    ensures m <= NumberLen(s, i)
  {
    BaseUnique(s, i, q);
    BodyNoLonger(s, i + q, m - q);
    BasedWithin(s, i, q, m - q);
  }

  /** The number matcher takes at least a prefix and part of the body after it. */
  lemma BasedWithin(s: string, i: nat, q: nat, b: nat)
    requires i <= |s| && 0 < q == BaseLen(s, i) && 0 < b <= BodyLen(s, i + q)
    ensures q + b <= NumberLen(s, i)
  {
  }

  /** `s` holds a word of rule `k`'s language, `m` characters long, at `i`. */
  ghost predicate AcceptsAt(s: string, i: nat, k: Kind, m: nat) {
    i + m <= |s| && Matches(k, s[i..i + m])
  }

  /** Every matcher gives the longest word of its rule's language that starts
      at `i`, or 0 when no non-empty word of the language starts there. */
  lemma RuleLenIsLongest(s: string, i: nat, k: Kind)
    requires i <= |s|
    ensures RuleLen(s, i, k) > 0 ==> AcceptsAt(s, i, k, RuleLen(s, i, k))
    ensures forall m :: RuleLen(s, i, k) < m ==> !AcceptsAt(s, i, k, m)
  {
    var n := RuleLen(s, i, k);
    forall m | n < m ensures !AcceptsAt(s, i, k, m) {
      if m <= |s| - i {
        RuleNoLonger(s, i, k, m);
      }
    }
    RuleAccepted(s, i, k);
  }

  /** A non-empty length from a matcher is a word of its rule; for the
      literals this is immediate from `LiteralLen`. */
  lemma RuleAccepted(s: string, i: nat, k: Kind)
    requires i <= |s|
    ensures RuleLen(s, i, k) == 0 || Matches(k, s[i..i + RuleLen(s, i, k)])
  {
    if k.Number? {
      NumberAccepts(s, i);
    } else if k.Identifier? {
      IdentifierAccepts(s, i);
    } else if k.String? {
      StringAccepts(s, i);
    } else if k.Directive? {
      DirectiveAccepts(s, i);
    } else if k.Comment? {
      CommentAccepts(s, i);
    } else {
      LiteralAccepts(s, i, k);
    }
  }

  // The same, one regular-expression rule at a time. These only split the
  // case analysis so that each proof handles one rule.

  lemma NumberAccepts(s: string, i: nat)
    requires i <= |s|
    ensures RuleLen(s, i, Number) == 0 || Matches(Number, s[i..i + RuleLen(s, i, Number)])
  {
    NumberLongest(s, i, 0);
  }

  lemma IdentifierAccepts(s: string, i: nat)
    requires i <= |s|
    ensures RuleLen(s, i, Identifier) == 0 || Matches(Identifier, s[i..i + RuleLen(s, i, Identifier)])
  {
    IdentifierLongest(s, i, 0);
  }

  lemma StringAccepts(s: string, i: nat)
    requires i <= |s|
    ensures RuleLen(s, i, String) == 0 || Matches(String, s[i..i + RuleLen(s, i, String)])
  {
    StringLongest(s, i, 0);
  }

  lemma DirectiveAccepts(s: string, i: nat)
    requires i <= |s|
    ensures RuleLen(s, i, Directive) == 0 || Matches(Directive, s[i..i + RuleLen(s, i, Directive)])
  {
    DirectiveLongest(s, i, 0);
  }

  lemma CommentAccepts(s: string, i: nat)
    requires i <= |s|
    ensures RuleLen(s, i, Comment) == 0 || Matches(Comment, s[i..i + RuleLen(s, i, Comment)])
  {
    CommentLongest(s, i, 0);
  }

  lemma LiteralAccepts(s: string, i: nat, k: Kind)
    requires i <= |s| && !k.Number? && !k.Identifier? && !k.String? && !k.Directive? && !k.Comment?
    ensures RuleLen(s, i, k) == 0 || Matches(k, s[i..i + RuleLen(s, i, k)])
  {
    LiteralPresent(s, i, k);
  }

  lemma RuleNoLonger(s: string, i: nat, k: Kind, m: nat)
    requires i <= |s| && RuleLen(s, i, k) < m <= |s| - i
    ensures !Matches(k, s[i..i + m])
  {
    if k.Number? {
      NumberLongest(s, i, m);
    } else if k.Identifier? {
      IdentifierLongest(s, i, m);
    } else if k.String? {
      StringLongest(s, i, m);
    } else if k.Directive? {
      DirectiveLongest(s, i, m);
    } else if k.Comment? {
      CommentLongest(s, i, m);
    } else {
      LiteralLongest(s, i, k, m);
    }
  }

  /** The literal matcher accepts nothing longer than the literal text. */
  lemma LiteralLongest(s: string, i: nat, k: Kind, m: nat)
    requires i <= |s|
    ensures LiteralLen(s, i, k) < m <= |s| - i ==> s[i..i + m] != LiteralText(k)
  {
    var t := LiteralText(k);
    if m <= |s| - i && s[i..i + m] == t {
      assert |t| == m;
    }
  }

  /** A non-empty length from the literal matcher is the literal text. */
  lemma LiteralPresent(s: string, i: nat, k: Kind)
    requires i <= |s|
    ensures LiteralLen(s, i, k) == 0 || s[i..i + LiteralLen(s, i, k)] == LiteralText(k)
  {
  }

  // ----------------------------------------------------------------------
  // Maximal munch: the longest match over all rules.
  // ----------------------------------------------------------------------

  /** The winner of one scan: a kind and the length of its lexeme. */
  datatype Match = Match(kind: Kind, len: nat)

  /** The longest of the first `n` literals of the table present at `i`
      (length 0 when none is). */
  function LongestLiteral(s: string, i: nat, n: nat): (m: Match)
    requires i <= |s| && n <= |LiteralKinds|
    ensures i + m.len <= |s|
    ensures m.len > 0 ==> IsLiteral(m.kind) && LiteralLen(s, i, m.kind) == m.len
  {
    if n == 0 then Match(Error, 0)
    else
      var rest := LongestLiteral(s, i, n - 1);
      var k := LiteralKinds[n - 1];
      var len := LiteralLen(s, i, k);
      if rest.len < len then Match(k, len) else rest
  }

  /** No literal among the first `n` is longer at `i` than the longest. */
  lemma {:induction false} LongestLiteralIsLongest(s: string, i: nat, n: nat, j: nat)
    requires i <= |s| && j < n <= |LiteralKinds|
    ensures LiteralLen(s, i, LiteralKinds[j]) <= LongestLiteral(s, i, n).len
    decreases n
  {
    LongestLiteralStep(s, i, n);
    if j < n - 1 {
      LongestLiteralIsLongest(s, i, n - 1, j);
    }
  }

  lemma LongestLiteralStep(s: string, i: nat, n: nat)
    requires i <= |s| && 0 < n <= |LiteralKinds|
    ensures var m := LongestLiteral(s, i, n);
      LongestLiteral(s, i, n - 1).len <= m.len && LiteralLen(s, i, LiteralKinds[n - 1]) <= m.len
  {
  }

  /** The priority group of a rule: 0 for the literals, then identifier,
      number, string, directive and comment. */
  function Rank(k: Kind): (r: nat) {
    if k.Identifier? then 1
    else if k.Number? then 2
    else if k.String? then 3
    else if k.Directive? then 4
    else if k.Comment? then 5
    else 0
  }

  const Groups: nat := 6

  /** The longest lexeme each priority group accepts at `i`, in priority
      order: the longest literal, then the identifier, number, string,
      directive and comment rules. */
  function Candidates(s: string, i: nat): (cs: seq<Match>)
    requires i <= |s|
    ensures |cs| == Groups
    ensures forall h :: 0 <= h < |cs| ==> i + cs[h].len <= |s| && (cs[h].len > 0 ==> !IsTerminator(cs[h].kind))
  {
    [ LongestLiteral(s, i, |LiteralKinds|),
      Match(Identifier, IdentifierLen(s, i)),
      Match(Number, NumberLen(s, i)),
      Match(String, StringLen(s, i)),
      Match(Directive, DirectiveLen(s, i)),
      Match(Comment, CommentLen(s, i)) ]
  }

  /** Each candidate is measured by the rule of its kind, and its kind
      belongs to its group. */
  lemma GroupRule(s: string, i: nat, h: nat)
    requires i <= |s| && h < Groups
    ensures var m := Candidates(s, i)[h];
      m.len > 0 ==> Rank(m.kind) == h && RuleLen(s, i, m.kind) == m.len && (h == 0 ==> IsLiteral(m.kind))
  {
    var m := Candidates(s, i)[h];
    if h == 0 {
      LiteralRule(s, i, m.kind);
    } else {
      RegexRules(s, i);
    }
  }

  /** Every non-empty candidate sits at the index of its own group. */
  predicate Ranked(cs: seq<Match>) {
    forall h :: 0 <= h < |cs| && cs[h].len > 0 ==> Rank(cs[h].kind) == h
  }

  lemma CandidatesRanked(s: string, i: nat)
    requires i <= |s|
    ensures Ranked(Candidates(s, i))
  {
    forall h | 0 <= h < Groups && Candidates(s, i)[h].len > 0
      ensures Rank(Candidates(s, i)[h].kind) == h
    {
      GroupRule(s, i, h);
    }
  }

  /** Maximal munch among the first `g` candidates: the longest, the
      earlier on a tie, `Error` with length 0 when all are empty. */
  function Best(cs: seq<Match>, g: nat): (m: Match)
    requires g <= |cs|
    ensures m.len == 0 ==> m.kind == Error
    ensures m.len > 0 ==> m in cs
  {
    if g == 0 then Match(Error, 0)
    else
      var r := Best(cs, g - 1);
      var c := cs[g - 1];
      if r.len < c.len then c else r
  }

  /** The choice `Best` makes among ranked candidates: the one of its own
      group, at least as long as each of them, and from the earliest group
      among the longest. */
  lemma BestChoice(cs: seq<Match>, g: nat)
    requires g <= |cs| && Ranked(cs)
    ensures var m := Best(cs, g);
      && (m.len > 0 ==> Rank(m.kind) < g && m == cs[Rank(m.kind)])
      && (forall h :: 0 <= h < g ==> cs[h].len <= m.len)
      && (forall h :: 0 <= h < g && 0 < cs[h].len == m.len ==> Rank(m.kind) <= h)
  {
    BestIsGroup(cs, g);
    BestIsLongest(cs, g);
    BestTie(cs, g);
  }

  lemma {:induction false} BestIsGroup(cs: seq<Match>, g: nat)
    requires g <= |cs| && Ranked(cs)
    ensures var m := Best(cs, g);
      m.len > 0 ==> Rank(m.kind) < g && m == cs[Rank(m.kind)]
  {
    if g > 0 {
      BestIsGroup(cs, g - 1);
    }
  }

  lemma {:induction false} BestIsLongest(cs: seq<Match>, g: nat)
    requires g <= |cs|
    ensures forall h :: 0 <= h < g ==> cs[h].len <= Best(cs, g).len
  {
    if g > 0 {
      BestIsLongest(cs, g - 1);
    }
  }

  lemma {:induction false} BestTie(cs: seq<Match>, g: nat)
    requires g <= |cs| && Ranked(cs)
    ensures var m := Best(cs, g);
      forall h :: 0 <= h < g && 0 < cs[h].len == m.len ==> Rank(m.kind) <= h
  {
    if g > 0 {
      BestTie(cs, g - 1);
      BestIsGroup(cs, g - 1);
      BestIsLongest(cs, g - 1);
    }
  }

  /** One maximal-munch step at `i`: the longest lexeme any rule accepts
      there; on equal lengths a literal beats every regular expression and
      the regular expressions rank identifier, number, string, directive,
      comment. `Error` with length 0 when no rule accepts a non-empty
      lexeme. */
  function Scan(s: string, i: nat): (m: Match)
    requires i <= |s|
    ensures i + m.len <= |s|
    ensures m.len == 0 ==> m.kind == Error
    ensures m.len > 0 ==> !IsTerminator(m.kind)
  {
    Best(Candidates(s, i), Groups)
  }

  /** The scan's choice among the candidates at `i`. */
  lemma ScanChoice(s: string, i: nat)
    requires i <= |s|
    ensures var cs := Candidates(s, i);
      var m := Scan(s, i);
      && (m.len > 0 ==> Rank(m.kind) < Groups && m == cs[Rank(m.kind)])
      && (forall h :: 0 <= h < Groups ==> cs[h].len <= m.len)
      && (forall h :: 0 <= h < Groups && 0 < cs[h].len == m.len ==> Rank(m.kind) <= h)
  {
    CandidatesRanked(s, i);
    BestChoice(Candidates(s, i), Groups);
  }

  /** The scanned length is what the rule of the scanned kind accepts. */
  lemma ScanRule(s: string, i: nat)
    requires i <= |s|
    ensures Scan(s, i).len > 0 ==> RuleLen(s, i, Scan(s, i).kind) == Scan(s, i).len
  {
    ScanChoice(s, i);
    var m := Scan(s, i);
    if m.len > 0 {
      GroupRule(s, i, Rank(m.kind));
    }
  }

  /** No rule of the table accepts a non-empty lexeme at `i`. */
  predicate NoMatchAt(s: string, i: nat)
    requires i <= |s|
  {
    forall k :: RuleLen(s, i, k) == 0
  }

  /** The scan finds nothing exactly where no rule matches at all. */
  lemma ScanEmpty(s: string, i: nat)
    requires i <= |s|
    ensures Scan(s, i).len == 0 <==> NoMatchAt(s, i)
  {
    ScanRule(s, i);
    if Scan(s, i).len == 0 {
      forall k ensures RuleLen(s, i, k) == 0 {
        ScanBound(s, i, k);
      }
    }
  }

  /** The matcher behind each regular-expression rule: `RuleLen` unfolded,
      kept as a lemma so that proofs using it see only these equations. */
  lemma RegexRules(s: string, i: nat)
    requires i <= |s|
    ensures RuleLen(s, i, Identifier) == IdentifierLen(s, i)
    ensures RuleLen(s, i, Number) == NumberLen(s, i)
    ensures RuleLen(s, i, String) == StringLen(s, i)
    ensures RuleLen(s, i, Directive) == DirectiveLen(s, i)
    ensures RuleLen(s, i, Comment) == CommentLen(s, i)
  {
  }

  /** A literal kind is measured by its literal matcher (`RuleLen`
      unfolded for the literals). */
  lemma LiteralRule(s: string, i: nat, k: Kind)
    requires i <= |s|
    ensures IsLiteral(k) ==> RuleLen(s, i, k) == LiteralLen(s, i, k)
  {
  }

  /** No rule accepts more at `i` than the scan does. */
  lemma ScanBound(s: string, i: nat, k: Kind)
    requires i <= |s|
    ensures RuleLen(s, i, k) <= Scan(s, i).len
  {
    if k.Number? || k.Identifier? || k.String? || k.Directive? || k.Comment? {
      RegexBound(s, i, k);
    } else {
      LiteralBound(s, i, k);
    }
  }

  // The same, for the regular expressions and for the other kinds: a split
  // of the case analysis only.

  lemma RegexBound(s: string, i: nat, k: Kind)
    requires i <= |s| && (k.Number? || k.Identifier? || k.String? || k.Directive? || k.Comment?)
    ensures RuleLen(s, i, k) <= Scan(s, i).len
  {
    RegexRules(s, i);
    ScanChoice(s, i);
    assert Candidates(s, i)[Rank(k)].len == RuleLen(s, i, k);
  }

  lemma LiteralBound(s: string, i: nat, k: Kind)
    requires i <= |s| && !(k.Number? || k.Identifier? || k.String? || k.Directive? || k.Comment?)
    ensures RuleLen(s, i, k) <= Scan(s, i).len
  {
    if IsLiteral(k) {
      LiteralCandidate(s, i, k);
      ScanChoice(s, i);
    }
  }

  /** The scan is the maximal-munch choice among the rules' languages: its
      lexeme is a word of its kind's rule, no rule accepts a longer word,
      a literal accepting the same length wins, then an identifier. */
  lemma MaximalMunch(s: string, i: nat)
    requires i <= |s|
    ensures var m := Scan(s, i);
      && (m.len > 0 ==> AcceptsAt(s, i, m.kind, m.len))
      && (forall k, n :: m.len < n ==> !AcceptsAt(s, i, k, n))
      && (forall k :: m.len > 0 && IsLiteral(k) && AcceptsAt(s, i, k, m.len) ==> IsLiteral(m.kind))
      && (m.len > 0 && AcceptsAt(s, i, Identifier, m.len) ==> m.kind == Identifier || IsLiteral(m.kind))
  {
    ScanRule(s, i);
    var m := Scan(s, i);
    RuleLenIsLongest(s, i, m.kind);
    forall k, n | m.len < n ensures !AcceptsAt(s, i, k, n) {
      NothingLonger(s, i, k, n);
    }
    forall k | m.len > 0 && IsLiteral(k) && AcceptsAt(s, i, k, m.len) ensures IsLiteral(m.kind) {
      LiteralFirst(s, i, k);
    }
    IdentifierBeforeNumber(s, i);
  }

  lemma NothingLonger(s: string, i: nat, k: Kind, n: nat)
    requires i <= |s| && Scan(s, i).len < n
    ensures !AcceptsAt(s, i, k, n)
  {
    ScanBound(s, i, k);
    RuleLenIsLongest(s, i, k);
  }

  /** A literal accepting the scanned length is preferred to every regular
      expression. */
  lemma LiteralFirst(s: string, i: nat, k: Kind)
    requires i <= |s| && IsLiteral(k)
    requires Scan(s, i).len > 0 && AcceptsAt(s, i, k, Scan(s, i).len)
    ensures IsLiteral(Scan(s, i).kind)
  {
    LiteralAtScanLength(s, i, k);
    LiteralCandidate(s, i, k);
    ScanChoice(s, i);
    GroupRule(s, i, 0);
  }

  /** The literal candidate is at least as long as any literal at `i`. */
  lemma LiteralCandidate(s: string, i: nat, k: Kind)
    requires i <= |s| && IsLiteral(k)
    ensures LiteralLen(s, i, k) <= Candidates(s, i)[0].len
  {
    LiteralListed(k);
    var j :| 0 <= j < |LiteralKinds| && LiteralKinds[j] == k;
    LongestLiteralIsLongest(s, i, |LiteralKinds|, j);
  }

  lemma LiteralAtScanLength(s: string, i: nat, k: Kind)
    requires i <= |s| && IsLiteral(k)
    requires Scan(s, i).len > 0 && AcceptsAt(s, i, k, Scan(s, i).len)
    ensures LiteralLen(s, i, k) == Scan(s, i).len
  {
    ScanBound(s, i, k);
    RuleLenIsLongest(s, i, k);
    LiteralRule(s, i, k);
  }

  /** When the identifier is as long as the scan, the scan is that
      identifier or a literal. */
  lemma IdentifierTie(s: string, i: nat)
    requires i <= |s|
    ensures var m := Scan(s, i);
      0 < m.len == IdentifierLen(s, i) ==> m.kind == Identifier || IsLiteral(m.kind)
  {
    ScanChoice(s, i);
    GroupRule(s, i, 0);
    assert Candidates(s, i)[1] == Match(Identifier, IdentifierLen(s, i));
  }

  /** An identifier accepting the scanned length is preferred to a number. */
  lemma IdentifierBeforeNumber(s: string, i: nat)
    requires i <= |s|
    ensures var m := Scan(s, i);
      m.len > 0 && AcceptsAt(s, i, Identifier, m.len) ==> m.kind == Identifier || IsLiteral(m.kind)
  {
    GroupRule(s, i, 1);
    ScanChoice(s, i);
    ScanRule(s, i);
    var m := Scan(s, i);
    ScanBound(s, i, Identifier);
    RuleLenIsLongest(s, i, Identifier);
    RegexRules(s, i);
    if m.len > 0 && AcceptsAt(s, i, Identifier, m.len) {
      assert Candidates(s, i)[1].len == m.len;
      assert Candidates(s, i)[Rank(m.kind)] == m;
    }
  }

  // ----------------------------------------------------------------------
  // What the scan does at a given first character.
  // ----------------------------------------------------------------------

  /** Keywords start with a lower-case letter. */
  lemma KeywordShape(k: Kind)
    ensures IsKeyword(k) ==>
      var t := LiteralText(k);
      |t| > 0 && 'a' <= t[0] <= 'z'
  {
  }

  /** Keywords are spelled with characters that continue an identifier. */
  lemma KeywordSpelling(k: Kind)
    ensures IsKeyword(k) ==> AllIn(LiteralText(k), IdentCont)
  {
    if k == Module || k == EndModule || k == Begin || k == End {
      BlockKeywordsSpelling(k);
    } else if k == Parameter || k == Generate || k == EndGenerate {
      GenerateKeywordsSpelling(k);
    } else if k == Input || k == Output || k == Assign || k == Posedge {
      PortKeywordsSpelling(k);
    } else if k == Wire || k == Reg || k == Logic || k == If || k == Else {
      DeclKeywordsSpelling(k);
    }
  }

  // The same, a few keywords at a time: a split that keeps the character
  // facts of each proof small.

  lemma BlockKeywordsSpelling(k: Kind)
    requires k == Module || k == EndModule || k == Begin || k == End
    ensures AllIn(LiteralText(k), IdentCont)
  {
  }

  lemma GenerateKeywordsSpelling(k: Kind)
    requires k == Parameter || k == Generate || k == EndGenerate
    ensures AllIn(LiteralText(k), IdentCont)
  {
  }

  lemma PortKeywordsSpelling(k: Kind)
    requires k == Input || k == Output || k == Assign || k == Posedge
    ensures AllIn(LiteralText(k), IdentCont)
  {
  }

  lemma DeclKeywordsSpelling(k: Kind)
    requires k == Wire || k == Reg || k == Logic || k == If || k == Else
    ensures AllIn(LiteralText(k), IdentCont)
  {
  }

  /** Every other literal is one or two characters of punctuation, none of
      which can start an identifier, a number, a string or a directive;
      the only one starting with `/` is the division operator. */
  lemma PunctuationShape(k: Kind)
    ensures IsLiteral(k) && !IsKeyword(k) ==>
      var t := LiteralText(k);
      && |t| <= 2 && IsPunctuation(t[0])
      && (t[0] == '/' ==> k == OpDivide)
  {
    if k == Sharp || k == LParen || k == RParen || k == LBracket || k == RBracket || k == LBraces || k == RBraces {
      DelimiterShape(k);
    } else if k == Colon || k == Comma || k == Semicolon || k == Dot || k == Equal || k == At {
      SeparatorShape(k);
    } else if k == OpDivide || k == OpMinus || k == OpNot || k == OpPlus || k == OpInvert || k == OpMultiply || k == OpChoice {
      OperatorShape(k);
    } else if k == OpEqual || k == OpAssign || k == OpLessThan || k == OpGreaterThan || k == OpLeftShift || k == OpGreaterEqual || k == OpAnd {
      ComparisonShape(k);
    }
  }

  // The same, a few literals at a time: a split that keeps each proof small.

  lemma DelimiterShape(k: Kind)
    requires k == Sharp || k == LParen || k == RParen || k == LBracket || k == RBracket || k == LBraces || k == RBraces
    ensures var t := LiteralText(k);
      |t| <= 2 && IsPunctuation(t[0]) && (t[0] == '/' ==> k == OpDivide)
  {
  }

  lemma SeparatorShape(k: Kind)
    requires k == Colon || k == Comma || k == Semicolon || k == Dot || k == Equal || k == At
    ensures var t := LiteralText(k);
      |t| <= 2 && IsPunctuation(t[0]) && (t[0] == '/' ==> k == OpDivide)
  {
  }

  lemma OperatorShape(k: Kind)
    requires k == OpDivide || k == OpMinus || k == OpNot || k == OpPlus || k == OpInvert || k == OpMultiply || k == OpChoice
    ensures var t := LiteralText(k);
      |t| <= 2 && IsPunctuation(t[0]) && (t[0] == '/' ==> k == OpDivide)
  {
  }

  lemma ComparisonShape(k: Kind)
    requires k == OpEqual || k == OpAssign || k == OpLessThan || k == OpGreaterThan || k == OpLeftShift || k == OpGreaterEqual || k == OpAnd
    ensures var t := LiteralText(k);
      |t| <= 2 && IsPunctuation(t[0]) && (t[0] == '/' ==> k == OpDivide)
  {
  }

  /** A character that starts no identifier, number, string or directive. */
  predicate IsPunctuation(c: char) {
    !IsIdentStart(c) && !InClass(c, Hex) && c != '\'' && c != '"' && c != '`'
  }

  /** At a punctuation character only a literal or a comment accepts
      anything, and a comment only at `/`. */
  lemma NoRegexAt(s: string, i: nat, k: Kind)
    requires i < |s|
    ensures IsPunctuation(s[i]) && !IsLiteral(k) && k != Comment ==> RuleLen(s, i, k) == 0
    ensures IsPunctuation(s[i]) && s[i] != '/' ==> CommentLen(s, i) == 0
  {
    if IsPunctuation(s[i]) {
      assert Span(s, i, Hex) == 0;
    }
  }

  /** A non-empty match `m` at `i` that is at least as long as the lexeme
      of the rule of kind `k`, and exactly as long as its own rule's. */
  ghost predicate Munches(s: string, i: nat, k: Kind, m: Match) {
    i <= |s| && RuleLen(s, i, k) <= m.len && 0 < m.len == RuleLen(s, i, m.kind)
  }

  /** Where the rule of kind `k` accepts a lexeme, the scan munches with
      respect to it. */
  lemma ScanIs(s: string, i: nat, k: Kind)
    requires i <= |s| && RuleLen(s, i, k) > 0
    ensures Munches(s, i, k, Scan(s, i))
  {
    ScanBound(s, i, k);
    ScanRule(s, i);
  }

  /** No number starting with a letter or `_` outruns the identifier there:
      the size prefix needs a digit or a quote, and the hex digits and the
      time units are identifier characters. */
  lemma NumberInWord(s: string, i: nat)
    requires i < |s| && IsIdentStart(s[i])
    ensures NumberLen(s, i) <= IdentifierLen(s, i)
  {
    var b := BodyLen(s, i);
    assert BaseLen(s, i) == 0;
    if b > 0 {
      var h := Span(s, i, Hex);
      forall j | i <= j < i + b ensures InClass(s[j], IdentCont) {
        if j < i + h {
          SpanRun(s, i, Hex, j);
        }
      }
      assert AllIn(s[i..i + b], IdentCont);
      SpanIsMaximal(s, i, IdentCont, b);
    }
  }

  /** A literal present at a letter or `_` is a keyword, so it lies within
      the identifier there. */
  lemma KeywordInWord(s: string, i: nat, k: Kind)
    requires i < |s| && IsIdentStart(s[i]) && IsLiteral(k)
    ensures LiteralLen(s, i, k) <= IdentifierLen(s, i)
  {
    var n := LiteralLen(s, i, k);
    if n > 0 {
      LiteralPresent(s, i, k);
      KeywordLetters(s[i..i + n], k);
      SpanIsMaximal(s, i, IdentCont, n);
      IdentifierSpan(s, i);
    }
  }

  /** At a letter or `_` the identifier is the whole run of identifier
      characters. */
  lemma IdentifierSpan(s: string, i: nat)
    requires i < |s| && IsIdentStart(s[i])
    ensures IdentifierLen(s, i) == Span(s, i, IdentCont)
  {
    assert InClass(s[i], IdentCont);
  }

  /** A literal text that starts like an identifier is a keyword, all of
      whose characters continue an identifier. */
  lemma KeywordLetters(w: string, k: Kind)
    requires IsLiteral(k) && LiteralText(k) == w && IsIdentStart(w[0])
    ensures AllIn(w, IdentCont)
  {
    PunctuationShape(k);
    KeywordSpelling(k);
  }

  /** At a letter or `_` the scan takes the whole identifier run (every
      character of [a-zA-z0-9$_] that follows). */
  lemma WordLength(s: string, i: nat)
    requires i < |s| && IsIdentStart(s[i])
    ensures Scan(s, i).len == IdentifierLen(s, i)
  {
    forall m: Match
      ensures Munches(s, i, Identifier, m) ==> m.len == IdentifierLen(s, i)
    {
      WordWins(s, i, m);
    }
    ScanIs(s, i, Identifier);
  }

  /** No rule accepts more at a letter or `_` than the identifier does. */
  lemma WordWins(s: string, i: nat, m: Match)
    requires i < |s| && IsIdentStart(s[i])
    ensures Munches(s, i, Identifier, m) ==> m.len == IdentifierLen(s, i)
  {
    RegexRules(s, i);
    NumberInWord(s, i);
    LiteralRule(s, i, m.kind);
    if IsLiteral(m.kind) {
      KeywordInWord(s, i, m.kind);
    }
  }

  /** The token at a letter or `_` is the keyword whose text is the whole
      identifier run, when there is one, and an identifier otherwise:
      `reg` is `Reg`, `reg_abc` and `a[7` are identifiers. */
  lemma WordToken(s: string, i: nat)
    requires i < |s| && IsIdentStart(s[i])
    ensures var m := Scan(s, i);
      var w := s[i..i + IdentifierLen(s, i)];
      && m.len == IdentifierLen(s, i)
      && (m.kind == Identifier || (IsLiteral(m.kind) && LiteralText(m.kind) == w))
      && (forall k :: IsLiteral(k) && LiteralText(k) == w ==> IsLiteral(m.kind))
  {
    WordLength(s, i);
    WordKind(s, i);
    forall k | IsLiteral(k) && LiteralText(k) == s[i..i + IdentifierLen(s, i)]
      ensures IsLiteral(Scan(s, i).kind)
    {
      KeywordWins(s, i, k);
    }
  }

  lemma WordKind(s: string, i: nat)
    requires i < |s| && IsIdentStart(s[i])
    ensures var m := Scan(s, i);
      m.kind == Identifier || (IsLiteral(m.kind) && LiteralText(m.kind) == s[i..i + m.len])
  {
    ScanRule(s, i);
    WordLength(s, i);
    IdentifierTie(s, i);
    LiteralRule(s, i, Scan(s, i).kind);
    LiteralPresent(s, i, Scan(s, i).kind);
  }

  lemma KeywordWins(s: string, i: nat, k: Kind)
    requires i < |s| && IsIdentStart(s[i]) && IsLiteral(k)
    requires LiteralText(k) == s[i..i + IdentifierLen(s, i)]
    ensures IsLiteral(Scan(s, i).kind)
  {
    WordLength(s, i);
    assert AcceptsAt(s, i, k, Scan(s, i).len);
    LiteralFirst(s, i, k);
  }

  /** A digit starts a number and nothing else: no literal starts with a
      digit and the other rules need a letter, a quote or a slash. */
  lemma DigitToken(s: string, i: nat)
    requires i < |s| && IsDigit(s[i])
    ensures Scan(s, i) == Match(Number, NumberLen(s, i)) && NumberLen(s, i) > 0
  {
    assert Span(s, i, Hex) > 0;
    forall m: Match
      ensures Munches(s, i, Number, m) ==> m == Match(Number, NumberLen(s, i))
    {
      DigitWins(s, i, m);
    }
    ScanIs(s, i, Number);
  }

  lemma DigitWins(s: string, i: nat, m: Match)
    requires i < |s| && IsDigit(s[i])
    ensures Munches(s, i, Number, m) ==> m == Match(Number, NumberLen(s, i))
  {
    RegexRules(s, i);
    LiteralRule(s, i, m.kind);
    LiteralPresent(s, i, m.kind);
    KeywordShape(m.kind);
    PunctuationShape(m.kind);
  }

  /** The two-character operators. */
  predicate IsTwoCharOperator(k: Kind) {
    k == OpEqual || k == OpAssign || k == OpLeftShift || k == OpGreaterEqual || k == OpAnd
  }

  lemma TwoCharTextNamesKind(k: Kind, k': Kind)
    ensures IsTwoCharOperator(k) && LiteralText(k') == LiteralText(k) ==> k' == k
  {
    if !IsTwoCharOperator(k) || LiteralText(k') != LiteralText(k) {
    } else if k == OpEqual {
      OpEqualText(k');
    } else if k == OpAssign {
      OpAssignText(k');
    } else if k == OpLeftShift {
      OpLeftShiftText(k');
    } else if k == OpGreaterEqual {
      OpGreaterEqualText(k');
    } else {
      OpAndText(k');
    }
  }

  /** `==`, `<=`, `<<`, `>=` and `&&` are scanned whole, never as two
      one-character tokens. */
  lemma OperatorToken(s: string, i: nat, k: Kind)
    requires IsTwoCharOperator(k) && i + 2 <= |s| && s[i..i + 2] == LiteralText(k)
    ensures Scan(s, i) == Match(k, 2)
  {
    forall m: Match
      ensures Munches(s, i, k, m) ==> m == Match(k, 2)
    {
      OperatorWins(s, i, k, m);
    }
    LiteralRule(s, i, k);
    ScanIs(s, i, k);
  }

  lemma OperatorWins(s: string, i: nat, k: Kind, m: Match)
    requires IsTwoCharOperator(k) && i + 2 <= |s| && s[i..i + 2] == LiteralText(k)
    ensures Munches(s, i, k, m) ==> m == Match(k, 2)
  {
    assert s[i] == LiteralText(k)[0];
    PunctuationShape(k);
    NoRegexAt(s, i, m.kind);
    LiteralRule(s, i, k);
    LiteralRule(s, i, m.kind);
    LiteralPresent(s, i, m.kind);
    KeywordShape(m.kind);
    PunctuationShape(m.kind);
    TwoCharTextNamesKind(k, m.kind);
  }

  /** At `//` the scan gives a comment running to the first newline, and
      the single `/` operator when no newline follows. */
  lemma SlashToken(s: string, i: nat)
    requires i + 1 < |s| && s[i] == '/' && s[i + 1] == '/'
    ensures Scan(s, i) == if CommentLen(s, i) > 0 then Match(Comment, CommentLen(s, i)) else Match(OpDivide, 1)
  {
    forall m: Match
      ensures Munches(s, i, OpDivide, m) && RuleLen(s, i, Comment) <= m.len ==>
        m == if CommentLen(s, i) > 0 then Match(Comment, CommentLen(s, i)) else Match(OpDivide, 1)
    {
      SlashWins(s, i, m);
    }
    LiteralRule(s, i, OpDivide);
    ScanIs(s, i, OpDivide);
    ScanBound(s, i, Comment);
  }

  lemma SlashWins(s: string, i: nat, m: Match)
    requires i + 1 < |s| && s[i] == '/' && s[i + 1] == '/'
    ensures Munches(s, i, OpDivide, m) && RuleLen(s, i, Comment) <= m.len ==>
      m == if CommentLen(s, i) > 0 then Match(Comment, CommentLen(s, i)) else Match(OpDivide, 1)
  {
    NoRegexAt(s, i, m.kind);
    LiteralRule(s, i, OpDivide);
    LiteralRule(s, i, m.kind);
    LiteralPresent(s, i, m.kind);
    KeywordShape(m.kind);
    PunctuationShape(m.kind);
  }

  /** A comment needs a newline after its `//`: it runs to the first one. */
  lemma CommentNeedsNewline(s: string, i: nat)
    requires i + 1 < |s| && s[i] == '/' && s[i + 1] == '/'
    ensures CommentLen(s, i) > 0 <==> exists j :: i + 2 <= j < |s| && s[j] == '\n'
    ensures CommentLen(s, i) > 0 ==>
      (s[i + CommentLen(s, i) - 1] == '\n' && forall j :: i + 2 <= j < i + CommentLen(s, i) - 1 ==> s[j] != '\n')
  {
    var r := Span(s, i + 2, NotNewline);
    forall j | i + 2 <= j < i + 2 + r ensures s[j] != '\n' {
      SpanRun(s, i + 2, NotNewline, j);
    }
    if i + 2 + r < |s| {
      assert s[i + 2 + r] == '\n';
    }
  }

  // ----------------------------------------------------------------------
  // Examples.
  // ----------------------------------------------------------------------

  /** The exact word `reg` is the keyword: the literal wins the tie with the
      identifier of the same length. */
  lemma RegIsKeyword()
    ensures Scan("reg", 0) == Match(Reg, 3)
  {
    var s := "reg";
    assert s[0..3] == s == LiteralText(Reg);
    assert IdentifierLen(s, 0) == 3;
    KeywordWins(s, 0, Reg);
    WordLength(s, 0);
    WordKind(s, 0);
    RegTextNamesKind(Scan(s, 0).kind);
  }

  lemma RegTextNamesKind(k: Kind)
    requires IsLiteral(k) && LiteralText(k) == "reg"
    ensures k == Reg
  {
  }

  /** A keyword followed by identifier characters is one identifier. */
  lemma KeywordPrefixIsIdentifier()
    ensures Scan("reg_abc", 0) == Match(Identifier, 7)
  {
    var s := "reg_abc";
    assert s[0..7] == s;
    assert IdentifierLen(s, 0) == 7;
    WordToken(s, 0);
    NoLiteralText(Scan(s, 0).kind, s);
  }

  /** The identifier class runs from `A` to `z`, so brackets continue an
      identifier. */
  lemma BracketInIdentifier()
    ensures Scan("a[7", 0) == Match(Identifier, 3)
  {
    var s := "a[7";
    assert s[0..3] == s;
    assert IdentifierLen(s, 0) == 3;
    WordToken(s, 0);
    NoLiteralText(Scan(s, 0).kind, s);
  }

  lemma NoLiteralText(k: Kind, w: string)
    requires w == "reg_abc" || w == "a[7"
    ensures LiteralText(k) != w
  {
  }
}
