/** The layout pass of the formatter: one walk over the token stream that
    writes every token's text, with indentation at the start of a line, a
    single space between tokens on a line unless the pair of kinds is glued,
    and a line break after the kinds that end a line. */
module Printer {
  import opened Tokens
  import opened Text
  import opened Lexer
  import opened Stream

  /** The state carried from one token to the next. `updTabLevel` holds the
      indentation step of a `module` keyword until it has been printed. */
  datatype Layout = Layout(tabLevel: int, updTabLevel: int, newLine: bool, lastToken: Kind)

  /** The state before the first token: level 0, at the start of a line,
      with `Error` standing for "no previous token". */
  const Start := Layout(0, 0, true, Error)

  /** A layout state together with the text written so far. */
  datatype Printed = Printed(layout: Layout, text: string)

  /** Kinds that open a nesting level, printed one level deeper. */
  predicate Opens(k: Kind) {
    k == Begin || k == LParen || k == LBraces
  }

  /** Kinds that close a nesting level, printed one level shallower. */
  predicate Closes(k: Kind) {
    k == End || k == EndModule || k == EndGenerate || k == RParen || k == RBraces
  }

  /** Pairs of adjacent kinds written without a space between them. */
  predicate Glued(last: Kind, k: Kind) {
    || last == LParen
    || k == RParen
    || last == LBracket
    || k == RBracket
    || (last == Number && k == Colon)
    || (last == Colon && k == Number)
    || last == OpNot
    || k == Semicolon
    || (last == Directive && k == Number)
    || k == Comma
  }

  /** Kinds after which a line break is written. */
  predicate BreaksAfter(k: Kind) {
    k == Semicolon || k == Begin || k == End || k == Comma || k == EndGenerate
  }

  /** The characters the layout adds around the token texts. */
  const LayoutChars: set<char> := {' ', '\n'}

  /** `level` steps of four spaces; nothing for a level of zero or less. */
  function Indent(level: int): (r: string)
    ensures |r| == if level > 0 then 4 * level else 0
    ensures forall k :: 0 <= k < |r| ==> r[k] == ' '
    decreases level
  {
    if level <= 0 then "" else Indent(level - 1) + "    "
  }

  /** How a kind moves the level it is itself printed at. */
  function Change(k: Kind): (d: int) {
    if Opens(k) then 1 else if Closes(k) then -1 else 0
  }

  /** The line break written after a token of kind `k`, if any. */
  function LineEnd(k: Kind): (e: string) {
    if BreaksAfter(k) then "\n" else ""
  }

  /** What is written in front of a token of kind `k`: the indentation of
      its own level at the start of a line, otherwise one space unless the
      pair is glued. */
  function Lead(st: Layout, k: Kind): (lead: string) {
    if st.newLine then Indent(st.tabLevel + Change(k))
    else if Glued(st.lastToken, k) then ""
    else " "
  }

  /** One iteration of the layout loop: adjust the level, indent at the
      start of a line, apply a pending `module` step, write a space if the
      pair asks for one, write the lexeme, then decide whether a new line
      starts. */
  function Step(st: Layout, t: Token): (p: Printed) {
    var k := t.kind;
    var tab := if Opens(k) then st.tabLevel + 1 else if Closes(k) then st.tabLevel - 1 else st.tabLevel;
    var upd := if k == Module then st.updTabLevel + 1 else st.updTabLevel;
    var indent := if st.newLine then Indent(tab) else "";
    var tab' := if upd != 0 then tab + upd else tab;
    var space := if !st.newLine && !Glued(st.lastToken, k) then " " else "";
    var newLine := k == Comment || BreaksAfter(k);
    Printed(Layout(tab', 0, newLine, k), indent + space + t.text + LineEnd(k))
  }

  /** The state and text after laying out `ts` from the start. */
  function Emit(ts: seq<Token>): (p: Printed)
    decreases |ts|
  {
    if ts == [] then Printed(Start, "")
    else
      var p := Emit(ts[..|ts| - 1]);
      var r := Step(p.layout, ts[|ts| - 1]);
      Printed(r.layout, p.text + r.text)
  }

  /** Appending a token adds one step to the output: the definition of
      `Emit` read at `ts + [t]`, kept as a lemma for the proofs below. */
  lemma EmitStep(ts: seq<Token>, t: Token)
    ensures var p := Emit(ts);
      Emit(ts + [t]) == Printed(Step(p.layout, t).layout, p.text + Step(p.layout, t).text)
  {
    assert (ts + [t])[..|ts|] == ts;
  }

  /** The number of tokens before the first terminator. */
  function Stop(ts: seq<Token>): (n: nat)
    ensures n <= |ts|
    ensures forall j :: 0 <= j < n ==> !IsTerminator(ts[j].kind)
    ensures n < |ts| ==> IsTerminator(ts[n].kind)
  {
    if ts == [] || IsTerminator(ts[0].kind) then 0 else 1 + Stop(ts[1..])
  }

  /** The formatted text of a token stream: the tokens before the first
      terminator, laid out. */
  function Format(ts: seq<Token>): (out: string) {
    Emit(ts[..Stop(ts)]).text
  }

  // ----------------------------------------------------------------------
  // What one step writes and where it leaves the state.
  // ----------------------------------------------------------------------

  /** A token is written after its lead (its level's indentation at the
      start of a line, otherwise one space unless the pair is glued) and
      before the line break its kind asks for. From `Start` the lead is the
      indentation of the token's own level and never a space. */
  lemma StepText(st: Layout, t: Token)
    ensures Step(st, t).text == Lead(st, t.kind) + t.text + LineEnd(t.kind)
  {
    if st.newLine {
      assert Indent(st.tabLevel + Change(t.kind)) + "" == Indent(st.tabLevel + Change(t.kind));
    } else {
      assert "" + Lead(st, t.kind) == Lead(st, t.kind);
    }
  }

  /** The state after a token: the level moves by the token's own change
      and, for `module`, by the deferred step as well; no step stays
      pending; a line starts after a comment and after a line break. */
  lemma NextLayout(st: Layout, t: Token)
    requires st.updTabLevel == 0
    ensures Step(st, t).layout
      == Layout(st.tabLevel + Change(t.kind) + (if t.kind == Module then 1 else 0), 0,
                t.kind == Comment || BreaksAfter(t.kind), t.kind)
  {
  }

  /** The layout only adds spaces and line breaks around the token text. */
  lemma StepKeepsText(st: Layout, t: Token)
    ensures Erasure(Step(st, t).text, t.text, LayoutChars)
  {
    var lead := Lead(st, t.kind);
    var brk := LineEnd(t.kind);
    StepText(st, t);
    forall k | 0 <= k < |lead| ensures lead[k] in LayoutChars {
    }
    ErasureOfGone(lead, LayoutChars);
    ErasureOfGone(brk, LayoutChars);
    ErasureRefl(t.text, LayoutChars);
    ErasureAppend(lead, "", t.text, t.text, LayoutChars);
    assert "" + t.text == t.text;
    ErasureAppend(lead + t.text, t.text, brk, "", LayoutChars);
    assert t.text + "" == t.text;
  }

  // ----------------------------------------------------------------------
  // The whole stream.
  // ----------------------------------------------------------------------

  /** The number of tokens of `ts` whose kind is one of `ks`. */
  function Count(ts: seq<Token>, ks: set<Kind>): (n: nat)
    ensures n <= |ts|
  {
    if ts == [] then 0 else (if ts[0].kind in ks then 1 else 0) + Count(ts[1..], ks)
  }

  lemma {:induction false} CountAppend(ts: seq<Token>, t: Token, ks: set<Kind>)
    ensures Count(ts + [t], ks) == Count(ts, ks) + (if t.kind in ks then 1 else 0)
  {
    if ts != [] {
      assert (ts + [t])[1..] == ts[1..] + [t];
      CountAppend(ts[1..], t, ks);
    } else {
      assert [t][1..] == [];
    }
  }

  /** The count of a non-empty sequence, its last token taken off. */
  lemma CountLast(ts: seq<Token>, ks: set<Kind>)
    requires ts != []
    ensures Count(ts, ks) == Count(ts[..|ts| - 1], ks) + (if ts[|ts| - 1].kind in ks then 1 else 0)
  {
    CountAppend(ts[..|ts| - 1], ts[|ts| - 1], ks);
    assert ts == ts[..|ts| - 1] + [ts[|ts| - 1]];
  }

  /** Kinds that deepen the indentation of what follows them. */
  const Deeper: set<Kind> := {Begin, LParen, LBraces, Module}

  /** Kinds that make the indentation of what follows them shallower. */
  const Shallower: set<Kind> := {End, EndModule, EndGenerate, RParen, RBraces}

  /** Whether the next token after `ts` starts a line. */
  predicate AtLineStart(ts: seq<Token>) {
    ts == [] || ts[|ts| - 1].kind == Comment || BreaksAfter(ts[|ts| - 1].kind)
  }

  /** The state after any token sequence: the level is the number of
      opening kinds and `module` keywords minus the number of closing kinds,
      no step is pending, a line starts exactly after a comment or a line
      break (and at the very start), and the last kind is remembered. */
  lemma {:induction false} EmitLayout(ts: seq<Token>)
    ensures Emit(ts).layout == Layout(Count(ts, Deeper) - Count(ts, Shallower), 0, AtLineStart(ts),
                                      if ts == [] then Error else ts[|ts| - 1].kind)
    decreases |ts|
  {
    if ts != [] {
      var front := ts[..|ts| - 1];
      EmitLayout(front);
      NextLayout(Emit(front).layout, ts[|ts| - 1]);
      CountLast(ts, Deeper);
      CountLast(ts, Shallower);
    }
  }

  /** The output of any token sequence is its token texts, in order, with
      only spaces and line breaks added. */
  lemma {:induction false} EmitKeepsText(ts: seq<Token>)
    ensures Erasure(Emit(ts).text, Texts(ts), LayoutChars)
    decreases |ts|
  {
    if ts == [] {
      ErasureRefl("", LayoutChars);
    } else {
      var front := ts[..|ts| - 1];
      var t := ts[|ts| - 1];
      var p := Emit(front);
      EmitKeepsText(front);
      StepKeepsText(p.layout, t);
      ErasureAppend(p.text, Texts(front), Step(p.layout, t).text, t.text, LayoutChars);
      TextsLast(ts);
    }
  }

  /** Nothing after the first terminator is printed. */
  lemma TailIgnored(ts: seq<Token>, us: seq<Token>)
    requires Stop(ts) < |ts|
    ensures Format(ts + us) == Format(ts)
  {
    var n := Stop(ts);
    StopOfAppend(ts, us);
    assert (ts + us)[..n] == ts[..n];
  }

  lemma {:induction false} StopOfAppend(ts: seq<Token>, us: seq<Token>)
    requires Stop(ts) < |ts|
    ensures Stop(ts + us) == Stop(ts)
  {
    if !IsTerminator(ts[0].kind) {
      assert (ts + us)[1..] == ts[1..] + us;
      StopOfAppend(ts[1..], us);
    }
  }

  /** Formatting source text keeps every character that is not layout: with
      spaces, tabs, carriage returns and newlines removed, the input is the
      formatted text followed by the text of the terminator (empty at the
      end of input, the unlexed rest after an unknown token). */
  lemma FormatKeepsSource(s: string)
    ensures var ts := Tokenize(s);
      Strip(s, TriviaChars) == Strip(Format(ts), TriviaChars) + Strip(ts[|ts| - 1].text, TriviaChars)
  {
    var ts := Tokenize(s);
    var body := ts[..|ts| - 1];
    var end := ts[|ts| - 1];
    assert ts == body + [end];
    assert Stop(ts) == |ts| - 1;
    TokenizeCovers(s);
    TextsAppend(body, [end]);
    assert Texts([end]) == end.text + Texts([]);
    assert Texts(ts) == Texts(body) + end.text;
    ErasureStrip(s, Texts(body) + end.text, TriviaChars, TriviaChars);
    StripAppend(Texts(body), end.text, TriviaChars);
    EmitKeepsText(body);
    ErasureStrip(Format(ts), Texts(body), LayoutChars, TriviaChars);
  }

  /** The layout loop: lay out token after token until the first
      terminator or the end of the stream. */
  method Print(toks: seq<Token>) returns (result: string)
    ensures result == Format(toks)
  {
    result := "";
    var layout := Start;
    var i := 0;
    while i < |toks| && !IsTerminator(toks[i].kind)
      invariant i <= Stop(toks)
      invariant Emit(toks[..i]) == Printed(layout, result)
      decreases |toks| - i
    {
      var out;
      EmitStep(toks[..i], toks[i]);
      assert toks[..i + 1] == toks[..i] + [toks[i]];
      layout, out := PrintToken(layout, toks[i]);
      result := result + out;
      i := i + 1;
    }
    assert Stop(toks) == i;
  }

  /** One pass of the loop body on the state `st` and the current token:
      the new state and the text written. */
  method PrintToken(st: Layout, token: Token) returns (next: Layout, out: string)
    ensures Printed(next, out) == Step(st, token)
  {
    var tabLevel, updTabLevel, newLine, lastToken := st.tabLevel, st.updTabLevel, st.newLine, st.lastToken;
    out := "";
    if Opens(token.kind) {
      tabLevel := tabLevel + 1;
    } else if token.kind == Module {
      updTabLevel := updTabLevel + 1;
    } else if Closes(token.kind) {
      tabLevel := tabLevel - 1;
    }
    if newLine {
      out := WriteIndent(tabLevel);
    }
    ghost var indent := out;
    if updTabLevel != 0 {
      tabLevel := tabLevel + updTabLevel;
      updTabLevel := 0;
    }
    ghost var space := "";
    if !newLine && !Glued(lastToken, token.kind) {
      out := out + " ";
      space := " ";
    } else {
      assert out == indent + space;
    }
    out := out + token.text;
    newLine := token.kind == Comment;
    if BreaksAfter(token.kind) {
      newLine := true;
      out := out + "\n";
    } else {
      assert out == indent + space + token.text + LineEnd(token.kind);
    }
    lastToken := token.kind;
    next := Layout(tabLevel, updTabLevel, newLine, lastToken);
  }

  /** The indentation loop: four spaces, `level` times. */
  method WriteIndent(level: int) returns (out: string)
    ensures out == Indent(level)
  {
    out := "";
    var n := 0;
    while n < level
      invariant 0 <= n && (n <= level || n == 0)
      invariant out == Indent(n)
      decreases level - n
    {
      out := out + "    ";
      n := n + 1;
    }
  }
}
