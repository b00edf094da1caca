/** The closed token table of the formatter: every kind a lexeme can be
    classified as, and the literal text of each keyword, delimiter and
    operator. */
module Tokens {

  datatype Kind =
    // special
    | TokenEnd | Error
    // regular-expression rules
    | Number | Identifier | String | Directive | Comment
    // keywords
    | Module | EndModule | Begin | End | Parameter | Generate | EndGenerate
    | Input | Output | Assign | Posedge | Wire | Reg | Logic | If | Else
    // delimiters
    | Sharp | LParen | RParen | LBracket | RBracket | LBraces | RBraces
    | Colon | Comma | Semicolon | Dot | Equal | At
    // operators
    | OpDivide | OpMinus | OpNot | OpPlus | OpInvert | OpMultiply | OpChoice
    | OpEqual | OpAssign | OpLessThan | OpGreaterThan | OpLeftShift
    | OpGreaterEqual | OpAnd

  /** A lexeme together with the kind it was classified as. */
  datatype Token = Token(text: string, kind: Kind)

  /** The two kinds that end the stream: end of input, and a position no
      rule matches. */
  predicate IsTerminator(k: Kind) {
    k == TokenEnd || k == Error
  }

  /** The exact text of a literal rule; the empty string for the special
      kinds and for the kinds defined by a regular expression. */
  function LiteralText(k: Kind): (t: string) {
    match k
    case Module => "module"
    case EndModule => "endmodule"
    case Begin => "begin"
    case End => "end"
    case Parameter => "parameter"
    case Generate => "generate"
    case EndGenerate => "endgenerate"
    case Input => "input"
    case Output => "output"
    case Assign => "assign"
    case Posedge => "posedge"
    case Wire => "wire"
    case Reg => "reg"
    case Logic => "logic"
    case If => "if"
    case Else => "else"
    case Sharp => "#"
    case LParen => "("
    case RParen => ")"
    case LBracket => "["
    case RBracket => "]"
    case LBraces => "{"
    case RBraces => "}"
    case Colon => ":"
    case Comma => ","
    case Semicolon => ";"
    case Dot => "."
    case Equal => "="
    case At => "@"
    case OpDivide => "/"
    case OpMinus => "-"
    case OpNot => "!"
    case OpPlus => "+"
    case OpInvert => "~"
    case OpMultiply => "*"
    case OpChoice => "?"
    case OpEqual => "=="
    case OpAssign => "<="
    case OpLessThan => "<"
    case OpGreaterThan => ">"
    case OpLeftShift => "<<"
    case OpGreaterEqual => ">="
    case OpAnd => "&&"
    case _ => ""
  }

  /** Every kind recognised by an exact literal text, in the order of the
      table. */
  const LiteralKinds: seq<Kind> := [
    Module, EndModule, Begin, End, Parameter, Generate, EndGenerate,
    Input, Output, Assign, Posedge, Wire, Reg, Logic, If, Else,
    Sharp, LParen, RParen, LBracket, RBracket, LBraces, RBraces,
    Colon, Comma, Semicolon, Dot, Equal, At,
    OpDivide, OpMinus, OpNot, OpPlus, OpInvert, OpMultiply, OpChoice,
    OpEqual, OpAssign, OpLessThan, OpGreaterThan, OpLeftShift,
    OpGreaterEqual, OpAnd]

  /** The keywords, the literal kinds spelled with letters. */
  predicate IsKeyword(k: Kind) {
    || k.Module? || k.EndModule? || k.Begin? || k.End? || k.Parameter?
    || k.Generate? || k.EndGenerate? || k.Input? || k.Output? || k.Assign?
    || k.Posedge? || k.Wire? || k.Reg? || k.Logic? || k.If? || k.Else?
  }

  /** Kinds recognised by an exact literal text. */
  predicate IsLiteral(k: Kind) {
    LiteralText(k) != ""
  }

  lemma LiteralListed(k: Kind)
    requires IsLiteral(k)
    ensures k in LiteralKinds
  {
  }

  /** The lexemes of a token sequence, concatenated in order. */
  function Texts(ts: seq<Token>): (text: string)
  {
    if ts == [] then "" else ts[0].text + Texts(ts[1..])
  }

  lemma {:induction false} TextsAppend(a: seq<Token>, b: seq<Token>)
    ensures Texts(a + b) == Texts(a) + Texts(b)
  {
    if a != [] {
      assert (a + b)[0] == a[0] && (a + b)[1..] == a[1..] + b;
      TextsAppend(a[1..], b);
      calc {
        Texts(a + b);
        a[0].text + Texts(a[1..] + b);
        a[0].text + (Texts(a[1..]) + Texts(b));
        (a[0].text + Texts(a[1..])) + Texts(b);
      }
    } else {
      assert a + b == b;
    }
  }

  /** The texts of a non-empty sequence, its last token taken off. */
  lemma TextsLast(ts: seq<Token>)
    requires ts != []
    ensures Texts(ts) == Texts(ts[..|ts| - 1]) + ts[|ts| - 1].text
  {
    var front := ts[..|ts| - 1];
    TextsAppend(front, [ts[|ts| - 1]]);
    assert ts == front + [ts[|ts| - 1]];
    assert Texts([ts[|ts| - 1]]) == ts[|ts| - 1].text + Texts([]);
  }

  // Each two-character operator text names one kind only; one lemma per
  // text, so that each proof looks at a single text.

  lemma OpEqualText(k: Kind)
    requires LiteralText(k) == "=="
    ensures k == OpEqual
  {
  }

  lemma OpAssignText(k: Kind)
    requires LiteralText(k) == "<="
    ensures k == OpAssign
  {
  }

  lemma OpLeftShiftText(k: Kind)
    requires LiteralText(k) == "<<"
    ensures k == OpLeftShift
  {
  }

  lemma OpGreaterEqualText(k: Kind)
    requires LiteralText(k) == ">="
    ensures k == OpGreaterEqual
  {
  }

  lemma OpAndText(k: Kind)
    requires LiteralText(k) == "&&"
    ensures k == OpAnd
  {
  }
}
