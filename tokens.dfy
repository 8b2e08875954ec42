/** Tokens produced by the lexer and consumed by the parser. */
module Tokens {
  import opened Chars

  /** `TokenKind`: the ten single-character punctuation marks, the two
      keywords, identifiers, hex literals and the end marker. */
  datatype Kind =
    | Ident | Hex
    | LBrace | RBrace | Semi | Equal | LParen | RParen | Comma | QMark | LBracket | RBracket
    | KwArray | KwVar
    | Eof

  /** `Token(kind, value, line, col)`. The value of an EOF token is Python's
      `None`; it is the empty string here. A HEX token holds only the digits
      after the `0x` prefix. */
  datatype Token = Token(kind: Kind, text: string, line: nat, col: nat)

  /** The kind of a word the lexer has read: the two keywords, or an identifier. */
  function WordKind(w: string): (k: Kind)
    ensures k == KwArray <==> w == "array"
    ensures k == KwVar <==> w == "var"
    ensures k == Ident <==> w != "array" && w != "var"
  {
    if w == "array" then KwArray else if w == "var" then KwVar else Ident
  }

  predicate IsIdentifier(w: string) {
    |w| > 0 && IsAlpha(w[0]) && (forall k :: 0 <= k < |w| ==> IsAlnum(w[k])) && w != "array" && w != "var"
  }

  /** The fixed text of every kind but identifiers and hex literals. */
  function Spelling(k: Kind): string
  {
    match k
    case LBrace => "{"
    case RBrace => "}"
    case Semi => ";"
    case Equal => "="
    case LParen => "("
    case RParen => ")"
    case Comma => ","
    case QMark => "?"
    case LBracket => "["
    case RBracket => "]"
    case KwArray => "array"
    case KwVar => "var"
    case _ => ""
  }

  /** What the lexer guarantees of a single token. */
  predicate WellFormedToken(t: Token) {
    match t.kind
    case Hex => |t.text| > 0 && AllDigitsIn(t.text, 16)
    case Ident => IsIdentifier(t.text)
    case _ => t.text == Spelling(t.kind)
  }

  /** A token list as the lexer returns it: every token well formed, and
      exactly one EOF, at the end. */
  predicate ValidTokens(ts: seq<Token>)
    decreases |ts|
  {
    && |ts| > 0
    && WellFormedToken(ts[0])
    && (if ts[0].kind == Eof then |ts| == 1 else ValidTokens(ts[1..]))
  }

  /** The token list ends with the end marker and has no other. */
  lemma {:induction false} ValidTokensEndWithEof(ts: seq<Token>)
    requires ValidTokens(ts)
    ensures ts[|ts| - 1].kind == Eof
    ensures forall k :: 0 <= k < |ts| - 1 ==> ts[k].kind != Eof
    ensures forall k :: 0 <= k < |ts| ==> WellFormedToken(ts[k])
    decreases |ts|
  {
    if ts[0].kind != Eof {
      ValidTokensEndWithEof(ts[1..]);
      forall k | 1 <= k < |ts| ensures ts[k] == ts[1..][k - 1] { }
    }
  }
}
