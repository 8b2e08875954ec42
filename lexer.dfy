/** The lexer: a cursor over the source text that tracks the index, the
    line and the column, and cuts the text into tokens.

    The pure functions (`PosAfter`, `RunEnd`, `ScanWord`, `ScanHex`,
    `ScanToken`, `ScanFrom`) say what the lexer computes; the class `Lexer`
    is the cursor object of the source, and each of its methods is proved to
    compute what the matching function says. */
module Lexing {
  import opened Outcomes
  import opened Chars
  import opened Tokens

  /** A 1-based line and column. */
  datatype Pos = Pos(line: nat, col: nat)

  /** How consuming one character moves the cursor. */
  function StepPos(p: Pos, c: char): Pos
  {
    if c == '\n' then Pos(p.line + 1, 1) else Pos(p.line, p.col + 1)
  }

  /** The position of the cursor after consuming `s` from the start of the text. */
  function PosAfter(s: string): Pos
    decreases |s|
  {
    if |s| == 0 then Pos(1, 1) else StepPos(PosAfter(s[..|s| - 1]), s[|s| - 1])
  }

  /** The line is one more than the number of line feeds consumed; the column
      is one more than the number of characters consumed since the last line
      feed (or since the start of the text). */
  lemma {:induction false} PosAfterMeaning(s: string)
    ensures PosAfter(s).line == 1 + multiset(s)['\n']
    ensures 1 <= PosAfter(s).col <= |s| + 1
    ensures forall k :: |s| - (PosAfter(s).col - 1) <= k < |s| ==> s[k] != '\n'
    ensures PosAfter(s).col - 1 < |s| ==> s[|s| - PosAfter(s).col] == '\n'
    decreases |s|
  {
    if |s| > 0 {
      var p := s[..|s| - 1];
      assert s == p + [s[|s| - 1]];
      PosAfterMeaning(p);
    }
  }

  lemma PosAfterStep(text: string, i: nat)
    requires i < |text|
    ensures PosAfter(text[..i + 1]) == StepPos(PosAfter(text[..i]), text[i])
  {
    assert text[..i + 1][..i] == text[..i];
  }

  /** The end of the longest run of characters satisfying `p` that starts at `i`. */
  function RunEnd(text: string, i: nat, p: char -> bool): (j: nat)
    requires i <= |text|
    ensures i <= j <= |text|
    ensures forall k :: i <= k < j ==> p(text[k])
    ensures j < |text| ==> !p(text[j])
    decreases |text| - i
  {
    if i < |text| && p(text[i]) then RunEnd(text, i + 1, p) else i
  }

  datatype LexErrorKind =
    | ExpectedName           // lex_ident_or_kw called away from a letter
    | ExpectedHex            // lex_hex called away from `0x`
    | MissingHexDigits       // `0x` followed by no hex digit
    | UnexpectedChar(c: char)

  /** `LexerError`: what went wrong and the line and column it reports. */
  datatype LexError = LexError(kind: LexErrorKind, line: nat, col: nat)

  /** A token and the index just after it. */
  type Step = (Token, nat)

  function ErrorAt(kind: LexErrorKind, p: Pos): LexError
  {
    LexError(kind, p.line, p.col)
  }

  /** The `single` table of `next_token`. */
  function SingleKind(c: char): (k: Option<Kind>)
    ensures k.Some? <==> c in "{};=(),?[]"
    ensures k.Some? ==> k.value !in {Ident, Hex, KwArray, KwVar, Eof} && Spelling(k.value) == [c]
  {
    match c
    case '{' => Some(LBrace)
    case '}' => Some(RBrace)
    case ';' => Some(Semi)
    case '=' => Some(Equal)
    case '(' => Some(LParen)
    case ')' => Some(RParen)
    case ',' => Some(Comma)
    case '?' => Some(QMark)
    case '[' => Some(LBracket)
    case ']' => Some(RBracket)
    case _ => None
  }

  /** `lex_ident_or_kw` at index `i`: a letter, then the longest run of
      letters and digits; `array` and `var` are keywords. */
  function ScanWord(text: string, i: nat): (r: Result<Step, LexError>)
    requires i <= |text|
    ensures r.Ok? <==> i < |text| && IsAlpha(text[i])
    ensures r.Ok? ==> i < r.value.1 <= |text| && WellFormedToken(r.value.0)
    ensures r.Ok? ==> r.value.0.text == text[i..r.value.1]
    ensures r.Ok? ==> r.value.0.kind == WordKind(r.value.0.text)
    ensures r.Ok? ==> Pos(r.value.0.line, r.value.0.col) == PosAfter(text[..i])
    ensures r.Ok? ==> r.value.1 == |text| || !IsAlnum(text[r.value.1])
  {
    var p := PosAfter(text[..i]);
    if i == |text| || !IsAlpha(text[i]) then Err(ErrorAt(ExpectedName, p))
    else
      var j := RunEnd(text, i, IsAlnum);
      var w := text[i..j];
      Ok((Token(WordKind(w), w, p.line, p.col), j))
  }

  /** True when a hex literal prefix `0x` or `0X` starts at index `i`. */
  predicate HexPrefixAt(text: string, i: nat)
  {
    i + 1 < |text| && text[i] == '0' && IsHexMarker(text[i + 1])
  }

  /** `lex_hex` at index `i`: the prefix, then the longest run of hex digits,
      which must not be empty. */
  function ScanHex(text: string, i: nat): (r: Result<Step, LexError>)
    requires i <= |text|
    ensures r.Ok? <==> HexPrefixAt(text, i) && i + 2 < |text| && IsHexDigit(text[i + 2])
    ensures r.Ok? ==> i + 2 < r.value.1 <= |text| && r.value.0.kind == Hex
    ensures r.Ok? ==> r.value.0.text == text[i + 2..r.value.1] && WellFormedToken(r.value.0)
    ensures r.Ok? ==> r.value.1 == |text| || !IsHexDigit(text[r.value.1])
    ensures r.Ok? ==> Pos(r.value.0.line, r.value.0.col) == PosAfter(text[..i])
    ensures HexPrefixAt(text, i) && !r.Ok? ==> r == Err(ErrorAt(MissingHexDigits, PosAfter(text[..i + 2])))
  {
    var p := PosAfter(text[..i]);
    if !HexPrefixAt(text, i) then Err(ErrorAt(ExpectedHex, p))
    else
      var j := RunEnd(text, i + 2, IsHexDigit);
      if j == i + 2 then Err(ErrorAt(MissingHexDigits, PosAfter(text[..i + 2])))
      else Ok((Token(Hex, text[i + 2..j], p.line, p.col), j))
  }

  /** True when a token can start with the character at index `j`: a
      punctuation mark, a hex prefix or a letter. */
  predicate StartsToken(text: string, j: nat)
    requires j < |text|
  {
    text[j] in "{};=(),?[]" || HexPrefixAt(text, j) || IsAlpha(text[j])
  }

  /** `next_token` from index `i`: skip white space, then the end marker, a
      punctuation mark, a hex literal, a word, or an error at the character.
      Every token is the text right after the white space, reported at the
      position where that text starts. */
  function ScanToken(text: string, i: nat): (r: Result<Step, LexError>)
    requires i <= |text|
    ensures r.Ok? ==> i <= r.value.1 <= |text| && WellFormedToken(r.value.0)
    ensures r.Ok? && r.value.0.kind != Eof ==> i < r.value.1
    ensures r.Ok? && r.value.0.kind == Eof ==> r.value.1 == |text|
    ensures var j := RunEnd(text, i, IsSpace);
      r.Ok? ==> j <= r.value.1 && Pos(r.value.0.line, r.value.0.col) == PosAfter(text[..j])
    ensures var j := RunEnd(text, i, IsSpace);
      r.Ok? && r.value.0.kind == Eof <==> j == |text|
    ensures var j := RunEnd(text, i, IsSpace);
      r.Ok? && r.value.0.kind !in {Eof, Hex} ==> text[j..r.value.1] == r.value.0.text
    ensures var j := RunEnd(text, i, IsSpace);
      r.Ok? && r.value.0.kind == Hex ==>
        HexPrefixAt(text, j) && j + 2 < r.value.1 && text[j + 2..r.value.1] == r.value.0.text
    ensures r.Ok? && r.value.0.kind in {Ident, KwArray, KwVar} ==>
      r.value.1 == |text| || !IsAlnum(text[r.value.1])
    ensures r.Ok? && r.value.0.kind == Hex ==> r.value.1 == |text| || !IsHexDigit(text[r.value.1])
    ensures var j := RunEnd(text, i, IsSpace);
      HexPrefixAt(text, j) ==> (r.Ok? <==> j + 2 < |text| && IsHexDigit(text[j + 2]))
    ensures var j := RunEnd(text, i, IsSpace);
      r.Err? && r.error.kind.UnexpectedChar? <==> j < |text| && !StartsToken(text, j)
    ensures var j := RunEnd(text, i, IsSpace);
      r.Err? && r.error.kind.UnexpectedChar? ==> r.error == ErrorAt(UnexpectedChar(text[j]), PosAfter(text[..j]))
    ensures var j := RunEnd(text, i, IsSpace);
      r.Err? && !r.error.kind.UnexpectedChar? ==>
        HexPrefixAt(text, j) && r.error == ErrorAt(MissingHexDigits, PosAfter(text[..j + 2]))
  {
    var j := RunEnd(text, i, IsSpace);
    var p := PosAfter(text[..j]);
    if j == |text| then Ok((Token(Eof, "", p.line, p.col), j))
    else
      var c := text[j];
      match SingleKind(c)
      case Some(k) => Ok((Token(k, [c], p.line, p.col), j + 1))
      case None =>
        if HexPrefixAt(text, j) then ScanHex(text, j)
        else if IsAlpha(c) then ScanWord(text, j)
        else Err(ErrorAt(UnexpectedChar(c), p))
  }

  /** `tokenize` from index `i`: tokens up to and including the end marker,
      or the first lexical error. */
  function ScanFrom(text: string, i: nat): (r: Result<seq<Token>, LexError>)
    requires i <= |text|
    ensures r.Ok? ==> ValidTokens(r.value)
    decreases |text| - i
  {
    var step :- ScanToken(text, i);
    if step.0.kind == Eof then Ok([step.0])
    else
      var rest :- ScanFrom(text, step.1);
      Ok([step.0] + rest)
  }

  /** The lexer of the whole text. */
  function Lex(text: string): Result<seq<Token>, LexError>
  {
    ScanFrom(text, 0)
  }

  /** The outcome of one lexer method agrees with the function that specifies
      it: the same token and the cursor at the index after it, or the same
      error. */
  predicate StepAgrees(spec: Result<Step, LexError>, r: Result<Token, LexError>, i: nat)
  {
    match spec
    case Ok(step) => r == Ok(step.0) && i == step.1
    case Err(e) => r == Err(e)
  }

  class Lexer {
    const text: string
    var i: nat
    var line: nat
    var col: nat

    /** The cursor's line and column are those of index `i`. */
    ghost predicate Valid()
      reads this
    {
      i <= |text| && Pos(line, col) == PosAfter(text[..i])
    }

    constructor (text: string)
      ensures Valid() && this.text == text && i == 0 && line == 1 && col == 1
    {
      this.text := text;
      i := 0;
      line := 1;
      col := 1;
    }

    /** `peek(n)`: the character `n - 1` places ahead, or none past the end. */
    function Peek(n: nat): (c: Option<char>)
      reads this
      requires 1 <= n
      ensures c.Some? <==> i + n - 1 < |text|
      ensures c.Some? ==> c.value == text[i + n - 1]
    {
      if i + n - 1 >= |text| then None else Some(text[i + n - 1])
    }

    /** `advance(n)`: consume up to `n` characters, stopping at the end. */
    method Advance(n: nat)
      requires Valid()
      modifies this
      ensures Valid()
      ensures i == if old(i) + n <= |text| then old(i) + n else |text|
      ensures old(i) == |text| ==> line == old(line) && col == old(col)
      ensures n == 1 && old(i) < |text| && text[old(i)] == '\n' ==> line == old(line) + 1 && col == 1
      ensures n == 1 && old(i) < |text| && text[old(i)] != '\n' ==> line == old(line) && col == old(col) + 1
    {
      var k := 0;
      while k < n
        invariant Valid()
        invariant k <= n && i == old(i) + k
      {
        if i >= |text| {
          return;
        }
        var ch := text[i];
        PosAfterStep(text, i);
        i := i + 1;
        if ch == '\n' {
          line := line + 1;
          col := 1;
        } else {
          col := col + 1;
        }
        k := k + 1;
      }
      if old(i) < |text| {
        PosAfterStep(text, old(i));
      }
    }

    /** `skip_ws`: move past the white space at the cursor. */
    method SkipWs()
      requires Valid()
      modifies this
      ensures Valid() && i == RunEnd(text, old(i), IsSpace)
    {
      ghost var target := RunEnd(text, i, IsSpace);
      while true
        invariant Valid() && old(i) <= i <= target
        invariant RunEnd(text, i, IsSpace) == target
        decreases |text| - i
      {
        var ch := Peek(1);
        if ch.Some? && IsSpace(ch.value) {
          Advance(1);
        } else {
          break;
        }
      }
    }

    /** `lex_ident_or_kw`. */
    method LexIdentOrKw() returns (r: Result<Token, LexError>)
      requires Valid()
      modifies this
      ensures Valid() && StepAgrees(ScanWord(text, old(i)), r, i)
    {
      var startLine, startCol := line, col;
      var s: string := [];
      var ch := Peek(1);
      if ch.None? || !IsAlpha(ch.value) {
        return Err(LexError(ExpectedName, line, col));
      }
      ghost var start := i;
      ghost var target := RunEnd(text, i, IsAlnum);
      while true
        invariant Valid() && start <= i <= target
        invariant RunEnd(text, i, IsAlnum) == target
        invariant s == text[start..i]
        decreases |text| - i
      {
        ch := Peek(1);
        if ch.Some? && IsAlnum(ch.value) {
          s := s + [ch.value];
          Advance(1);
        } else {
          break;
        }
      }
      r := Ok(Token(WordKind(s), s, startLine, startCol));
    }

    /** `lex_hex`. */
    method LexHex() returns (r: Result<Token, LexError>)
      requires Valid()
      modifies this
      ensures Valid() && StepAgrees(ScanHex(text, old(i)), r, i)
    {
      var startLine, startCol := line, col;
      var c1, c2 := Peek(1), Peek(2);
      if c1 != Some('0') || c2.None? || !IsHexMarker(c2.value) {
        return Err(LexError(ExpectedHex, line, col));
      }
      Advance(2);
      ghost var start := i;
      ghost var target := RunEnd(text, i, IsHexDigit);
      var digits: string := [];
      while true
        invariant Valid() && start <= i <= target
        invariant RunEnd(text, i, IsHexDigit) == target
        invariant digits == text[start..i]
        decreases |text| - i
      {
        var ch := Peek(1);
        if ch.Some? && IsHexDigit(ch.value) {
          digits := digits + [ch.value];
          Advance(1);
        } else {
          break;
        }
      }
      if |digits| == 0 {
        return Err(LexError(MissingHexDigits, line, col));
      }
      r := Ok(Token(Hex, digits, startLine, startCol));
    }

    /** `next_token`. */
    method NextToken() returns (r: Result<Token, LexError>)
      requires Valid()
      modifies this
      ensures Valid() && StepAgrees(ScanToken(text, old(i)), r, i)
    {
      SkipWs();
      var ch := Peek(1);
      if ch.None? {
        return Ok(Token(Eof, "", line, col));
      }
      var c := ch.value;
      var single := SingleKind(c);
      if single.Some? {
        var tok := Token(single.value, [c], line, col);
        Advance(1);
        return Ok(tok);
      }
      var next := Peek(2);
      if c == '0' && next.Some? && IsHexMarker(next.value) {
        r := LexHex();
        return;
      }
      if IsAlpha(c) {
        r := LexIdentOrKw();
        return;
      }
      r := Err(LexError(UnexpectedChar(c), line, col));
    }

    /** `tokenize`: tokens up to and including the end marker. */
    method Tokenize() returns (r: Result<seq<Token>, LexError>)
      requires Valid()
      modifies this
      ensures r == ScanFrom(text, old(i))
    {
      var tokens: seq<Token> := [];
      while true
        invariant Valid() && old(i) <= i
        invariant ScanFrom(text, old(i)) == Prepend(tokens, ScanFrom(text, i))
        decreases |text| - i
      {
        ghost var before := i;
        var tok := NextToken();
        ScanFromStep(text, before, tokens);
        if tok.Err? {
          return Err(tok.error);
        }
        tokens := tokens + [tok.value];
        if tok.value.kind == Eof {
          return Ok(tokens);
        }
      }
    }
  }

  /** One turn of the `tokenize` loop: the outcome from index `i`, after the
      tokens already collected, is the outcome of one more token. */
  lemma ScanFromStep(text: string, i: nat, tokens: seq<Token>)
    requires i <= |text|
    ensures ScanToken(text, i).Err? ==> Prepend(tokens, ScanFrom(text, i)) == Err(ScanToken(text, i).error)
    ensures ScanToken(text, i).Ok? && ScanToken(text, i).value.0.kind == Eof ==>
      Prepend(tokens, ScanFrom(text, i)) == Ok(tokens + [ScanToken(text, i).value.0])
    ensures ScanToken(text, i).Ok? && ScanToken(text, i).value.0.kind != Eof ==>
      Prepend(tokens, ScanFrom(text, i)) ==
      Prepend(tokens + [ScanToken(text, i).value.0], ScanFrom(text, ScanToken(text, i).value.1))
  {
    var st := ScanToken(text, i);
    if st.Ok? && st.value.0.kind != Eof {
      var rest := ScanFrom(text, st.value.1);
      if rest.Ok? {
        assert tokens + ([st.value.0] + rest.value) == (tokens + [st.value.0]) + rest.value;
      }
    }
  }

  /** `tokens` followed by the outcome `rest`; an error stays an error. */
  function Prepend(tokens: seq<Token>, rest: Result<seq<Token>, LexError>): (r: Result<seq<Token>, LexError>)
    ensures tokens == [] ==> r == rest
  {
    match rest
    case Ok(ts) => assert tokens == [] ==> tokens + ts == ts; Ok(tokens + ts)
    case Err(e) => Err(e)
  }
}
