/** The parser: recursive descent with one token of lookahead over the
    lexer's token list.

    The `Read...` functions say what each parsing routine computes, on the
    suffix of the token list that is still to be read; the class `Parser`
    is the source's cursor object, and each of its methods is proved to
    agree with the matching function. */
module Parsing {
  import opened Outcomes
  import opened Chars
  import opened Tokens
  import opened Ast

  /** `ParseError`: a token of the wrong kind where `kind` was expected, or
      no value where a value was expected; both report the token found. */
  datatype ParseError =
    | Expected(kind: Kind, found: Kind, line: nat, col: nat)
    | ExpectedValue(found: Kind, line: nat, col: nat)

  lemma ValidTail(ts: seq<Token>)
    requires ValidTokens(ts) && ts[0].kind != Eof
    ensures |ts| > 1 && ValidTokens(ts[1..])
  {
    assert ValidTokens(ts[1..]);
  }

  /** `expect(kind)` on the tokens `ts`: the first token, if it has that kind,
      and the tokens after it. */
  function ExpectKind(ts: seq<Token>, kind: Kind): (r: Result<(Token, seq<Token>), ParseError>)
    requires ValidTokens(ts)
    ensures r.Ok? <==> ts[0].kind == kind
    ensures r.Ok? ==> r.value.0 == ts[0] && r.value.1 == ts[1..]
    ensures r.Ok? && kind != Eof ==> ValidTokens(r.value.1)
    ensures r.Err? ==> r.error == Expected(kind, ts[0].kind, ts[0].line, ts[0].col)
  {
    if ts[0].kind != kind then Err(Expected(kind, ts[0].kind, ts[0].line, ts[0].col))
    else
      Ok((ts[0], ts[1..]))
  }

  /** `parse_value`: a hex number, an array, a map or a constant reference. */
  function ReadValue(ts: seq<Token>): (r: Result<(Node, seq<Token>), ParseError>)
    requires ValidTokens(ts)
    ensures r.Ok? ==> ValidTokens(r.value.1) && |r.value.1| < |ts|
    ensures r.Err? ==> ts[0].kind in {Hex, KwArray, LBrace, QMark} || r.error == ExpectedValue(ts[0].kind, ts[0].line, ts[0].col)
    decreases |ts|, 2
  {
    var t := ts[0];
    match t.kind
    case Hex => Ok((Number(HexValue(t.text)), ts[1..]))
    case KwArray => ReadArray(ts)
    case LBrace => ReadDict(ts)
    case QMark => ReadConstRef(ts)
    case _ => Err(ExpectedValue(t.kind, t.line, t.col))
  }

  /** How `parse_value` goes on after `array`: the items after `array (`, or
      an error when `(` is missing. */
  lemma ReadValueArray(ts: seq<Token>)
    requires ValidTokens(ts) && ts[0].kind == KwArray
    ensures |ts| > 1
    ensures ts[1].kind != LParen ==> ReadValue(ts).Err?
    ensures ts[1].kind == LParen ==> |ts| > 2 && ValidTokens(ts[2..]) && ReadValue(ts) == ReadArrayItems(ts[2..])
  {
    ValidTail(ts);
    if ts[1].kind == LParen {
      ValidTail(ts[1..]);
      assert ts[1..][1..] == ts[2..];
    }
  }

  /** How `parse_value` goes on after `{`: the entry loop from no entries. */
  lemma ReadValueDict(ts: seq<Token>)
    requires ValidTokens(ts) && ts[0].kind == LBrace
    ensures |ts| > 1 && ValidTokens(ts[1..]) && ReadValue(ts) == ReadDictEntries(ts[1..], [])
  {
    ValidTail(ts);
  }

  /** `parse_array`: `array (`, then nothing or values separated by commas, then `)`. */
  function ReadArray(ts: seq<Token>): (r: Result<(Node, seq<Token>), ParseError>)
    requires ValidTokens(ts)
    ensures r.Ok? ==> ValidTokens(r.value.1) && |r.value.1| < |ts|
    decreases |ts|, 1
  {
    var kw :- ExpectKind(ts, KwArray);
    var open :- ExpectKind(kw.1, LParen);
    ReadArrayItems(open.1)
  }

  /** The items of `parse_array` after `array (`: none when `)` follows,
      otherwise a first value and the comma loop. */
  function ReadArrayItems(ts: seq<Token>): (r: Result<(Node, seq<Token>), ParseError>)
    requires ValidTokens(ts)
    ensures r.Ok? ==> ValidTokens(r.value.1) && |r.value.1| < |ts|
    decreases |ts|, 3
  {
    if ts[0].kind != RParen then
      var first :- ReadValue(ts);
      ReadArrayRest(first.1, [first.0])
    else
      ReadArrayClose(ts, [])
  }

  /** The `while peek is COMMA` loop of `parse_array`, with the items so far. */
  function ReadArrayRest(ts: seq<Token>, items: seq<Node>): (r: Result<(Node, seq<Token>), ParseError>)
    requires ValidTokens(ts)
    ensures r.Ok? ==> ValidTokens(r.value.1) && |r.value.1| < |ts|
    decreases |ts|, 0
  {
    if ts[0].kind == Comma then
      var next :- ReadValue(ts[1..]);
      ReadArrayRest(next.1, items + [next.0])
    else
      ReadArrayClose(ts, items)
  }

  /** One turn of the comma loop of `parse_array`. */
  lemma ReadArrayRestStep(ts: seq<Token>, items: seq<Node>)
    requires ValidTokens(ts) && ts[0].kind == Comma
    ensures ReadValue(ts[1..]).Err? ==> ReadArrayRest(ts, items) == Err(ReadValue(ts[1..]).error)
    ensures ReadValue(ts[1..]).Ok? ==>
      ReadArrayRest(ts, items) == ReadArrayRest(ReadValue(ts[1..]).value.1, items + [ReadValue(ts[1..]).value.0])
  {
  }

  /** The first item of `parse_array`, when the list is not empty. */
  lemma ReadArrayItemsStep(ts: seq<Token>)
    requires ValidTokens(ts) && ts[0].kind != RParen && ReadValue(ts).Ok?
    ensures ReadArrayItems(ts) == ReadArrayRest(ReadValue(ts).value.1, [ReadValue(ts).value.0])
  {
  }

  /** The closing `)` of `parse_array`. */
  function ReadArrayClose(ts: seq<Token>, items: seq<Node>): (r: Result<(Node, seq<Token>), ParseError>)
    requires ValidTokens(ts)
    ensures r.Ok? ==> ValidTokens(r.value.1) && |r.value.1| < |ts|
    ensures r.Ok? <==> ts[0].kind == RParen
    ensures r.Ok? ==> r.value == (Array(items), ts[1..])
  {
    var close :- ExpectKind(ts, RParen);
    Ok((Array(items), close.1))
  }

  /** `parse_dict`: `{`, entries `key = value ;`, then `}`. */
  function ReadDict(ts: seq<Token>): (r: Result<(Node, seq<Token>), ParseError>)
    requires ValidTokens(ts)
    ensures r.Ok? ==> ValidTokens(r.value.1) && |r.value.1| < |ts|
    decreases |ts|, 1
  {
    var open :- ExpectKind(ts, LBrace);
    ReadDictEntries(open.1, [])
  }

  /** The `while peek is not RBRACE` loop of `parse_dict`, with the entries so far. */
  function ReadDictEntries(ts: seq<Token>, entries: seq<Entry>): (r: Result<(Node, seq<Token>), ParseError>)
    requires ValidTokens(ts)
    ensures r.Ok? ==> ValidTokens(r.value.1) && |r.value.1| < |ts|
    decreases |ts|, 4
  {
    if ts[0].kind != RBrace then
      var entry :- ReadDictEntry(ts);
      ReadDictEntries(entry.1, entries + [entry.0])
    else
      Ok((Map(entries), ts[1..]))
  }

  /** One turn of the entry loop of `parse_dict`. */
  lemma ReadDictEntriesStep(ts: seq<Token>, entries: seq<Entry>)
    requires ValidTokens(ts) && ts[0].kind != RBrace && ReadDictEntry(ts).Ok?
    ensures ReadDictEntries(ts, entries) == ReadDictEntries(ReadDictEntry(ts).value.1, entries + [ReadDictEntry(ts).value.0])
  {
  }

  /** The body of that loop: `key = value ;`. */
  function ReadDictEntry(ts: seq<Token>): (r: Result<(Entry, seq<Token>), ParseError>)
    requires ValidTokens(ts)
    ensures r.Ok? ==> ValidTokens(r.value.1) && |r.value.1| < |ts|
    decreases |ts|, 3
  {
    var key :- ExpectKind(ts, Ident);
    var eq :- ExpectKind(key.1, Equal);
    var val :- ReadValue(eq.1);
    var semi :- ExpectKind(val.1, Semi);
    Ok((Entry(key.0.text, val.0), semi.1))
  }

  /** What a successful `key = value ;` consists of. */
  lemma ReadDictEntryParts(ts: seq<Token>)
    requires ValidTokens(ts) && ReadDictEntry(ts).Ok?
    ensures |ts| > 2 && ts[0].kind == Ident && ts[1].kind == Equal
    ensures ValidTokens(ts[2..]) && ReadValue(ts[2..]).Ok?
    ensures ReadValue(ts[2..]).value.1[0].kind == Semi
    ensures ReadDictEntry(ts) == Ok((Entry(ts[0].text, ReadValue(ts[2..]).value.0), ReadValue(ts[2..]).value.1[1..]))
  {
    ValidTail(ts);
    ValidTail(ts[1..]);
    assert ts[1..][1..] == ts[2..];
  }

  /** `parse_const_ref`: `? [ name ]`. */
  function ReadConstRef(ts: seq<Token>): (r: Result<(Node, seq<Token>), ParseError>)
    requires ValidTokens(ts)
    ensures r.Ok? ==> ValidTokens(r.value.1) && |r.value.1| < |ts|
    ensures r.Ok? ==> |ts| > 4 && r.value == (ConstRef(ts[2].text), ts[4..])
  {
    var q :- ExpectKind(ts, QMark);
    var open :- ExpectKind(q.1, LBracket);
    var name :- ExpectKind(open.1, Ident);
    var close :- ExpectKind(name.1, RBracket);
    Ok((ConstRef(name.0.text), close.1))
  }

  /** `? [ name ]` is read as a reference to `name`. */
  lemma ReadConstRefShape(ts: seq<Token>)
    requires ValidTokens(ts) && |ts| > 4
    requires ts[0].kind == QMark && ts[1].kind == LBracket && ts[2].kind == Ident && ts[3].kind == RBracket
    ensures ReadValue(ts) == Ok((ConstRef(ts[2].text), ts[4..]))
  {
    ValidTail(ts);
    ValidTail(ts[1..]);
    assert ts[1..][1..] == ts[2..];
    ValidTail(ts[2..]);
    assert ts[2..][1..] == ts[3..];
    ValidTail(ts[3..]);
    assert ts[3..][1..] == ts[4..];
  }

  /** `parse_const_decl`: `var name = value`. */
  function ReadConstDecl(ts: seq<Token>): (r: Result<(ConstDecl, seq<Token>), ParseError>)
    requires ValidTokens(ts)
    ensures r.Ok? ==> ValidTokens(r.value.1) && |r.value.1| < |ts|
  {
    var kw :- ExpectKind(ts, KwVar);
    var name :- ExpectKind(kw.1, Ident);
    var eq :- ExpectKind(name.1, Equal);
    var val :- ReadValue(eq.1);
    Ok((ConstDecl(name.0.text, val.0), val.1))
  }

  /** What a successful `var name = value` consists of. */
  lemma ReadConstDeclParts(ts: seq<Token>)
    requires ValidTokens(ts) && ReadConstDecl(ts).Ok?
    ensures |ts| > 3 && ts[0].kind == KwVar && ts[1].kind == Ident && ts[2].kind == Equal
    ensures ValidTokens(ts[3..]) && ReadValue(ts[3..]).Ok?
    ensures ReadConstDecl(ts) == Ok((ConstDecl(ts[1].text, ReadValue(ts[3..]).value.0), ReadValue(ts[3..]).value.1))
  {
    ValidTail(ts);
    ValidTail(ts[1..]);
    assert ts[1..][1..] == ts[2..];
    ValidTail(ts[2..]);
    assert ts[2..][1..] == ts[3..];
  }

  /** One turn of the declaration loop of `parse_program`. */
  lemma ReadDeclsStep(ts: seq<Token>, decls: seq<ConstDecl>)
    requires ValidTokens(ts) && ts[0].kind == KwVar && ReadConstDecl(ts).Ok?
    ensures ReadDecls(ts, decls) == ReadDecls(ReadConstDecl(ts).value.1, decls + [ReadConstDecl(ts).value.0])
  {
  }

  /** The `while peek is KW_VAR` loop of `parse_program`, with the declarations so far. */
  function ReadDecls(ts: seq<Token>, decls: seq<ConstDecl>): (r: Result<(seq<ConstDecl>, seq<Token>), ParseError>)
    requires ValidTokens(ts)
    ensures r.Ok? ==> ValidTokens(r.value.1) && |r.value.1| <= |ts| && r.value.1[0].kind != KwVar
    decreases |ts|
  {
    if ts[0].kind == KwVar then
      var decl :- ReadConstDecl(ts);
      ReadDecls(decl.1, decls + [decl.0])
    else
      Ok((decls, ts))
  }

  /** `parse_program`: declarations, one root value, then the end marker. */
  function ReadProgram(ts: seq<Token>): (r: Result<Program, ParseError>)
    requires ValidTokens(ts)
  {
    var decls :- ReadDecls(ts, []);
    var root :- ReadValue(decls.1);
    var end :- ExpectKind(root.1, Eof);
    Ok(Program(decls.0, root.0))
  }

  /** A declaration is not ended by `;`: a program whose first declaration
      is followed by `;` fails with the expected-value error at that `;`. */
  lemma SemicolonAfterDeclaration(ts: seq<Token>)
    requires ValidTokens(ts) && ts[0].kind == KwVar && ReadConstDecl(ts).Ok?
    requires ReadConstDecl(ts).value.1[0].kind == Semi
    ensures var semi := ReadConstDecl(ts).value.1[0];
      ReadProgram(ts) == Err(ExpectedValue(Semi, semi.line, semi.col))
  {
    ReadDeclsStep(ts, []);
  }

  /** The outcome of one parser method agrees with the function that
      specifies it: the same result with the cursor at the tokens left, or
      the same error. */
  predicate ParseAgrees<T(==)>(spec: Result<(T, seq<Token>), ParseError>, r: Result<T, ParseError>, rest: seq<Token>)
  {
    match spec
    case Ok(p) => r == Ok(p.0) && rest == p.1
    case Err(e) => r == Err(e)
  }

  class Parser {
    const tokens: seq<Token>
    var i: nat

    ghost predicate Valid()
      reads this
    {
      i < |tokens| && ValidTokens(tokens[i..])
    }

    /** The tokens not read yet. */
    ghost function Rest(): seq<Token>
      reads this
      requires i <= |tokens|
    {
      tokens[i..]
    }

    constructor (tokens: seq<Token>)
      requires ValidTokens(tokens)
      ensures Valid() && this.tokens == tokens && i == 0
    {
      this.tokens := tokens;
      i := 0;
    }

    /** `peek()`: the current token. */
    function Peek(): (t: Token)
      reads this
      requires Valid()
      ensures t == Rest()[0]
    {
      tokens[i]
    }

    /** `advance()`: return the current token and move past it. */
    method Advance() returns (t: Token)
      requires Valid() && Peek().kind != Eof
      modifies this
      ensures Valid() && t == old(Peek()) && Rest() == old(Rest())[1..]
    {
      t := tokens[i];
      assert tokens[i + 1..] == tokens[i..][1..];
      ValidTail(tokens[i..]);
      i := i + 1;
    }

    /** `expect(kind)`. */
    method Expect(kind: Kind) returns (r: Result<Token, ParseError>)
      requires Valid()
      modifies this
      ensures i <= |tokens|
      ensures r.Err? || kind != Eof ==> Valid()
      ensures r.Ok? ==> ExpectKind(old(Rest()), kind) == Ok((r.value, Rest()))
      ensures r.Err? ==> ExpectKind(old(Rest()), kind) == Err(r.error) && i == old(i)
    {
      var t := tokens[i];
      if t.kind != kind {
        return Err(Expected(kind, t.kind, t.line, t.col));
      }
      if kind != Eof {
        assert tokens[i + 1..] == tokens[i..][1..];
        ValidTail(tokens[i..]);
      }
      i := i + 1;
      r := Ok(t);
    }

    /** `parse_value`. */
    method ParseValue() returns (r: Result<Node, ParseError>)
      requires Valid()
      modifies this
      ensures Valid() && ParseAgrees(ReadValue(old(Rest())), r, Rest())
      decreases |tokens| - i, 2
    {
      var t := Peek();
      if t.kind == Hex {
        var tok := Advance();
        return Ok(Number(HexValue(tok.text)));
      }
      if t.kind == KwArray {
        r := ParseArray();
        return;
      }
      if t.kind == LBrace {
        r := ParseDict();
        return;
      }
      if t.kind == QMark {
        r := ParseConstRef();
        return;
      }
      r := Err(ExpectedValue(t.kind, t.line, t.col));
    }

    /** `parse_array`. */
    method ParseArray() returns (r: Result<Node, ParseError>)
      requires Valid()
      modifies this
      ensures Valid() && ParseAgrees(ReadArray(old(Rest())), r, Rest())
      decreases |tokens| - i, 1
    {
      ghost var goal := ReadArray(Rest());
      var kw :- Expect(KwArray);
      var open :- Expect(LParen);
      assert goal == ReadArrayItems(Rest());
      var items: seq<Node> := [];
      if Peek().kind != RParen {
        var first :- ParseValue();
        items := [first];
        assert goal == ReadArrayRest(Rest(), items);
        while Peek().kind == Comma
          invariant Valid()
          invariant goal == ReadArrayRest(Rest(), items)
          decreases |tokens| - i
        {
          ReadArrayRestStep(Rest(), items);
          var comma := Advance();
          var next :- ParseValue();
          items := items + [next];
        }
      }
      var close :- Expect(RParen);
      r := Ok(Array(items));
    }

    /** `parse_dict`. */
    method ParseDict() returns (r: Result<Node, ParseError>)
      requires Valid()
      modifies this
      ensures Valid() && ParseAgrees(ReadDict(old(Rest())), r, Rest())
      decreases |tokens| - i, 1
    {
      ghost var goal := ReadDict(Rest());
      var open :- Expect(LBrace);
      var entries: seq<Entry> := [];
      while Peek().kind != RBrace
        invariant Valid()
        invariant goal == ReadDictEntries(Rest(), entries)
        decreases |tokens| - i
      {
        ghost var entry := ReadDictEntry(Rest());
        var key :- Expect(Ident);
        var eq :- Expect(Equal);
        var val :- ParseValue();
        var semi :- Expect(Semi);
        assert entry == Ok((Entry(key.text, val), Rest()));
        entries := entries + [Entry(key.text, val)];
      }
      var close := Expect(RBrace);
      r := Ok(Map(entries));
    }

    /** `parse_const_ref`. */
    method ParseConstRef() returns (r: Result<Node, ParseError>)
      requires Valid()
      modifies this
      ensures Valid() && ParseAgrees(ReadConstRef(old(Rest())), r, Rest())
    {
      var q :- Expect(QMark);
      var open :- Expect(LBracket);
      var name :- Expect(Ident);
      var close :- Expect(RBracket);
      r := Ok(ConstRef(name.text));
    }

    /** `parse_const_decl`. */
    method ParseConstDecl() returns (r: Result<ConstDecl, ParseError>)
      requires Valid()
      modifies this
      ensures Valid() && ParseAgrees(ReadConstDecl(old(Rest())), r, Rest())
    {
      var kw :- Expect(KwVar);
      var name :- Expect(Ident);
      var eq :- Expect(Equal);
      var val :- ParseValue();
      r := Ok(ConstDecl(name.text, val));
    }

    /** `parse_program`. */
    method ParseProgram() returns (r: Result<Program, ParseError>)
      requires Valid()
      modifies this
      ensures r == ReadProgram(old(Rest()))
    {
      var decls: seq<ConstDecl> := [];
      while Peek().kind == KwVar
        invariant Valid()
        invariant ReadDecls(old(Rest()), []) == ReadDecls(Rest(), decls)
        decreases |tokens| - i
      {
        var decl :- ParseConstDecl();
        decls := decls + [decl];
      }
      var root :- ParseValue();
      var end :- Expect(Eof);
      r := Ok(Program(decls, root));
    }
  }
}
