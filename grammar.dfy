/** The grammar the parser accepts, stated as the token list of each AST
    node (`Unparse`), and the two lemmas that tie it to the parser: reading
    the tokens of a node gives that node back, and whatever the parser
    accepts is, up to positions and the spelling of hex literals, the token
    list of what it returns. */
module Grammar {
  import opened Outcomes
  import opened Chars
  import opened Tokens
  import opened Ast
  import opened Parsing
  import opened SeqFacts

  function Tok(k: Kind, text: string): Token
  {
    Token(k, text, 0, 0)
  }

  function Fixed(k: Kind): Token
  {
    Tok(k, Spelling(k))
  }

  /** The token `t` in front of the tokens `ts`. */
  function Cons(t: Token, ts: seq<Token>): (r: seq<Token>)
    ensures WellFormedToken(t) && t.kind != Eof && ValidTokens(ts) ==> ValidTokens(r)
  {
    assert ([t] + ts)[1..] == ts;
    [t] + ts
  }

  /** Map keys and constant names are identifiers, as the lexer makes them. */
  predicate WellFormedNode(n: Node)
    decreases n, 1
  {
    match n
    case Number(_) => true
    case Array(items) => WellFormedItems(items)
    case Map(entries) => WellFormedEntries(entries)
    case ConstRef(name) => IsIdentifier(name)
  }

  predicate WellFormedItems(items: seq<Node>)
    decreases items, 0
  {
    items == [] || (WellFormedNode(items[0]) && WellFormedItems(items[1..]))
  }

  predicate WellFormedEntries(entries: seq<Entry>)
    decreases entries, 0
  {
    entries == [] || (IsIdentifier(entries[0].key) && WellFormedNode(entries[0].value) && WellFormedEntries(entries[1..]))
  }

  predicate WellFormedDecls(decls: seq<ConstDecl>)
  {
    decls == [] || (IsIdentifier(decls[0].name) && WellFormedNode(decls[0].value) && WellFormedDecls(decls[1..]))
  }

  predicate WellFormedProgram(p: Program)
  {
    WellFormedDecls(p.consts) && WellFormedNode(p.root)
  }

  /** The canonical tokens of a value followed by the tokens `rest`:
      `0x` literals in lower-case hex without leading zeros, array items
      separated by commas, map entries each ended by a semicolon. */
  function UnparseThen(n: Node, rest: seq<Token>): (ts: seq<Token>)
    ensures WellFormedNode(n) && ValidTokens(rest) ==> ValidTokens(ts)
    ensures |ts| > 0 && ts[0].kind in {Hex, KwArray, LBrace, QMark}
    decreases n, 1
  {
    match n
    case Number(v) => Cons(Tok(Hex, HexString(v)), rest)
    case Array(items) => Cons(Fixed(KwArray), Cons(Fixed(LParen), ItemsThen(items, Cons(Fixed(RParen), rest))))
    case Map(entries) => Cons(Fixed(LBrace), EntriesThen(entries, Cons(Fixed(RBrace), rest)))
    case ConstRef(name) => Cons(Fixed(QMark), Cons(Fixed(LBracket), Cons(Tok(Ident, name), Cons(Fixed(RBracket), rest))))
  }

  function ItemsThen(items: seq<Node>, rest: seq<Token>): (ts: seq<Token>)
    ensures WellFormedItems(items) && ValidTokens(rest) ==> ValidTokens(ts)
    decreases items, 0
  {
    if items == [] then rest else UnparseThen(items[0], MoreItemsThen(items[1..], rest))
  }

  /** Items after the first, each preceded by a comma. */
  function MoreItemsThen(items: seq<Node>, rest: seq<Token>): (ts: seq<Token>)
    ensures WellFormedItems(items) && ValidTokens(rest) ==> ValidTokens(ts)
    decreases items, 0
  {
    if items == [] then rest else Cons(Fixed(Comma), UnparseThen(items[0], MoreItemsThen(items[1..], rest)))
  }

  function EntriesThen(entries: seq<Entry>, rest: seq<Token>): (ts: seq<Token>)
    ensures WellFormedEntries(entries) && ValidTokens(rest) ==> ValidTokens(ts)
    decreases entries, 0
  {
    if entries == [] then rest
    else Cons(Tok(Ident, entries[0].key), Cons(Fixed(Equal), UnparseThen(entries[0].value, Cons(Fixed(Semi), EntriesThen(entries[1..], rest)))))
  }

  /** Reading the canonical tokens of a value, whatever follows them, gives
      the value back and stops right after them. */
  lemma {:induction false} ReadValueUnparse(n: Node, rest: seq<Token>)
    requires WellFormedNode(n) && ValidTokens(rest)
    ensures ReadValue(UnparseThen(n, rest)) == Ok((n, rest))
    decreases n, 1
  {
    match n
    case Number(v) =>
      ReadNumberUnparse(v, rest);
    case Array(items) =>
      ReadArrayUnparse(items, rest);
    case Map(entries) =>
      ReadMapUnparse(entries, rest);
    case ConstRef(name) =>
      ReadConstRefUnparse(name, rest);
  }

  lemma {:induction false} ReadArrayUnparse(items: seq<Node>, rest: seq<Token>)
    requires WellFormedItems(items) && ValidTokens(rest)
    ensures ReadValue(UnparseThen(Array(items), rest)) == Ok((Array(items), rest))
    decreases items, 1
  {
    var ts := UnparseThen(Array(items), rest);
    assert ts[1..][1..] == ts[2..];
    ReadValueArray(ts);
    ReadArrayItemsUnparse(items, rest);
  }

  lemma {:induction false} ReadMapUnparse(entries: seq<Entry>, rest: seq<Token>)
    requires WellFormedEntries(entries) && ValidTokens(rest)
    ensures ReadValue(UnparseThen(Map(entries), rest)) == Ok((Map(entries), rest))
    decreases entries, 3
  {
    ReadValueDict(UnparseThen(Map(entries), rest));
    ReadDictEntriesUnparse(entries, [], rest);
    assert [] + entries == entries;
  }

  lemma ReadNumberUnparse(v: nat, rest: seq<Token>)
    requires ValidTokens(rest)
    ensures ReadValue(UnparseThen(Number(v), rest)) == Ok((Number(v), rest))
  {
    HexStringValue(v);
  }

  lemma ReadConstRefUnparse(name: string, rest: seq<Token>)
    requires IsIdentifier(name) && ValidTokens(rest)
    ensures ReadValue(UnparseThen(ConstRef(name), rest)) == Ok((ConstRef(name), rest))
  {
    var ts := UnparseThen(ConstRef(name), rest);
    assert ts == [Fixed(QMark), Fixed(LBracket), Tok(Ident, name), Fixed(RBracket)] + rest;
    ReadConstRefShape(ts);
  }

  lemma {:induction false} ReadArrayItemsUnparse(items: seq<Node>, rest: seq<Token>)
    requires WellFormedItems(items)
    requires ValidTokens(rest)
    ensures ReadArrayItems(ItemsThen(items, Cons(Fixed(RParen), rest))) == Ok((Array(items), rest))
    decreases items, 0
  {
    var tail := Cons(Fixed(RParen), rest);
    if items == [] {
      assert ReadArrayItems(tail) == ReadArrayClose(tail, []);
    } else {
      var more := MoreItemsThen(items[1..], tail);
      var ts := ItemsThen(items, tail);
      assert ts == UnparseThen(items[0], more);
      ReadValueUnparse(items[0], more);
      ReadArrayItemsStep(ts);
      ReadArrayRestUnparse([items[0]], items[1..], rest);
      ShiftHead([], items);
    }
  }

  /** The value after the comma that starts `MoreItemsThen`. */
  lemma {:induction false} ReadItemUnparse(todo: seq<Node>, tail: seq<Token>)
    requires todo != [] && WellFormedItems(todo) && ValidTokens(tail)
    ensures MoreItemsThen(todo, tail)[0].kind == Comma
    ensures ReadValue(MoreItemsThen(todo, tail)[1..]) == Ok((todo[0], MoreItemsThen(todo[1..], tail)))
    decreases todo, 1
  {
    var more := MoreItemsThen(todo[1..], tail);
    assert MoreItemsThen(todo, tail)[1..] == UnparseThen(todo[0], more);
    ReadValueUnparse(todo[0], more);
  }

  lemma {:induction false} ReadArrayRestUnparse(done: seq<Node>, todo: seq<Node>, rest: seq<Token>)
    requires WellFormedItems(todo)
    requires ValidTokens(rest)
    ensures ReadArrayRest(MoreItemsThen(todo, Cons(Fixed(RParen), rest)), done) == Ok((Array(done + todo), rest))
    decreases todo, 2
  {
    var tail := Cons(Fixed(RParen), rest);
    if todo == [] {
      assert done + todo == done;
    } else {
      ReadItemUnparse(todo, tail);
      ReadArrayRestStep(MoreItemsThen(todo, tail), done);
      ReadArrayRestUnparse(done + [todo[0]], todo[1..], rest);
      ShiftHead(done, todo);
    }
  }

  /** The entry `key = value ;` at the head of `EntriesThen`. */
  lemma {:induction false} ReadEntryUnparse(entries: seq<Entry>, tail: seq<Token>)
    requires entries != [] && WellFormedEntries(entries) && ValidTokens(tail)
    ensures EntriesThen(entries, tail)[0].kind == Ident
    ensures ReadDictEntry(EntriesThen(entries, tail)) == Ok((entries[0], EntriesThen(entries[1..], tail)))
    decreases entries, 1
  {
    var e := entries[0];
    var more := EntriesThen(entries[1..], tail);
    var value := UnparseThen(e.value, Cons(Fixed(Semi), more));
    var ts := EntriesThen(entries, tail);
    ReadValueUnparse(e.value, Cons(Fixed(Semi), more));
  }

  lemma {:induction false} ReadDictEntriesUnparse(entries: seq<Entry>, done: seq<Entry>, rest: seq<Token>)
    requires WellFormedEntries(entries)
    requires ValidTokens(rest)
    ensures ReadDictEntries(EntriesThen(entries, Cons(Fixed(RBrace), rest)), done) == Ok((Map(done + entries), rest))
    decreases entries, 2
  {
    var tail := Cons(Fixed(RBrace), rest);
    if entries == [] {
      assert done + entries == done;
    } else {
      ReadEntryUnparse(entries, tail);
      ReadDictEntriesStep(EntriesThen(entries, tail), done);
      ReadDictEntriesUnparse(entries[1..], done + [entries[0]], rest);
      ShiftHead(done, entries);
    }
  }

  /** The canonical tokens of a program: each declaration `var name = value`,
      the root value, the end marker. */
  function UnparseProgram(p: Program): seq<Token>
  {
    DeclsThen(p.consts, UnparseThen(p.root, [Fixed(Eof)]))
  }

  function DeclsThen(decls: seq<ConstDecl>, rest: seq<Token>): (ts: seq<Token>)
    ensures WellFormedDecls(decls) && ValidTokens(rest) ==> ValidTokens(ts)
  {
    if decls == [] then rest
    else
      Cons(Fixed(KwVar), Cons(Tok(Ident, decls[0].name), Cons(Fixed(Equal), UnparseThen(decls[0].value, DeclsThen(decls[1..], rest)))))
  }

  lemma ReadConstDeclUnparse(decls: seq<ConstDecl>, rest: seq<Token>)
    requires decls != [] && WellFormedDecls(decls) && ValidTokens(rest)
    ensures ReadConstDecl(DeclsThen(decls, rest)) == Ok((decls[0], DeclsThen(decls[1..], rest)))
  {
    ReadValueUnparse(decls[0].value, DeclsThen(decls[1..], rest));
  }

  lemma {:induction false} ReadDeclsUnparse(decls: seq<ConstDecl>, done: seq<ConstDecl>, rest: seq<Token>)
    requires WellFormedDecls(decls)
    requires ValidTokens(rest) && rest[0].kind != KwVar
    ensures ReadDecls(DeclsThen(decls, rest), done) == Ok((done + decls, rest))
    decreases |decls|
  {
    if decls == [] {
      assert done + decls == done;
    } else {
      ReadConstDeclUnparse(decls, rest);
      ReadDeclsUnparse(decls[1..], done + [decls[0]], rest);
      ShiftHead(done, decls);
    }
  }

  /** Parsing the canonical tokens of a program gives the program back. */
  lemma ReadProgramUnparse(p: Program)
    requires WellFormedProgram(p)
    ensures ValidTokens(UnparseProgram(p))
    ensures ReadProgram(UnparseProgram(p)) == Ok(p)
  {
    var eof := [Fixed(Eof)];
    var body := UnparseThen(p.root, eof);
    ReadDeclsUnparse(p.consts, [], body);
    assert [] + p.consts == p.consts;
    ReadValueUnparse(p.root, eof);
  }

  /** A token with its position dropped and a hex literal re-spelt canonically. */
  function Erase(t: Token): Token
  {
    Tok(t.kind, if t.kind == Hex then HexString(HexValue(t.text)) else t.text)
  }

  function EraseAll(ts: seq<Token>): (es: seq<Token>)
    ensures |es| == |ts|
    ensures forall k :: 0 <= k < |ts| ==> es[k] == Erase(ts[k])
  {
    seq(|ts|, k requires 0 <= k < |ts| => Erase(ts[k]))
  }

  lemma EraseCons(ts: seq<Token>)
    requires |ts| > 0
    ensures EraseAll(ts) == Cons(Erase(ts[0]), EraseAll(ts[1..]))
  {
    assert EraseAll(ts)[1..] == EraseAll(ts[1..]);
  }

  /** A well-formed token of fixed spelling erases to its canonical form. */
  lemma EraseFixed(t: Token)
    requires WellFormedToken(t) && t.kind !in {Hex, Ident}
    ensures Erase(t) == Fixed(t.kind)
  {
  }

  /** When `all` starts with `done + [x]`, what lies after `done` is `x`
      followed by what lies after `done + [x]`. */
  lemma AccumulatorStep<T>(done: seq<T>, x: T, all: seq<T>)
    requires |all| > |done| && all[..|done| + 1] == done + [x]
    ensures all[..|done|] == done
    ensures all[|done|..] == [x] + all[|done| + 1..]
  {
    assert all[..|done|] == all[..|done| + 1][..|done|];
    assert all[|done|] == all[..|done| + 1][|done|];
  }

  /** Whatever `parse_value` accepts is the canonical token list of the value
      it returns, up to positions and hex spelling: a hex literal, `array (`
      items separated by commas `)`, `{` entries each ended by `;` `}`, or
      `? [ name ]`. */
  lemma {:induction false} ReadValueCanonical(ts: seq<Token>)
    requires ValidTokens(ts) && ReadValue(ts).Ok?
    ensures WellFormedNode(ReadValue(ts).value.0)
    ensures EraseAll(ts) == UnparseThen(ReadValue(ts).value.0, EraseAll(ReadValue(ts).value.1))
    decreases |ts|, 2
  {
    EraseCons(ts);
    match ts[0].kind
    case Hex =>
    case KwArray =>
      ReadValueArray(ts);
      EraseFixed(ts[0]);
      EraseCons(ts[1..]);
      EraseFixed(ts[1]);
      assert ts[1..][1..] == ts[2..];
      ReadArrayItemsCanonical(ts[2..]);
    case LBrace =>
      ReadValueDict(ts);
      EraseFixed(ts[0]);
      ReadDictEntriesCanonical(ts[1..], []);
      assert ReadValue(ts).value.0.entries[0..] == ReadValue(ts).value.0.entries;
    case QMark =>
      ReadConstRefCanonical(ts);
  }

  lemma ReadConstRefCanonical(ts: seq<Token>)
    requires ValidTokens(ts) && ts[0].kind == QMark && ReadValue(ts).Ok?
    ensures WellFormedNode(ReadValue(ts).value.0)
    ensures EraseAll(ts) == UnparseThen(ReadValue(ts).value.0, EraseAll(ReadValue(ts).value.1))
  {
    var r := ReadConstRef(ts).value;
    assert r == (ConstRef(ts[2].text), ts[4..]);
    EraseCons(ts);
    EraseFixed(ts[0]);
    EraseCons(ts[1..]);
    assert ts[1..][1..] == ts[2..];
    EraseCons(ts[2..]);
    assert ts[2..][1..] == ts[3..];
    EraseCons(ts[3..]);
    assert ts[3..][1..] == ts[4..];
    EraseFixed(ts[1]);
    EraseFixed(ts[3]);
  }

  lemma {:induction false} ReadArrayItemsCanonical(ts: seq<Token>)
    requires ValidTokens(ts) && ReadArrayItems(ts).Ok?
    ensures ReadArrayItems(ts).value.0.Array?
    ensures WellFormedNode(ReadArrayItems(ts).value.0)
    ensures EraseAll(ts) == ItemsThen(ReadArrayItems(ts).value.0.items, Cons(Fixed(RParen), EraseAll(ReadArrayItems(ts).value.1)))
    decreases |ts|, 3
  {
    if ts[0].kind != RParen {
      var first := ReadValue(ts).value;
      ReadValueCanonical(ts);
      ReadArrayItemsStep(ts);
      ReadArrayRestCanonical(first.1, [first.0]);
      var items := ReadArrayItems(ts).value.0.items;
      AccumulatorStep([], first.0, items);
    } else {
      EraseCons(ts);
      EraseFixed(ts[0]);
    }
  }

  lemma {:induction false} ReadArrayRestCanonical(ts: seq<Token>, done: seq<Node>)
    requires ValidTokens(ts) && ReadArrayRest(ts, done).Ok?
    ensures ReadArrayRest(ts, done).value.0.Array?
    ensures |ReadArrayRest(ts, done).value.0.items| >= |done|
    ensures ReadArrayRest(ts, done).value.0.items[..|done|] == done
    ensures WellFormedItems(ReadArrayRest(ts, done).value.0.items[|done|..])
    ensures EraseAll(ts) ==
      MoreItemsThen(ReadArrayRest(ts, done).value.0.items[|done|..], Cons(Fixed(RParen), EraseAll(ReadArrayRest(ts, done).value.1)))
    decreases |ts|, 0
  {
    EraseCons(ts);
    EraseFixed(ts[0]);
    if ts[0].kind == Comma {
      ReadArrayRestStep(ts, done);
      var next := ReadValue(ts[1..]).value;
      ReadValueCanonical(ts[1..]);
      ReadArrayRestCanonical(next.1, done + [next.0]);
      AccumulatorStep(done, next.0, ReadArrayRest(ts, done).value.0.items);
    } else {
      assert ReadArrayRest(ts, done).value.0.items == done;
    }
  }

  /** One entry `key = value ;` read by the loop of `parse_dict`. */
  lemma ReadEntryCanonical(ts: seq<Token>)
    requires ValidTokens(ts) && ReadDictEntry(ts).Ok?
    ensures IsIdentifier(ReadDictEntry(ts).value.0.key) && WellFormedNode(ReadDictEntry(ts).value.0.value)
    ensures EraseAll(ts) ==
      Cons(Tok(Ident, ReadDictEntry(ts).value.0.key), Cons(Fixed(Equal),
        UnparseThen(ReadDictEntry(ts).value.0.value, Cons(Fixed(Semi), EraseAll(ReadDictEntry(ts).value.1)))))
    decreases |ts|, 3
  {
    ReadDictEntryParts(ts);
    var value := ReadValue(ts[2..]).value;
    EraseCons(ts);
    EraseCons(ts[1..]);
    EraseFixed(ts[1]);
    assert ts[1..][1..] == ts[2..];
    ReadValueCanonical(ts[2..]);
    EraseCons(value.1);
    EraseFixed(value.1[0]);
  }

  lemma {:induction false} ReadDictEntriesCanonical(ts: seq<Token>, done: seq<Entry>)
    requires ValidTokens(ts) && ReadDictEntries(ts, done).Ok?
    ensures ReadDictEntries(ts, done).value.0.Map?
    ensures |ReadDictEntries(ts, done).value.0.entries| >= |done|
    ensures ReadDictEntries(ts, done).value.0.entries[..|done|] == done
    ensures WellFormedEntries(ReadDictEntries(ts, done).value.0.entries[|done|..])
    ensures EraseAll(ts) ==
      EntriesThen(ReadDictEntries(ts, done).value.0.entries[|done|..], Cons(Fixed(RBrace), EraseAll(ReadDictEntries(ts, done).value.1)))
    decreases |ts|, 4
  {
    if ts[0].kind != RBrace {
      var entry := ReadDictEntry(ts).value;
      ReadEntryCanonical(ts);
      ReadDictEntriesStep(ts, done);
      ReadDictEntriesCanonical(entry.1, done + [entry.0]);
      AccumulatorStep(done, entry.0, ReadDictEntries(ts, done).value.0.entries);
    } else {
      EraseCons(ts);
      EraseFixed(ts[0]);
      assert ReadDictEntries(ts, done).value.0.entries == done;
    }
  }

  /** One declaration `var name = value` read by `parse_const_decl`. */
  lemma ReadConstDeclCanonical(ts: seq<Token>)
    requires ValidTokens(ts) && ReadConstDecl(ts).Ok?
    ensures IsIdentifier(ReadConstDecl(ts).value.0.name) && WellFormedNode(ReadConstDecl(ts).value.0.value)
    ensures EraseAll(ts) ==
      Cons(Fixed(KwVar), Cons(Tok(Ident, ReadConstDecl(ts).value.0.name), Cons(Fixed(Equal),
        UnparseThen(ReadConstDecl(ts).value.0.value, EraseAll(ReadConstDecl(ts).value.1)))))
  {
    ReadConstDeclParts(ts);
    EraseCons(ts);
    EraseFixed(ts[0]);
    EraseCons(ts[1..]);
    assert ts[1..][1..] == ts[2..];
    EraseCons(ts[2..]);
    assert ts[2..][1..] == ts[3..];
    EraseFixed(ts[2]);
    ReadValueCanonical(ts[3..]);
  }

  lemma {:induction false} ReadDeclsCanonical(ts: seq<Token>, done: seq<ConstDecl>)
    requires ValidTokens(ts) && ReadDecls(ts, done).Ok?
    ensures |ReadDecls(ts, done).value.0| >= |done|
    ensures ReadDecls(ts, done).value.0[..|done|] == done
    ensures WellFormedDecls(ReadDecls(ts, done).value.0[|done|..])
    ensures EraseAll(ts) == DeclsThen(ReadDecls(ts, done).value.0[|done|..], EraseAll(ReadDecls(ts, done).value.1))
    decreases |ts|
  {
    if ts[0].kind == KwVar {
      var decl := ReadConstDecl(ts).value;
      ReadConstDeclCanonical(ts);
      ReadDeclsStep(ts, done);
      ReadDeclsCanonical(decl.1, done + [decl.0]);
      AccumulatorStep(done, decl.0, ReadDecls(ts, done).value.0);
    } else {
      assert ReadDecls(ts, done).value.0 == done;
    }
  }

  /** Whatever `parse_program` accepts is, up to positions and hex spelling,
      the canonical token list of the program it returns. */
  lemma ReadProgramCanonical(ts: seq<Token>)
    requires ValidTokens(ts) && ReadProgram(ts).Ok?
    ensures WellFormedProgram(ReadProgram(ts).value)
    ensures EraseAll(ts) == UnparseProgram(ReadProgram(ts).value)
  {
    var decls := ReadDecls(ts, []).value;
    ReadDeclsCanonical(ts, []);
    assert decls.0[0..] == decls.0;
    var root := ReadValue(decls.1).value;
    ReadValueCanonical(decls.1);
    ValidTokensEndWithEof(root.1);
    assert EraseAll(root.1) == [Fixed(Eof)];
  }
}
