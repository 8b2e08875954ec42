/** The translation pipeline of `run_cli`: lex the source text, parse the
    tokens, evaluate the program with an empty constant table and print the
    root value as a TOML document. */
module Translation {
  import opened Outcomes
  import opened Tokens
  import opened Ast
  import opened Lexing
  import opened Parsing
  import opened Grammar
  import opened Values
  import opened Evaluation
  import opened Emission
  import opened Reading

  /** The three kinds of failure `run_cli` reports: a syntax error from the
      lexer or the parser, or an evaluation error. */
  datatype Failure =
    | Lexical(lex: LexError)
    | Syntax(parse: ParseError)
    | Semantic(eval: EvalError)

  /** The root value of a source text, or the first failure. */
  function Compile(text: string): Result<Value, Failure>
  {
    match Lex(text)
    case Err(e) => Err(Lexical(e))
    case Ok(tokens) =>
      match ReadProgram(tokens)
      case Err(e) => Err(Syntax(e))
      case Ok(prog) =>
        match EvaluateProgram(map[], prog)
        case Err(e) => Err(Semantic(e))
        case Ok(v) => Ok(v)
  }

  /** The TOML text of a source text, or the first failure. */
  function Translate(text: string): Result<string, Failure>
  {
    match Compile(text)
    case Err(e) => Err(e)
    case Ok(v) => Ok(EmitRoot(v))
  }

  /** The body of `run_cli` between reading the input and writing the
      output: a `Lexer`, a `Parser` and an `Evaluator` run in turn. */
  method Run(src: string) returns (r: Result<string, Failure>)
    ensures r == Translate(src)
  {
    var lx := new Lexer(src);
    var tokens := lx.Tokenize();
    if tokens.Err? {
      return Err(Lexical(tokens.error));
    }
    var ps := new Parser(tokens.value);
    var prog := ps.ParseProgram();
    if prog.Err? {
      return Err(Syntax(prog.error));
    }
    var ev := new Evaluator();
    var root := ev.EvalProgram(prog.value);
    if root.Err? {
      return Err(Semantic(root.error));
    }
    return Ok(EmitRoot(root.value));
  }

  // ---------------------------------------------------------------------
  // What the evaluator builds from a parsed program is readable TOML
  // ---------------------------------------------------------------------

  predicate TableReadable(table: Table)
  {
    forall name :: name in table ==> Readable(table[name])
  }

  /** `d[key] = value` keeps every key bare and every value readable. */
  lemma {:induction false} PutReadable(d: seq<Binding>, key: string, value: Value)
    requires ReadableEntries(d) && BareKey(key) && Readable(value)
    ensures ReadableEntries(Put(d, key, value))
  {
    if d != [] && d[0].key != key {
      PutReadable(d[1..], key, value);
      assert Put(d, key, value)[1..] == Put(d[1..], key, value);
    } else if d != [] {
      assert Put(d, key, value)[1..] == d[1..];
    }
  }

  /** The value of a well-formed node over a table of readable values is
      readable: its tables have the node's identifiers as keys, each once. */
  lemma {:induction false} EvaluateReadable(table: Table, n: Node)
    requires TableReadable(table) && WellFormedNode(n) && Evaluate(table, n).Ok?
    ensures Readable(Evaluate(table, n).value)
    decreases n, 2
  {
    match n
    case Number(_) =>
    case Array(items) =>
      ItemsReadable(table, items, []);
    case Map(entries) =>
      EntriesReadable(table, entries, []);
      EvaluateMap(table, entries);
    case ConstRef(name) =>
  }

  lemma {:induction false} ItemsReadable(table: Table, items: seq<Node>, done: seq<Value>)
    requires TableReadable(table) && WellFormedItems(items) && ReadableItems(done)
    requires EvaluateItems(table, items, done).Ok?
    ensures Readable(EvaluateItems(table, items, done).value)
    decreases items, 1
  {
    if items != [] {
      EvaluateReadable(table, items[0]);
      var v := Evaluate(table, items[0]).value;
      AppendReadable(done, v);
      ItemsReadable(table, items[1..], done + [v]);
    }
  }

  lemma {:induction false} AppendReadable(done: seq<Value>, v: Value)
    requires ReadableItems(done) && Readable(v)
    ensures ReadableItems(done + [v])
    decreases |done|
  {
    if done != [] {
      AppendReadable(done[1..], v);
      assert (done + [v])[1..] == done[1..] + [v];
    }
  }

  lemma {:induction false} EntriesReadable(table: Table, entries: seq<Entry>, acc: seq<Binding>)
    requires TableReadable(table) && WellFormedEntries(entries) && ReadableEntries(acc)
    requires EvaluateEntries(table, entries, acc).Ok?
    ensures var d := EvaluateEntries(table, entries, acc).value;
      d.Dict? && ReadableEntries(d.entries)
    decreases entries, 1
  {
    if entries != [] {
      EvaluateReadable(table, entries[0].value);
      var v := Evaluate(table, entries[0].value).value;
      PutReadable(acc, entries[0].key, v);
      EntriesReadable(table, entries[1..], Put(acc, entries[0].key, v));
    }
  }

  /** The constants of a well-formed program are readable values. */
  lemma {:induction false} FillConstsReadable(table: Table, decls: seq<ConstDecl>)
    requires TableReadable(table) && WellFormedDecls(decls)
    ensures TableReadable(FillConsts(table, decls).table)
    decreases |decls|
  {
    if decls != [] && decls[0].name !in table {
      var r := Evaluate(table, decls[0].value);
      if r.Ok? {
        EvaluateReadable(table, decls[0].value);
        FillConstsReadable(table[decls[0].name := r.value], decls[1..]);
      }
    }
  }

  /** End to end: whenever the translator produces a TOML document, reading
      that document back gives the root table of the evaluated program, the
      root value itself when it is a map and `{ value = root }` otherwise. */
  lemma TranslateReadsBack(text: string)
    requires Translate(text).Ok?
    ensures Compile(text).Ok?
    ensures ReadDocument(Translate(text).value) == Some(Dict(RootTable(Compile(text).value)))
  {
    var tokens := Lex(text).value;
    var prog := ReadProgram(tokens).value;
    ReadProgramCanonical(tokens);
    FillConstsReadable(map[], prog.consts);
    var f := FillConsts(map[], prog.consts);
    EvaluateReadable(f.table, prog.root);
    EmitRootReadsBack(Compile(text).value);
  }
}
