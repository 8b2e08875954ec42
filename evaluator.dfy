/** The evaluator: `Evaluator.eval_program` fills the constant table in
    declaration order and then reduces the root node; `eval_value` reduces
    one node against the table.

    `Evaluate`, `EvaluateItems`, `EvaluateEntries`, `FillConsts` and
    `EvaluateProgram` say what the two methods compute; the class `Evaluator`
    is the object of the source with its mutable `consts` table, and its
    methods are proved to agree with those functions. */
module Evaluation {
  import opened Outcomes
  import opened Ast
  import opened Values

  /** `EvalError`, with the constant name its message names. */
  datatype EvalError =
    | DuplicateConst(name: string)
    | UnknownConst(name: string)

  /** `self.consts`; the order of its keys is never observed. */
  type Table = map<string, Value>

  /** `eval_value`. */
  function Evaluate(table: Table, n: Node): (r: Result<Value, EvalError>)
    decreases n, 2
  {
    match n
    case Number(v) => Ok(Int(v))
    case Array(items) => EvaluateItems(table, items, [])
    case Map(entries) => EvaluateEntries(table, entries, [])
    case ConstRef(name) => if name in table then Ok(table[name]) else Err(UnknownConst(name))
  }

  /** The list comprehension of `eval_value` on an array, from the values
      `done` already computed: items left to right, the first error wins. */
  function EvaluateItems(table: Table, items: seq<Node>, done: seq<Value>): (r: Result<Value, EvalError>)
    decreases items, 1
  {
    if items == [] then Ok(List(done))
    else
      var v :- Evaluate(table, items[0]);
      EvaluateItems(table, items[1..], done + [v])
  }

  /** The loop of `eval_value` on a map, from the dict `acc` built so far:
      `result[item.key] = self.eval_value(item.value)` for each entry. */
  function EvaluateEntries(table: Table, entries: seq<Entry>, acc: seq<Binding>): (r: Result<Value, EvalError>)
    decreases entries, 1
  {
    if entries == [] then Ok(Dict(acc))
    else
      var v :- Evaluate(table, entries[0].value);
      EvaluateEntries(table, entries[1..], Put(acc, entries[0].key, v))
  }

  /** The table after the declaration loop of `eval_program` and the error
      that stopped it, if any. */
  datatype Filled = Filled(table: Table, failure: Option<EvalError>)

  function FillConsts(table: Table, decls: seq<ConstDecl>): (f: Filled)
    decreases |decls|
  {
    if decls == [] then Filled(table, None)
    else if decls[0].name in table then Filled(table, Some(DuplicateConst(decls[0].name)))
    else
      match Evaluate(table, decls[0].value)
      case Err(e) => Filled(table, Some(e))
      case Ok(v) => FillConsts(table[decls[0].name := v], decls[1..])
  }

  /** `eval_program` on an evaluator whose table is `table`. */
  function EvaluateProgram(table: Table, p: Program): (r: Result<Value, EvalError>)
  {
    var f := FillConsts(table, p.consts);
    if f.failure.Some? then Err(f.failure.value) else Evaluate(f.table, p.root)
  }

  class Evaluator {
    var consts: Table

    constructor()
      ensures consts == map[]
    {
      consts := map[];
    }

    method EvalProgram(prog: Program) returns (r: Result<Value, EvalError>)
      modifies this
      ensures consts == FillConsts(old(consts), prog.consts).table
      ensures r == EvaluateProgram(old(consts), prog)
    {
      var k := 0;
      while k < |prog.consts|
        invariant 0 <= k <= |prog.consts|
        invariant FillConsts(old(consts), prog.consts) == FillConsts(consts, prog.consts[k..])
      {
        assert prog.consts[k..][1..] == prog.consts[k + 1..];
        var decl := prog.consts[k];
        if decl.name in consts {
          return Err(DuplicateConst(decl.name));
        }
        var val := EvalValue(decl.value);
        if val.Err? {
          return Err(val.error);
        }
        consts := consts[decl.name := val.value];
        k := k + 1;
      }
      r := EvalValue(prog.root);
    }

    method EvalValue(v: Node) returns (r: Result<Value, EvalError>)
      ensures r == Evaluate(consts, v)
      decreases v
    {
      match v
      case Number(n) =>
        r := Ok(Int(n));
      case Array(items) =>
        var result: seq<Value> := [];
        var k := 0;
        assert items[0..] == items;
        while k < |items|
          invariant 0 <= k <= |items|
          invariant Evaluate(consts, v) == EvaluateItems(consts, items[k..], result)
        {
          assert items[k..][1..] == items[k + 1..];
          var x := EvalValue(items[k]);
          if x.Err? {
            return Err(x.error);
          }
          result := result + [x.value];
          k := k + 1;
        }
        r := Ok(List(result));
      case Map(entries) =>
        var result: seq<Binding> := [];
        var k := 0;
        assert entries[0..] == entries;
        while k < |entries|
          invariant 0 <= k <= |entries|
          invariant Evaluate(consts, v) == EvaluateEntries(consts, entries[k..], result)
        {
          assert entries[k..][1..] == entries[k + 1..];
          var x := EvalValue(entries[k].value);
          if x.Err? {
            return Err(x.error);
          }
          result := Put(result, entries[k].key, x.value);
          k := k + 1;
        }
        r := Ok(Dict(result));
      case ConstRef(name) =>
        if name !in consts {
          return Err(UnknownConst(name));
        }
        r := Ok(consts[name]);
    }
  }

  /** The constant names a node refers to. */
  function Refs(n: Node): set<string>
    decreases n, 1
  {
    match n
    case Number(_) => {}
    case Array(items) => ItemRefs(items)
    case Map(entries) => EntryRefs(entries)
    case ConstRef(name) => {name}
  }

  function ItemRefs(items: seq<Node>): set<string>
    decreases items, 0
  {
    if items == [] then {} else Refs(items[0]) + ItemRefs(items[1..])
  }

  function EntryRefs(entries: seq<Entry>): set<string>
    decreases entries, 0
  {
    if entries == [] then {} else Refs(entries[0].value) + EntryRefs(entries[1..])
  }

  /** `eval_value` succeeds exactly when every constant the node refers to
      is in the table, and otherwise fails naming a missing one. */
  lemma {:induction false} EvaluateSucceeds(table: Table, n: Node)
    ensures Evaluate(table, n).Ok? <==> Refs(n) <= table.Keys
    ensures Evaluate(table, n).Err? ==>
      Evaluate(table, n).error.UnknownConst? && Evaluate(table, n).error.name in Refs(n) - table.Keys
    decreases n, 2
  {
    match n
    case Number(_) =>
    case Array(items) => ItemsSucceed(table, items, []);
    case Map(entries) => EntriesSucceed(table, entries, []);
    case ConstRef(_) =>
  }

  lemma {:induction false} ItemsSucceed(table: Table, items: seq<Node>, done: seq<Value>)
    ensures EvaluateItems(table, items, done).Ok? <==> ItemRefs(items) <= table.Keys
    ensures EvaluateItems(table, items, done).Err? ==>
      EvaluateItems(table, items, done).error.UnknownConst? &&
      EvaluateItems(table, items, done).error.name in ItemRefs(items) - table.Keys
    decreases items, 1
  {
    if items != [] {
      EvaluateSucceeds(table, items[0]);
      var first := Evaluate(table, items[0]);
      if first.Ok? {
        ItemsSucceed(table, items[1..], done + [first.value]);
      }
    }
  }

  lemma {:induction false} EntriesSucceed(table: Table, entries: seq<Entry>, acc: seq<Binding>)
    ensures EvaluateEntries(table, entries, acc).Ok? <==> EntryRefs(entries) <= table.Keys
    ensures EvaluateEntries(table, entries, acc).Err? ==>
      EvaluateEntries(table, entries, acc).error.UnknownConst? &&
      EvaluateEntries(table, entries, acc).error.name in EntryRefs(entries) - table.Keys
    decreases entries, 1
  {
    if entries != [] {
      EvaluateSucceeds(table, entries[0].value);
      var first := Evaluate(table, entries[0].value);
      if first.Ok? {
        EntriesSucceed(table, entries[1..], Put(acc, entries[0].key, first.value));
      }
    }
  }

  /** An array evaluates to a list of the same length whose elements are
      the values of its items, in order. */
  lemma EvaluateArray(table: Table, items: seq<Node>)
    requires Evaluate(table, Array(items)).Ok?
    ensures Evaluate(table, Array(items)).value.List?
    ensures |Evaluate(table, Array(items)).value.items| == |items|
    ensures forall k :: 0 <= k < |items| ==> Evaluate(table, items[k]) == Ok(Evaluate(table, Array(items)).value.items[k])
  {
    ItemsShape(table, items, []);
  }

  lemma {:induction false} ItemsShape(table: Table, items: seq<Node>, done: seq<Value>)
    requires EvaluateItems(table, items, done).Ok?
    ensures EvaluateItems(table, items, done).value.List?
    ensures |EvaluateItems(table, items, done).value.items| == |done| + |items|
    ensures EvaluateItems(table, items, done).value.items[..|done|] == done
    ensures forall k :: 0 <= k < |items| ==>
      Evaluate(table, items[k]) == Ok(EvaluateItems(table, items, done).value.items[|done| + k])
    decreases |items|
  {
    if items != [] {
      var v := Evaluate(table, items[0]).value;
      ItemsShape(table, items[1..], done + [v]);
      var vs := EvaluateItems(table, items, done).value.items;
      assert vs[..|done|] == vs[..|done| + 1][..|done|];
      assert vs[|done|] == vs[..|done| + 1][|done|];
      forall k | 0 <= k < |items|
        ensures Evaluate(table, items[k]) == Ok(vs[|done| + k])
      {
        if k > 0 {
          assert items[k] == items[1..][k - 1];
        }
      }
    }
  }

  /** The keys of a map's entries, in source order. */
  function EntryKeys(entries: seq<Entry>): (ks: seq<string>)
    ensures |ks| == |entries|
  {
    if entries == [] then [] else [entries[0].key] + EntryKeys(entries[1..])
  }

  /** The value node of the last entry with key `key`. */
  function LastEntry(entries: seq<Entry>, key: string): Option<Node>
  {
    if entries == [] then None
    else
      match LastEntry(entries[1..], key)
      case Some(n) => Some(n)
      case None => if entries[0].key == key then Some(entries[0].value) else None
  }

  lemma {:induction false} EntriesShape(table: Table, entries: seq<Entry>, acc: seq<Binding>)
    requires DistinctKeys(acc) && EvaluateEntries(table, entries, acc).Ok?
    ensures EvaluateEntries(table, entries, acc).value.Dict?
    ensures DistinctKeys(EvaluateEntries(table, entries, acc).value.entries)
    ensures KeysOf(EvaluateEntries(table, entries, acc).value.entries) == AddKeys(KeysOf(acc), EntryKeys(entries))
    ensures forall key :: LastEntry(entries, key).None? ==>
      Lookup(EvaluateEntries(table, entries, acc).value.entries, key) == Lookup(acc, key)
    ensures forall key :: LastEntry(entries, key).Some? ==>
      Evaluate(table, LastEntry(entries, key).value).Ok? &&
      Lookup(EvaluateEntries(table, entries, acc).value.entries, key) == Some(Evaluate(table, LastEntry(entries, key).value).value)
    decreases |entries|
  {
    if entries != [] {
      var e := entries[0];
      var v := Evaluate(table, e.value).value;
      var next := Put(acc, e.key, v);
      PutDistinct(acc, e.key, v);
      PutKeys(acc, e.key, v);
      EntriesShape(table, entries[1..], next);
      forall key
        ensures Lookup(next, key) == if key == e.key then Some(v) else Lookup(acc, key)
      {
        PutLookup(acc, e.key, v, key);
      }
    }
  }

  /** A map evaluates to a dict whose keys are the distinct keys of its
      entries, in order of first occurrence, each bound to the value of its
      last entry. */
  lemma EvaluateMap(table: Table, entries: seq<Entry>)
    requires Evaluate(table, Map(entries)).Ok?
    ensures Evaluate(table, Map(entries)).value.Dict?
    ensures DistinctKeys(Evaluate(table, Map(entries)).value.entries)
    ensures forall key :: key in KeysOf(Evaluate(table, Map(entries)).value.entries) <==> key in EntryKeys(entries)
    ensures forall i, j :: 0 <= i < j < |Evaluate(table, Map(entries)).value.entries| ==>
      FirstIndex(EntryKeys(entries), Evaluate(table, Map(entries)).value.entries[i].key) <
      FirstIndex(EntryKeys(entries), Evaluate(table, Map(entries)).value.entries[j].key)
    ensures forall key :: LastEntry(entries, key).Some? ==>
      Evaluate(table, LastEntry(entries, key).value).Ok? &&
      Lookup(Evaluate(table, Map(entries)).value.entries, key) == Some(Evaluate(table, LastEntry(entries, key).value).value)
  {
    EntriesShape(table, entries, []);
    var d := Evaluate(table, Map(entries)).value.entries;
    AddKeysOrder([], EntryKeys(entries));
    forall i, j | 0 <= i < j < |d|
      ensures FirstIndex(EntryKeys(entries), d[i].key) < FirstIndex(EntryKeys(entries), d[j].key)
    {
      KeyAt(d, i);
      KeyAt(d, j);
    }
  }

  /** The names declared by `decls[..k]`. */
  function DeclaredBefore(decls: seq<ConstDecl>, k: nat): set<string>
    requires k <= |decls|
  {
    set i | 0 <= i < k :: decls[i].name
  }

  /** Declarations that `eval_program` accepts on top of the names `known`:
      no name is declared twice or already known, and each value refers
      only to names known or declared before it. */
  predicate Resolves(known: set<string>, decls: seq<ConstDecl>)
  {
    && (forall i, j :: 0 <= i < j < |decls| ==> decls[i].name != decls[j].name)
    && (forall k :: 0 <= k < |decls| ==> decls[k].name !in known)
    && (forall k :: 0 <= k < |decls| ==> Refs(decls[k].value) <= known + DeclaredBefore(decls, k))
  }

  /** What is known before declaration `k + 1` is what is known, with the
      first declaration added, before declaration `k` of the others. */
  lemma DeclaredBeforeCons(known: set<string>, decls: seq<ConstDecl>, k: nat)
    requires k < |decls| - 1
    ensures known + DeclaredBefore(decls, k + 1) == (known + {decls[0].name}) + DeclaredBefore(decls[1..], k)
  {
    var rest := decls[1..];
    forall x | x in DeclaredBefore(decls, k + 1)
      ensures x == decls[0].name || x in DeclaredBefore(rest, k)
    {
      var i :| 0 <= i < k + 1 && decls[i].name == x;
      if i > 0 {
        assert rest[i - 1].name == x;
      }
    }
    forall x | x in DeclaredBefore(rest, k)
      ensures x in DeclaredBefore(decls, k + 1)
    {
      var i :| 0 <= i < k && rest[i].name == x;
      assert decls[i + 1].name == x;
    }
    assert decls[0].name in DeclaredBefore(decls, k + 1);
  }

  lemma ResolvesCons(known: set<string>, decls: seq<ConstDecl>)
    requires decls != []
    ensures Resolves(known, decls) <==>
      && decls[0].name !in known
      && Refs(decls[0].value) <= known
      && Resolves(known + {decls[0].name}, decls[1..])
  {
    var d := decls[0];
    var rest := decls[1..];
    forall k | 0 <= k < |rest|
      ensures known + DeclaredBefore(decls, k + 1) == (known + {d.name}) + DeclaredBefore(rest, k)
    {
      DeclaredBeforeCons(known, decls, k);
    }
    assert DeclaredBefore(decls, 0) == {};
    if Resolves(known, decls) {
      forall k | 0 <= k < |rest|
        ensures rest[k].name !in known + {d.name}
      {
        assert rest[k] == decls[k + 1];
      }
      forall k | 0 <= k < |rest|
        ensures Refs(rest[k].value) <= (known + {d.name}) + DeclaredBefore(rest, k)
      {
        assert rest[k] == decls[k + 1];
      }
      forall i, j | 0 <= i < j < |rest|
        ensures rest[i].name != rest[j].name
      {
        assert rest[i] == decls[i + 1] && rest[j] == decls[j + 1];
      }
    }
    if d.name !in known && Refs(d.value) <= known && Resolves(known + {d.name}, rest) {
      forall k | 0 <= k < |decls|
        ensures Refs(decls[k].value) <= known + DeclaredBefore(decls, k)
      {
        if k > 0 {
          assert decls[k] == rest[k - 1];
        }
      }
      forall i, j | 0 <= i < j < |decls|
        ensures decls[i].name != decls[j].name
      {
        assert decls[j] == rest[j - 1];
        if i > 0 {
          assert decls[i] == rest[i - 1];
        }
      }
      forall k | 0 <= k < |decls|
        ensures decls[k].name !in known
      {
        if k > 0 {
          assert decls[k] == rest[k - 1];
        }
      }
    }
  }

  /** The declaration loop of `eval_program` runs to the end exactly when
      the declarations resolve; it then has added one entry per declared
      name and nothing else, and it never changes an entry it found. When
      it stops early, a redeclared name is already in the table and an
      unknown constant is not. */
  lemma {:induction false} FillConstsOutcome(table: Table, decls: seq<ConstDecl>)
    ensures FillConsts(table, decls).failure.None? <==> Resolves(table.Keys, decls)
    ensures FillConsts(table, decls).failure.None? ==>
      FillConsts(table, decls).table.Keys == table.Keys + set k | 0 <= k < |decls| :: decls[k].name
    ensures table.Keys <= FillConsts(table, decls).table.Keys
    ensures forall name :: name in table ==> FillConsts(table, decls).table[name] == table[name]
    ensures FillConsts(table, decls).failure.Some? && FillConsts(table, decls).failure.value.DuplicateConst? ==>
      FillConsts(table, decls).failure.value.name in FillConsts(table, decls).table
    ensures FillConsts(table, decls).failure.Some? && FillConsts(table, decls).failure.value.UnknownConst? ==>
      FillConsts(table, decls).failure.value.name !in FillConsts(table, decls).table
    decreases |decls|
  {
    if decls == [] {
      assert DeclaredBefore(decls, 0) == {};
    } else {
      var d := decls[0];
      ResolvesCons(table.Keys, decls);
      EvaluateSucceeds(table, d.value);
      if d.name !in table && Evaluate(table, d.value).Ok? {
        var next := table[d.name := Evaluate(table, d.value).value];
        FillConstsOutcome(next, decls[1..]);
        assert next.Keys == table.Keys + {d.name};
        var all := set k | 0 <= k < |decls| :: decls[k].name;
        var later := set k | 0 <= k < |decls[1..]| :: decls[1..][k].name;
        assert all == {d.name} + later by {
          forall x | x in all
            ensures x in {d.name} + later
          {
            var k :| 0 <= k < |decls| && decls[k].name == x;
            if k > 0 {
              assert decls[1..][k - 1].name == x;
            }
          }
          forall x | x in later
            ensures x in all
          {
            var k :| 0 <= k < |decls[1..]| && decls[1..][k].name == x;
            assert decls[k + 1].name == x;
          }
        }
      }
    }
  }

  /** Declaration `k` can be added on top of the names `known` and those
      declared before it: its name is new and its value refers only to
      names already there. */
  predicate Declarable(known: set<string>, decls: seq<ConstDecl>, k: nat)
    requires k < |decls|
  {
    var before := known + DeclaredBefore(decls, k);
    decls[k].name !in before && Refs(decls[k].value) <= before
  }

  /** The declarations resolve exactly when each of them is declarable. */
  lemma ResolvesEach(known: set<string>, decls: seq<ConstDecl>)
    ensures Resolves(known, decls) <==> forall k :: 0 <= k < |decls| ==> Declarable(known, decls, k)
  {
    if Resolves(known, decls) {
      forall k | 0 <= k < |decls|
        ensures Declarable(known, decls, k)
      {
        assert forall i :: 0 <= i < k ==> decls[i].name != decls[k].name;
      }
    }
    if forall k :: 0 <= k < |decls| ==> Declarable(known, decls, k) {
      forall k | 0 <= k < |decls|
        ensures decls[k].name !in known && Refs(decls[k].value) <= known + DeclaredBefore(decls, k)
      {
        assert Declarable(known, decls, k);
      }
      forall i, j | 0 <= i < j < |decls|
        ensures decls[i].name != decls[j].name
      {
        assert Declarable(known, decls, j);
        assert decls[i].name in DeclaredBefore(decls, j);
      }
    }
  }

  /** When the declaration loop stops early, it stops at the first
      declaration that is not declarable, with the error `eval_program`
      raises there: a redeclared name gives the duplicate error naming it,
      and otherwise the value names a constant that is neither known nor
      declared before it, and the error is the unknown-constant error for
      that name. */
  lemma {:induction false} FillConstsFailure(table: Table, decls: seq<ConstDecl>, k: nat)
    requires k < |decls|
    requires forall i :: 0 <= i < k ==> Declarable(table.Keys, decls, i)
    requires !Declarable(table.Keys, decls, k)
    ensures var before := table.Keys + DeclaredBefore(decls, k);
      var e := FillConsts(table, decls).failure;
      if decls[k].name in before then e == Some(DuplicateConst(decls[k].name))
      else e.Some? && e.value.UnknownConst? && e.value.name in Refs(decls[k].value) - before
    decreases k
  {
    var d := decls[0];
    EvaluateSucceeds(table, d.value);
    if k == 0 {
      assert DeclaredBefore(decls, 0) == {};
    } else {
      assert Declarable(table.Keys, decls, 0);
      assert DeclaredBefore(decls, 0) == {};
      var next := table[d.name := Evaluate(table, d.value).value];
      assert next.Keys == table.Keys + {d.name};
      forall i | 0 <= i < k - 1
        ensures Declarable(next.Keys, decls[1..], i)
      {
        DeclaredBeforeCons(table.Keys, decls, i);
        assert decls[1..][i] == decls[i + 1];
        assert Declarable(table.Keys, decls, i + 1);
      }
      DeclaredBeforeCons(table.Keys, decls, k - 1);
      assert decls[1..][k - 1] == decls[k];
      FillConstsFailure(next, decls[1..], k - 1);
    }
  }

  /** After a declaration loop that runs to the end, every declared constant
      holds the value of its declaration, evaluated over the table that the
      declarations before it built. */
  lemma {:induction false} FillConstsBinds(table: Table, decls: seq<ConstDecl>, k: nat)
    requires k < |decls| && FillConsts(table, decls).failure.None?
    ensures var before := FillConsts(table, decls[..k]);
      var after := FillConsts(table, decls).table;
      before.failure.None? && decls[k].name in after &&
      Evaluate(before.table, decls[k].value) == Ok(after[decls[k].name])
    decreases k
  {
    var d := decls[0];
    var next := table[d.name := Evaluate(table, d.value).value];
    assert FillConsts(table, decls) == FillConsts(next, decls[1..]);
    if k == 0 {
      assert decls[..0] == [];
      FillConstsOutcome(next, decls[1..]);
    } else {
      assert decls[..k][0] == d && decls[..k][1..] == decls[1..][..k - 1];
      assert decls[1..][k - 1] == decls[k];
      FillConstsBinds(next, decls[1..], k - 1);
    }
  }

  /** `eval_program` succeeds exactly when the declarations resolve and the
      root refers only to names known or declared. */
  lemma EvaluateProgramSucceeds(table: Table, p: Program)
    ensures EvaluateProgram(table, p).Ok? <==>
      Resolves(table.Keys, p.consts) && Refs(p.root) <= table.Keys + set k | 0 <= k < |p.consts| :: p.consts[k].name
  {
    FillConstsOutcome(table, p.consts);
    EvaluateSucceeds(FillConsts(table, p.consts).table, p.root);
  }
}
