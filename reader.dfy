/** A reader for the TOML subset the emitter prints, and the proof that it
    inverts the emitter: the text of `emit_value` reads back as the value
    it was printed from, and the document of `emit_root` reads back as the
    root table, one `key = value` line per key, in dict order.

    The reader accepts decimal integers, arrays `[a, b]`, inline tables
    `{ k = v, ... }` with bare keys, and documents made of `key = value`
    lines each ended by a line feed. As TOML demands, it refuses a table
    that defines a key twice. Unlike TOML, whose integers are signed 64-bit,
    it accepts integers of any size, so "reads back" is with respect to
    this reader: a constant of 2^63 or more is printed on a line that a
    conforming TOML parser must reject. */
module Reading {
  import opened Outcomes
  import opened SeqFacts
  import opened Chars
  import opened Values
  import opened Emission

  /** A bare TOML key made of ASCII letters and digits. Every identifier of
      the configuration language is one. */
  predicate BareKey(k: string)
  {
    |k| > 0 && forall i :: 0 <= i < |k| ==> IsAlnum(k[i])
  }

  /** The values whose every table has bare, distinct keys: the values the
      evaluator builds from a well-formed program. */
  predicate Readable(v: Value)
    decreases v, 1
  {
    match v
    case Int(_) => true
    case List(items) => ReadableItems(items)
    case Dict(entries) => DistinctKeys(entries) && ReadableEntries(entries)
  }

  predicate ReadableItems(items: seq<Value>)
    decreases items, 0
  {
    items == [] || (Readable(items[0]) && ReadableItems(items[1..]))
  }

  predicate ReadableEntries(entries: seq<Binding>)
    decreases entries, 0
  {
    entries == [] ||
    (BareKey(entries[0].key) && Readable(entries[0].value) && ReadableEntries(entries[1..]))
  }

  // ---------------------------------------------------------------------
  // Emission followed by a given text
  // ---------------------------------------------------------------------

  /** `EmitValue(v) + rest`, built so that each piece of the text is in
      front of what follows it. */
  function EmitThen(v: Value, rest: string): (s: string)
    ensures |s| > |rest|
    ensures IsDigit(s[0]) || s[0] == '[' || s[0] == '{'
    decreases v, 2
  {
    match v
    case Int(n) => DecimalString(n) + rest
    case List(items) => "[" + TextItemsThen(items, "]" + rest)
    case Dict(entries) => "{ " + PairsThen(entries, " }" + rest)
  }

  /** The items of an array, separated by `, `, then `tail`. */
  function TextItemsThen(items: seq<Value>, tail: string): (s: string)
    ensures |s| >= |tail|
    decreases items, 1
  {
    if items == [] then tail else EmitThen(items[0], TextMoreItemsThen(items[1..], tail))
  }

  function TextMoreItemsThen(items: seq<Value>, tail: string): (s: string)
    ensures |s| >= |tail|
    decreases items, 2
  {
    if items == [] then tail else ", " + TextItemsThen(items, tail)
  }

  /** The `k = v` pairs of an inline table, separated by `, `, then `tail`. */
  function PairsThen(entries: seq<Binding>, tail: string): (s: string)
    ensures |s| >= |tail|
    decreases entries, 1
  {
    if entries == [] then tail
    else entries[0].key + (" = " + EmitThen(entries[0].value, MorePairsThen(entries[1..], tail)))
  }

  function MorePairsThen(entries: seq<Binding>, tail: string): (s: string)
    ensures |s| >= |tail|
    decreases entries, 2
  {
    if entries == [] then tail else ", " + PairsThen(entries, tail)
  }

  /** The lines of a document: `k = v` and a line feed for each binding. */
  function LinesThen(entries: seq<Binding>): string
  {
    if entries == [] then ""
    else entries[0].key + (" = " + EmitThen(entries[0].value, "\n" + LinesThen(entries[1..])))
  }

  /** `EmitThen` is the emitted text followed by `rest`. */
  lemma {:induction false} EmitThenIsEmit(v: Value, rest: string)
    ensures EmitThen(v, rest) == EmitValue(v) + rest
    decreases v, 2
  {
    match v
    case Int(n) =>
    case List(items) =>
      ItemsThenIsJoin(items, "]" + rest);
      var j := Join(EmitItems(items), ", ");
      assert "[" + j + "]" + rest == "[" + (j + ("]" + rest));
    case Dict(entries) =>
      PairsThenIsJoin(entries, " }" + rest);
      var j := Join(EmitPairs(entries), ", ");
      assert "{ " + j + " }" + rest == "{ " + (j + (" }" + rest));
  }

  lemma {:induction false} ItemsThenIsJoin(items: seq<Value>, tail: string)
    ensures TextItemsThen(items, tail) == Join(EmitItems(items), ", ") + tail
    decreases items, 1
  {
    if items != [] {
      var parts := EmitItems(items);
      assert parts == [EmitValue(items[0])] + EmitItems(items[1..]);
      var more := TextMoreItemsThen(items[1..], tail);
      EmitThenIsEmit(items[0], more);
      ItemsThenIsJoin(items[1..], tail);
      JoinThen(parts, ", ", tail);
    }
  }

  lemma {:induction false} PairsThenIsJoin(entries: seq<Binding>, tail: string)
    ensures PairsThen(entries, tail) == Join(EmitPairs(entries), ", ") + tail
    decreases entries, 1
  {
    if entries != [] {
      var b := entries[0];
      var first := b.key + " = " + EmitValue(b.value);
      var parts := EmitPairs(entries);
      assert parts == [first] + EmitPairs(entries[1..]);
      var more := MorePairsThen(entries[1..], tail);
      EmitThenIsEmit(b.value, more);
      PairsThenIsJoin(entries[1..], tail);
      JoinThen(parts, ", ", tail);
      assert b.key + (" = " + (EmitValue(b.value) + more)) == first + more;
    }
  }

  // ---------------------------------------------------------------------
  // The reader
  // ---------------------------------------------------------------------

  predicate StartsWith(s: string, p: string)
  {
    |p| <= |s| && s[..|p|] == p
  }

  /** The length of the run of decimal digits at the start of `s`. */
  function DigitsEnd(s: string): (j: nat)
    ensures j <= |s|
    ensures s != [] && IsDigit(s[0]) ==> j > 0
  {
    if s != [] && IsDigit(s[0]) then 1 + DigitsEnd(s[1..]) else 0
  }

  /** The length of the run of letters and digits at the start of `s`. */
  function KeyEnd(s: string): (j: nat)
    ensures j <= |s|
  {
    if s != [] && IsAlnum(s[0]) then 1 + KeyEnd(s[1..]) else 0
  }

  /** Reads one value at the start of `s`; returns it and the text after it. */
  function ReadText(s: string): (r: Option<(Value, string)>)
    ensures r.Some? ==> |r.value.1| < |s|
    decreases |s|, 1
  {
    if s == [] then None
    else if IsDigit(s[0]) then
      var j := DigitsEnd(s);
      Some((Int(ValueInBase(s[..j], 10)), s[j..]))
    else if s[0] == '[' then ReadItems(s[1..])
    else if StartsWith(s, "{ ") then ReadPairs(s[2..])
    else None
  }

  /** An array after its `[`. */
  function ReadItems(s: string): (r: Option<(Value, string)>)
    ensures r.Some? ==> |r.value.1| < |s|
    decreases |s|, 2
  {
    if StartsWith(s, "]") then Some((List([]), s[1..]))
    else
      match ReadText(s)
      case None => None
      case Some((v, rest)) => ReadMoreItems(rest, [v])
  }

  /** The rest of an array whose items so far are `done`. */
  function ReadMoreItems(s: string, done: seq<Value>): (r: Option<(Value, string)>)
    ensures r.Some? ==> |r.value.1| < |s|
    decreases |s|, 0
  {
    if StartsWith(s, ", ") then
      match ReadText(s[2..])
      case None => None
      case Some((v, rest)) => ReadMoreItems(rest, done + [v])
    else if StartsWith(s, "]") then Some((List(done), s[1..]))
    else None
  }

  /** One `key = value` pair. */
  function ReadPair(s: string): (r: Option<(Binding, string)>)
    ensures r.Some? ==> |r.value.1| < |s|
    decreases |s|, 0
  {
    var j := KeyEnd(s);
    if j > 0 && StartsWith(s[j..], " = ") then
      match ReadText(s[j + 3..])
      case None => None
      case Some((v, rest)) => Some((Binding(s[..j], v), rest))
    else None
  }

  /** An inline table after its `{ `. */
  function ReadPairs(s: string): (r: Option<(Value, string)>)
    ensures r.Some? ==> |r.value.1| < |s|
    decreases |s|, 2
  {
    if StartsWith(s, " }") then Some((Dict([]), s[2..]))
    else
      match ReadPair(s)
      case None => None
      case Some((b, rest)) => ReadMorePairs(rest, [b])
  }

  /** The rest of an inline table whose pairs so far are `done`; a key
      defined twice is refused. */
  function ReadMorePairs(s: string, done: seq<Binding>): (r: Option<(Value, string)>)
    ensures r.Some? ==> |r.value.1| < |s|
    decreases |s|, 0
  {
    if StartsWith(s, ", ") then
      match ReadPair(s[2..])
      case None => None
      case Some((b, rest)) =>
        if b.key in KeysOf(done) then None else ReadMorePairs(rest, done + [b])
    else if StartsWith(s, " }") then Some((Dict(done), s[2..]))
    else None
  }

  /** The `key = value` lines of a document, each ended by a line feed. */
  function ReadLines(s: string, done: seq<Binding>): (r: Option<seq<Binding>>)
    decreases |s|
  {
    if s == [] then Some(done)
    else
      match ReadPair(s)
      case None => None
      case Some((b, rest)) =>
        if StartsWith(rest, "\n") && b.key !in KeysOf(done) then ReadLines(rest[1..], done + [b])
        else None
  }

  /** A whole document, read as its root table. */
  function ReadDocument(s: string): (r: Option<Value>)
    ensures r.Some? ==> r.value.Dict?
  {
    match ReadLines(s, [])
    case None => None
    case Some(entries) => Some(Dict(entries))
  }

  // ---------------------------------------------------------------------
  // Round trips
  // ---------------------------------------------------------------------

  /** A text that cannot continue a number. */
  predicate Stops(rest: string)
  {
    rest == [] || !IsDigit(rest[0])
  }

  lemma {:induction false} DigitsEndOf(d: string, rest: string)
    requires forall k :: 0 <= k < |d| ==> IsDigit(d[k])
    requires Stops(rest)
    ensures DigitsEnd(d + rest) == |d|
    decreases |d|
  {
    if d != [] {
      assert (d + rest)[1..] == d[1..] + rest;
      DigitsEndOf(d[1..], rest);
    }
  }

  lemma {:induction false} KeyEndOf(k: string, rest: string)
    requires forall i :: 0 <= i < |k| ==> IsAlnum(k[i])
    requires rest != [] && rest[0] == ' '
    ensures KeyEnd(k + rest) == |k|
    decreases |k|
  {
    if k != [] {
      assert (k + rest)[1..] == k[1..] + rest;
      KeyEndOf(k[1..], rest);
    }
  }

  /** Reading the text of a value, whatever follows it (unless a digit),
      gives the value back and stops right after its text. */
  lemma {:induction false} ReadTextEmit(v: Value, rest: string)
    requires Readable(v) && Stops(rest)
    ensures ReadText(EmitThen(v, rest)) == Some((v, rest))
    decreases v, 2
  {
    match v
    case Int(n) =>
      var d := DecimalString(n);
      DigitsEndOf(d, rest);
      DecimalStringValue(n);
      assert (d + rest)[..|d|] == d;
      assert (d + rest)[|d|..] == rest;
    case List(items) =>
      var s := EmitThen(v, rest);
      assert s[1..] == TextItemsThen(items, "]" + rest);
      ReadItemsEmit(items, rest);
    case Dict(entries) =>
      var s := EmitThen(v, rest);
      assert s[..2] == "{ " && s[2..] == PairsThen(entries, " }" + rest);
      ReadPairsEmit(entries, rest);
  }

  /** `p + t` starts with `p`, and `t` follows it. */
  lemma Prefixed(p: string, t: string)
    ensures StartsWith(p + t, p) && (p + t)[|p|..] == t
  {
    assert (p + t)[..|p|] == p;
  }

  /** A text whose first character differs from that of `p` does not start with `p`. */
  lemma NotPrefixed(s: string, p: string)
    requires |p| > 0 && s != [] && s[0] != p[0]
    ensures !StartsWith(s, p)
  {
    if |p| <= |s| {
      assert s[..|p|][0] == s[0];
    }
  }

  lemma {:induction false} ReadItemsEmit(items: seq<Value>, rest: string)
    requires ReadableItems(items) && Stops(rest)
    ensures ReadItems(TextItemsThen(items, "]" + rest)) == Some((List(items), rest))
    decreases items, 1
  {
    if items == [] {
      Prefixed("]", rest);
    } else {
      var more := TextMoreItemsThen(items[1..], "]" + rest);
      var s := TextItemsThen(items, "]" + rest);
      assert s == EmitThen(items[0], more);
      NotPrefixed(s, "]");
      ReadTextEmit(items[0], more);
      ReadMoreItemsEmit([items[0]], items[1..], rest);
      ShiftHead([], items);
    }
  }

  lemma {:induction false} ReadMoreItemsEmit(done: seq<Value>, items: seq<Value>, rest: string)
    requires ReadableItems(items) && Stops(rest)
    ensures ReadMoreItems(TextMoreItemsThen(items, "]" + rest), done) == Some((List(done + items), rest))
    decreases items, 0
  {
    if items == [] {
      Prefixed("]", rest);
      NotPrefixed("]" + rest, ", ");
      assert done + items == done;
    } else {
      var more := TextMoreItemsThen(items[1..], "]" + rest);
      var s := TextMoreItemsThen(items, "]" + rest);
      Prefixed(", ", TextItemsThen(items, "]" + rest));
      assert s[2..] == EmitThen(items[0], more);
      ReadTextEmit(items[0], more);
      ReadMoreItemsEmit(done + [items[0]], items[1..], rest);
      ShiftHead(done, items);
    }
  }

  /** Reading a `key = value` pair gives the binding back. */
  lemma {:induction false} ReadPairEmit(b: Binding, tail: string)
    requires BareKey(b.key) && Readable(b.value) && Stops(tail)
    ensures ReadPair(b.key + (" = " + EmitThen(b.value, tail))) == Some((b, tail))
  {
    var after := " = " + EmitThen(b.value, tail);
    var s := b.key + after;
    KeyEndOf(b.key, after);
    assert s[..|b.key|] == b.key && s[|b.key|..] == after;
    assert after[..3] == " = " && after[3..] == EmitThen(b.value, tail);
    ReadTextEmit(b.value, tail);
  }

  lemma {:induction false} ReadPairsEmit(entries: seq<Binding>, rest: string)
    requires DistinctKeys(entries) && ReadableEntries(entries) && Stops(rest)
    ensures ReadPairs(PairsThen(entries, " }" + rest)) == Some((Dict(entries), rest))
    decreases entries, 1
  {
    if entries == [] {
      Prefixed(" }", rest);
    } else {
      var more := MorePairsThen(entries[1..], " }" + rest);
      var s := PairsThen(entries, " }" + rest);
      assert s == entries[0].key + (" = " + EmitThen(entries[0].value, more));
      NotPrefixed(s, " }");
      ReadPairEmit(entries[0], more);
      ShiftHead([], entries);
      ReadMorePairsEmit([entries[0]], entries[1..], rest);
    }
  }

  /** The key of `entries[0]` is not among the keys of `done` when the keys
      of `done + entries` are distinct. */
  lemma FreshKey(done: seq<Binding>, entries: seq<Binding>)
    requires entries != [] && DistinctKeys(done + entries)
    ensures entries[0].key !in KeysOf(done)
    ensures DistinctKeys((done + [entries[0]]) + entries[1..])
  {
    var all := done + entries;
    forall i | 0 <= i < |done|
      ensures KeysOf(done)[i] != entries[0].key
    {
      KeyAt(done, i);
      assert all[i] == done[i] && all[|done|] == entries[0];
    }
    ShiftHead(done, entries);
  }

  lemma {:induction false} ReadMorePairsEmit(done: seq<Binding>, entries: seq<Binding>, rest: string)
    requires DistinctKeys(done + entries) && ReadableEntries(entries) && Stops(rest)
    ensures ReadMorePairs(MorePairsThen(entries, " }" + rest), done) == Some((Dict(done + entries), rest))
    decreases entries, 0
  {
    if entries == [] {
      Prefixed(" }", rest);
      NotPrefixed(" }" + rest, ", ");
      assert done + entries == done;
    } else {
      var more := MorePairsThen(entries[1..], " }" + rest);
      var s := MorePairsThen(entries, " }" + rest);
      Prefixed(", ", PairsThen(entries, " }" + rest));
      ReadPairEmit(entries[0], more);
      FreshKey(done, entries);
      ReadMorePairsEmit(done + [entries[0]], entries[1..], rest);
      ShiftHead(done, entries);
    }
  }

  /** `emit_value` round trip: the printed text of a value whose tables
      have bare, distinct keys reads back as that value, with nothing left. */
  lemma EmitValueReadsBack(v: Value)
    requires Readable(v)
    ensures ReadText(EmitValue(v)) == Some((v, ""))
  {
    EmitThenIsEmit(v, "");
    assert EmitValue(v) + "" == EmitValue(v);
    ReadTextEmit(v, "");
  }

  /** The document lines, written out, are what `emit_root` prints for
      the table. */
  lemma {:induction false} LinesThenIsRoot(entries: seq<Binding>)
    ensures LinesThen(entries) == EmitRoot(Dict(entries))
  {
    if entries != [] {
      var b := entries[0];
      var r := entries[1..];
      var tail := "\n" + LinesThen(r);
      EmitThenIsEmit(b.value, tail);
      RootLineIsPair(b);
      LinesThenIsRoot(r);
      EmitRootCons(entries);
      assert b.key + (" = " + (EmitValue(b.value) + tail)) == RootLine(b) + tail;
    }
  }

  lemma {:induction false} ReadLinesEmit(done: seq<Binding>, entries: seq<Binding>)
    requires DistinctKeys(done + entries) && ReadableEntries(entries)
    ensures ReadLines(LinesThen(entries), done) == Some(done + entries)
    decreases entries
  {
    if entries == [] {
      assert done + entries == done;
    } else {
      var b := entries[0];
      var tail := "\n" + LinesThen(entries[1..]);
      ReadPairEmit(b, tail);
      Prefixed("\n", LinesThen(entries[1..]));
      FreshKey(done, entries);
      ReadLinesEmit(done + [b], entries[1..]);
      ShiftHead(done, entries);
    }
  }

  /** `emit_root` round trip: the document printed for a value whose
      tables have bare, distinct keys reads back as its root table, the
      value itself when it is a dict and `{ value = v }` otherwise. */
  lemma EmitRootReadsBack(v: Value)
    requires Readable(v)
    ensures ReadDocument(EmitRoot(v)) == Some(Dict(RootTable(v)))
  {
    var t := RootTable(v);
    if !v.Dict? {
      assert BareKey("value") by {
        assert "value"[0] == 'v' && "value"[1] == 'a' && "value"[2] == 'l';
        assert "value"[3] == 'u' && "value"[4] == 'e';
      }
      assert ReadableEntries(t) by {
        assert t[1..] == [];
      }
    }
    EmitRootIsTable(v);
    LinesThenIsRoot(t);
    ReadLinesEmit([], t);
    assert [] + t == t;
  }
}
