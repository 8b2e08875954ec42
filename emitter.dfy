/** The TOML emitter: `emit_value`, `emit_inline_table` and `emit_root`
    print the value tree the evaluator produced. Ints are printed in
    decimal, lists as `[a, b]`, dicts as inline tables `{ k = v, ... }`, and
    the root as one `key = value` line per key of a root dict, or as the
    single line `value = ...` for any other root. */
module Emission {
  import opened Chars
  import opened Values

  /** `sep.join(parts)`. */
  function Join(parts: seq<string>, sep: string): string
    decreases |parts|
  {
    if |parts| == 0 then ""
    else if |parts| == 1 then parts[0]
    else parts[0] + sep + Join(parts[1..], sep)
  }

  /** The characters an emitted value ends with. */
  predicate Closing(c: char)
  {
    IsDigit(c) || c == ']' || c == '}'
  }

  /** `emit_value`. */
  function EmitValue(v: Value): string
    decreases v, 2
  {
    match v
    case Int(n) => DecimalString(n)
    case List(items) => "[" + Join(EmitItems(items), ", ") + "]"
    case Dict(entries) => EmitInlineTable(entries)
  }

  /** `emit_value(x) for x in v`. */
  function EmitItems(items: seq<Value>): (parts: seq<string>)
    ensures |parts| == |items|
    decreases items, 0
  {
    if items == [] then [] else [EmitValue(items[0])] + EmitItems(items[1..])
  }

  /** `emit_inline_table`. */
  function EmitInlineTable(entries: seq<Binding>): string
    decreases entries, 1
  {
    "{ " + Join(EmitPairs(entries), ", ") + " }"
  }

  /** The `k = v` parts of `emit_inline_table`, in dict order. */
  function EmitPairs(entries: seq<Binding>): (parts: seq<string>)
    ensures |parts| == |entries|
    decreases entries, 0
  {
    if entries == [] then []
    else [entries[0].key + " = " + EmitValue(entries[0].value)] + EmitPairs(entries[1..])
  }

  /** One line of `emit_root` for a root dict: a dict value goes through
      `emit_inline_table`, any other through `emit_value`. */
  function RootLine(b: Binding): string
  {
    b.key + " = " + (if b.value.Dict? then EmitInlineTable(b.value.entries) else EmitValue(b.value))
  }

  function RootLines(entries: seq<Binding>): (lines: seq<string>)
    ensures |lines| == |entries|
  {
    if entries == [] then [] else [RootLine(entries[0])] + RootLines(entries[1..])
  }

  /** `emit_root`. */
  function EmitRoot(v: Value): string
  {
    match v
    case Dict(entries) =>
      var lines := RootLines(entries);
      if |lines| > 0 then Join(lines, "\n") + "\n" else ""
    case _ => "value = " + EmitValue(v) + "\n"
  }

  /** The table `emit_root` prints: a root dict as it is, and any other
      root as the table whose one key `value` holds it. */
  function RootTable(v: Value): seq<Binding>
  {
    if v.Dict? then v.entries else [Binding("value", v)]
  }

  /** `emit_root` prints a dict value and any other value the same way:
      `emit_value` of a dict is `emit_inline_table`. */
  lemma RootLineIsPair(b: Binding)
    ensures RootLine(b) == b.key + " = " + EmitValue(b.value)
  {
  }

  /** A root that is not a dict is printed exactly as the table
      `{ value = root }` would be, so TOML always receives a table. */
  lemma EmitRootIsTable(v: Value)
    ensures EmitRoot(v) == EmitRoot(Dict(RootTable(v)))
  {
    if !v.Dict? {
      var b := Binding("value", v);
      assert RootLines([b]) == [RootLine(b)];
      RootLineIsPair(b);
    }
  }

  /** The document of a root dict is its first line, a line feed, and the
      document of the remaining keys: each key gets one line, ended by one
      line feed. */
  lemma EmitRootCons(entries: seq<Binding>)
    requires entries != []
    ensures EmitRoot(Dict(entries)) == RootLine(entries[0]) + ("\n" + EmitRoot(Dict(entries[1..])))
  {
    var r := entries[1..];
    assert RootLines(entries)[1..] == RootLines(r);
    JoinThen(RootLines(entries), "\n", "\n");
  }

  /** `sep.join(parts)` followed by `tail` is the first part, then either
      `tail` alone or the separator, the join of the other parts and `tail`. */
  lemma JoinThen(parts: seq<string>, sep: string, tail: string)
    requires parts != []
    ensures Join(parts, sep) + tail ==
      parts[0] + (if |parts| == 1 then tail else sep + (Join(parts[1..], sep) + tail))
  {
    if |parts| > 1 {
      var j := Join(parts[1..], sep);
      assert parts[0] + sep + j + tail == parts[0] + (sep + (j + tail));
    }
  }

  /** `sep.join(parts)` ends with the last part. */
  lemma {:induction false} JoinEndsWithLast(parts: seq<string>, sep: string)
    requires |parts| > 0
    ensures var last := parts[|parts| - 1]; var s := Join(parts, sep);
      |s| >= |last| && s[|s| - |last|..] == last
    decreases |parts|
  {
    if |parts| > 1 {
      JoinEndsWithLast(parts[1..], sep);
      assert parts[1..][|parts| - 2] == parts[|parts| - 1];
    }
  }

  lemma {:induction false} RootLinesAt(entries: seq<Binding>, k: nat)
    requires k < |entries|
    ensures RootLines(entries)[k] == RootLine(entries[k])
    decreases k
  {
    var rest := RootLines(entries[1..]);
    assert RootLines(entries) == [RootLine(entries[0])] + rest;
    if k > 0 {
      RootLinesAt(entries[1..], k - 1);
      assert entries[1..][k - 1] == entries[k];
    }
  }

  /** Every printed value ends with a digit, `]` or `}`. */
  lemma EmitValueEnds(v: Value)
    ensures var s := EmitValue(v); |s| > 0 && Closing(s[|s| - 1])
  {
    match v
    case Int(n) =>
    case List(items) =>
      var front := "[" + Join(EmitItems(items), ", ");
      assert EmitValue(v) == front + "]";
      assert (front + "]")[|front|] == ']';
    case Dict(entries) =>
      var front := "{ " + Join(EmitPairs(entries), ", ");
      assert EmitValue(v) == EmitInlineTable(entries) == front + " }";
      assert (front + " }")[|front| + 1] == '}';
  }

  /** A text that ends with `tail` ends with the last character of `tail`. */
  lemma LastChar(s: string, tail: string)
    requires 0 < |tail| <= |s| && s[|s| - |tail|..] == tail
    ensures s[|s| - 1] == tail[|tail| - 1]
  {
    assert s[|s| - 1] == s[|s| - |tail|..][|tail| - 1];
  }

  /** A line of `emit_root` ends with the last character of its value. */
  lemma RootLineEnds(b: Binding)
    ensures var l := RootLine(b); |l| > 0 && Closing(l[|l| - 1])
  {
    var text := EmitValue(b.value);
    EmitValueEnds(b.value);
    RootLineIsPair(b);
    LastChar(RootLine(b), text);
  }

  /** The lines of a non-empty root dict, joined, end as the last line does. */
  lemma JoinedLinesEnd(entries: seq<Binding>)
    requires entries != []
    ensures var j := Join(RootLines(entries), "\n"); |j| > 0 && Closing(j[|j| - 1])
  {
    var lines := RootLines(entries);
    var b := entries[|entries| - 1];
    RootLineEnds(b);
    RootLinesAt(entries, |entries| - 1);
    JoinEndsWithLast(lines, "\n");
    LastChar(Join(lines, "\n"), RootLine(b));
  }

  /** The document of a non-empty root dict ends with the last character
      of its last value and one line feed. */
  lemma DictDocumentEnds(entries: seq<Binding>)
    requires entries != []
    ensures var s := EmitRoot(Dict(entries));
      |s| >= 2 && s[|s| - 1] == '\n' && Closing(s[|s| - 2])
  {
    var j := Join(RootLines(entries), "\n");
    JoinedLinesEnd(entries);
    assert EmitRoot(Dict(entries)) == j + "\n";
    assert (j + "\n")[|j| - 1] == j[|j| - 1];
  }

  /** The shape of the document `emit_root` prints: nothing at all for an
      empty root dict and only then; otherwise lines ended by one line feed,
      the last line ending with the last character of a value. */
  lemma EmitRootShape(v: Value)
    ensures EmitRoot(v) == "" <==> v == Dict([])
    ensures var s := EmitRoot(v);
      s != "" ==> |s| >= 2 && s[|s| - 1] == '\n' && Closing(s[|s| - 2])
  {
    if !v.Dict? {
      var text := EmitValue(v);
      EmitValueEnds(v);
      assert EmitRoot(v) == ("value = " + text) + "\n";
      LastChar("value = " + text, text);
    } else if v.entries != [] {
      DictDocumentEnds(v.entries);
    }
  }
}
