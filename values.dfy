/** The value tree the evaluator produces: Python ints, lists and dicts.

    A Python `dict` is modelled as the list of its bindings in insertion
    order; `Put` is `d[key] = value`, which overwrites the value of an
    existing key where it stands and appends a new key at the end. */
module Values {
  import opened Outcomes

  datatype Value =
    | Int(n: nat)
    | List(items: seq<Value>)
    | Dict(entries: seq<Binding>)

  datatype Binding = Binding(key: string, value: Value)

  /** The keys of a dict, in order. */
  function KeysOf(d: seq<Binding>): (ks: seq<string>)
    ensures |ks| == |d|
  {
    if d == [] then [] else [d[0].key] + KeysOf(d[1..])
  }

  lemma {:induction false} KeyAt(d: seq<Binding>, k: nat)
    requires k < |d|
    ensures KeysOf(d)[k] == d[k].key
  {
    if k > 0 {
      KeyAt(d[1..], k - 1);
    }
  }

  /** No key occurs twice, as in every Python dict. */
  predicate DistinctKeys(d: seq<Binding>)
  {
    forall i, j :: 0 <= i < j < |d| ==> d[i].key != d[j].key
  }

  /** `d.get(key)`. */
  function Lookup(d: seq<Binding>, key: string): (r: Option<Value>)
    ensures r.None? <==> key !in KeysOf(d)
  {
    if d == [] then None
    else if d[0].key == key then Some(d[0].value)
    else Lookup(d[1..], key)
  }

  /** `d[key] = value`. */
  function Put(d: seq<Binding>, key: string, value: Value): (r: seq<Binding>)
  {
    if d == [] then [Binding(key, value)]
    else if d[0].key == key then [Binding(key, value)] + d[1..]
    else [d[0]] + Put(d[1..], key, value)
  }

  /** An existing key keeps its place; a new key goes to the end. */
  lemma {:induction false} PutKeys(d: seq<Binding>, key: string, value: Value)
    ensures key in KeysOf(d) ==> KeysOf(Put(d, key, value)) == KeysOf(d)
    ensures key !in KeysOf(d) ==> KeysOf(Put(d, key, value)) == KeysOf(d) + [key]
  {
    if d != [] && d[0].key != key {
      PutKeys(d[1..], key, value);
      assert ([d[0].key] + KeysOf(d[1..])) + [key] == [d[0].key] + (KeysOf(d[1..]) + [key]);
    }
  }

  /** After `d[key] = value`, `key` is bound to `value` and every other key
      to what it was bound to before. */
  lemma {:induction false} PutLookup(d: seq<Binding>, key: string, value: Value, other: string)
    ensures Lookup(Put(d, key, value), other) == if other == key then Some(value) else Lookup(d, other)
  {
    if d != [] && d[0].key != key {
      PutLookup(d[1..], key, value, other);
    }
  }

  /** `d[key] = value` keeps the keys of a dict distinct. */
  lemma PutDistinct(d: seq<Binding>, key: string, value: Value)
    requires DistinctKeys(d)
    ensures DistinctKeys(Put(d, key, value))
  {
    PutKeys(d, key, value);
    var r := Put(d, key, value);
    forall i, j | 0 <= i < j < |r|
      ensures r[i].key != r[j].key
    {
      KeyAt(r, i);
      KeyAt(r, j);
      KeyAt(d, i);
      if j < |d| {
        KeyAt(d, j);
      }
    }
  }

  /** The keys of a dict that starts as keys `seen` after assigning to the
      keys `ks` in turn. */
  function AddKeys(seen: seq<string>, ks: seq<string>): seq<string>
    decreases |ks|
  {
    if ks == [] then seen
    else AddKeys(if ks[0] in seen then seen else seen + [ks[0]], ks[1..])
  }

  /** The position of the first `x` in `ks`; `|ks|` when there is none. */
  function FirstIndex(ks: seq<string>, x: string): (i: nat)
    ensures i <= |ks|
    ensures i < |ks| <==> x in ks
    ensures i < |ks| ==> ks[i] == x
  {
    if ks == [] then 0 else if ks[0] == x then 0 else 1 + FirstIndex(ks[1..], x)
  }

  predicate NoDuplicates(ks: seq<string>)
  {
    forall i, j :: 0 <= i < j < |ks| ==> ks[i] != ks[j]
  }

  /** `AddKeys(seen, ks)` keeps `seen` in front and then lists, without
      repetition and ordered by first occurrence, the keys of `ks` that are
      not in `seen`. */
  lemma {:induction false} AddKeysOrder(seen: seq<string>, ks: seq<string>)
    requires NoDuplicates(seen)
    ensures |AddKeys(seen, ks)| >= |seen| && AddKeys(seen, ks)[..|seen|] == seen
    ensures NoDuplicates(AddKeys(seen, ks))
    ensures forall x :: x in AddKeys(seen, ks) <==> x in seen || x in ks
    ensures forall i :: |seen| <= i < |AddKeys(seen, ks)| ==> AddKeys(seen, ks)[i] !in seen
    ensures forall i, j :: |seen| <= i < j < |AddKeys(seen, ks)| ==>
      FirstIndex(ks, AddKeys(seen, ks)[i]) < FirstIndex(ks, AddKeys(seen, ks)[j])
    decreases |ks|
  {
    if ks != [] {
      var x := ks[0];
      var next := if x in seen then seen else seen + [x];
      var r := AddKeys(next, ks[1..]);
      assert r == AddKeys(seen, ks);
      AddKeysOrder(next, ks[1..]);
      assert r[..|seen|] == r[..|next|][..|seen|];
      forall y | y in r
        ensures y in seen || y in ks
      {
        if y in ks[1..] {
          assert y == ks[1..][FirstIndex(ks[1..], y)];
        }
      }
      forall y | y in ks
        ensures y in r
      {
        if y != x {
          assert y in ks[1..] by {
            assert ks[FirstIndex(ks, y)] == y;
            assert ks[1..][FirstIndex(ks, y) - 1] == y;
          }
        } else if x !in seen {
          assert r[|seen|] == r[..|next|][|seen|];
        }
      }
      forall i, j | |seen| <= i < j < |r|
        ensures FirstIndex(ks, r[i]) < FirstIndex(ks, r[j])
      {
        if x in seen {
          assert r[i] != x && r[j] != x;
        } else if i == |seen| {
          assert r[i] == r[..|next|][|seen|];
          assert r[j] != x;
        } else {
          assert r[i] != x && r[j] != x;
        }
      }
      forall i | |seen| <= i < |r|
        ensures r[i] !in seen
      {
        if x !in seen && i == |seen| {
          assert r[i] == r[..|next|][|seen|];
        }
      }
    }
  }
}
