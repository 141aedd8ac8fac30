/** Summary cells and Python's insertion-ordered `dict`, which decides the
    column order of the summary table and which of two same-named entries of a
    dict display survives. */
module Records {
  import opened Frames
  import opened Collections

  /** A filled summary cell. */
  datatype Stat =
    | Tag(tag: string)                   // DataType
    | Fraction(part: nat, whole: nat)    // MissingPercent: part / whole
    | Scalar(v: Value)                   // a statistic or metric result
    | Count(n: nat)                      // NumOfUnique
    | Ordered(values: seq<Value>)        // UniqueValues
    | Shares(counts: seq<nat>, whole: nat) // FracUnique: counts[i] / whole

  /** A summary cell; `None` is NaN. */
  type Cell = Option<Stat>

  /** A metric or statistic result as a cell: NaN stays NaN. */
  function Lift(v: Option<Value>): (c: Cell)
    ensures c.None? <==> v.None?
  {
    match v
    case None => None
    case Some(x) => Some(Scalar(x))
  }

  /** A Python `dict` with string keys: `keys` in insertion order. */
  datatype Dict = Dict(keys: seq<string>, values: map<string, Cell>)

  predicate WellFormed(d: Dict) {
    NoDuplicates(d.keys) && d.values.Keys == Elements(d.keys)
  }

  const EMPTY: Dict := Dict([], map[])

  /** `d[k] = v`: a new key goes last, an existing key keeps its place. */
  function Put(d: Dict, k: string, v: Cell): (r: Dict)
    requires WellFormed(d)
    ensures WellFormed(r)
  {
    if k in d.values then Dict(d.keys, d.values[k := v])
    else Dict(d.keys + [k], d.values[k := v])
  }

  function EntryKeys(entries: seq<(string, Cell)>): (r: seq<string>)
    ensures |r| == |entries|
    ensures forall i :: 0 <= i < |entries| ==> r[i] == entries[i].0
  {
    seq(|entries|, i requires 0 <= i < |entries| => entries[i].0)
  }

  /** The key order that writing keys `names` into a dict with key order
      `keys` produces; it does not depend on the values written. */
  function KeysAfter(keys: seq<string>, names: seq<string>): seq<string> {
    if names == [] then keys
    else
      var front := KeysAfter(keys, names[..|names| - 1]);
      if names[|names| - 1] in front then front else front + [names[|names| - 1]]
  }

  /** A dict display `{k1: v1, k2: v2, ...}` (with `**` unpacking) written
      into `d`, left to right. */
  function PutAll(d: Dict, entries: seq<(string, Cell)>): (r: Dict)
    requires WellFormed(d)
    ensures WellFormed(r)
    ensures r.keys == KeysAfter(d.keys, EntryKeys(entries))
  {
    if entries == [] then d
    else
      var front := entries[..|entries| - 1];
      assert EntryKeys(entries)[..|entries| - 1] == EntryKeys(front);
      var last := entries[|entries| - 1];
      Put(PutAll(d, front), last.0, last.1)
  }

  /** A dict display keeps every key once, in order of first appearance. */
  lemma {:induction false} KeysAfterEmpty(names: seq<string>)
    ensures KeysAfter([], names) == Distinct(names)
  {
    if names != [] {
      KeysAfterEmpty(names[..|names| - 1]);
    }
  }

  /** A dict display holds the keys it had and the keys it writes; keys not
      written keep their values. */
  lemma {:induction false} PutAllLookup(d: Dict, entries: seq<(string, Cell)>, k: string)
    requires WellFormed(d)
    ensures k in PutAll(d, entries).values <==> k in d.values || k in EntryKeys(entries)
    ensures k !in EntryKeys(entries) && k in d.values ==> PutAll(d, entries).values[k] == d.values[k]
  {
    if entries != [] {
      var front := entries[..|entries| - 1];
      PutAllLookup(d, front, k);
      assert EntryKeys(entries) == EntryKeys(front) + [entries[|entries| - 1].0];
    }
  }

  /** The last entry written under a key decides its value. */
  lemma {:induction false} PutAllLast(d: Dict, entries: seq<(string, Cell)>, i: nat)
    requires WellFormed(d)
    requires i < |entries| && entries[i].0 !in EntryKeys(entries[i + 1..])
    ensures entries[i].0 in PutAll(d, entries).values
    ensures PutAll(d, entries).values[entries[i].0] == entries[i].1
    decreases |entries|
  {
    var n := |entries| - 1;
    var front := entries[..n];
    if i < n {
      var later := EntryKeys(entries[i + 1..]);
      assert later[n - i - 1] == entries[n].0;
      assert EntryKeys(front[i + 1..]) == later[..n - i - 1];
      PutAllLast(d, front, i);
    }
  }

  lemma {:induction false} PutAllAppend(d: Dict, a: seq<(string, Cell)>, b: seq<(string, Cell)>)
    requires WellFormed(d)
    ensures PutAll(d, a + b) == PutAll(PutAll(d, a), b)
  {
    if b == [] {
      assert a + b == a;
    } else {
      assert (a + b)[..|a + b| - 1] == a + b[..|b| - 1];
      assert (a + b)[|a + b| - 1] == b[|b| - 1];
      PutAllAppend(d, a, b[..|b| - 1]);
    }
  }

  /** Writing entries that the dict already holds changes nothing. */
  lemma {:induction false} PutAllHeld(d: Dict, entries: seq<(string, Cell)>)
    requires WellFormed(d)
    requires forall i :: 0 <= i < |entries| ==> entries[i].0 in d.values && d.values[entries[i].0] == entries[i].1
    ensures PutAll(d, entries) == d
  {
    if entries != [] {
      PutAllHeld(d, entries[..|entries| - 1]);
      var last := entries[|entries| - 1];
      assert d.values[last.0 := last.1] == d.values;
    }
  }

  /** Unpacking the same dict twice, as `{**m, **m}` does, is the same as
      unpacking it once. */
  lemma RepeatedUnpackingHarmless(d: Dict, entries: seq<(string, Cell)>)
    requires WellFormed(d)
    requires NoDuplicates(EntryKeys(entries))
    ensures PutAll(PutAll(d, entries), entries) == PutAll(d, entries)
  {
    forall i | 0 <= i < |entries|
      ensures entries[i].0 in PutAll(d, entries).values
      ensures PutAll(d, entries).values[entries[i].0] == entries[i].1
    {
      assert entries[i].0 !in EntryKeys(entries[i + 1..]) by {
        var ks := EntryKeys(entries);
        assert EntryKeys(entries[i + 1..]) == ks[i + 1..];
      }
      PutAllLast(d, entries, i);
    }
    PutAllHeld(PutAll(d, entries), entries);
  }

  /** `d.get(k)`, reading an absent key as NaN. */
  function Lookup(d: Dict, k: string): (c: Cell)
    ensures k !in d.values ==> c.None?
  {
    if k in d.values then d.values[k] else None
  }

  lemma EntryKeysConcat(a: seq<(string, Cell)>, b: seq<(string, Cell)>)
    ensures EntryKeys(a + b) == EntryKeys(a) + EntryKeys(b)
  {
  }

  /** An entry that no later entry overwrites decides its key's value. */
  lemma LastWriteWins(d: Dict, a: seq<(string, Cell)>, b: seq<(string, Cell)>, c: seq<(string, Cell)>, j: nat)
    requires WellFormed(d)
    requires j < |b|
    requires b[j].0 !in EntryKeys(b[j + 1..]) && b[j].0 !in EntryKeys(c)
    ensures Lookup(PutAll(d, a + b + c), b[j].0) == b[j].1
  {
    PutAllAppend(d, a + b, c);
    PutAllLookup(PutAll(d, a + b), c, b[j].0);
    PutAllAppend(d, a, b);
    PutAllLast(PutAll(d, a), b, j);
  }
}
