/**
 * Python dictionaries with string keys. A `dict` remembers insertion order:
 * assigning to an existing key keeps its position, a new key goes last.
 */
module Dicts {
  import opened Results
  import opened Seqs

  datatype DictRep<V> = DictRep(keys: seq<string>, entries: map<string, V>)

  /** The keys in insertion order, each once, and exactly the keys of `entries`. */
  type Dict<V> = d: DictRep<V> | NoDuplicates(d.keys) && forall k :: k in d.keys <==> k in d.entries
    witness DictRep([], map[])

  function Empty<V>(): (d: Dict<V>)
    ensures d.keys == [] && d.entries == map[]
  {
    DictRep([], map[])
  }

  /** `d.get(k)` */
  function Get<V>(d: Dict<V>, k: string): (r: Option<V>)
    ensures r.Some? <==> k in d.keys
    ensures r.Some? ==> r.value == d.entries[k]
  {
    if k in d.entries then Some(d.entries[k]) else None
  }

  /** `d[k] = v` */
  function Put<V>(d: Dict<V>, k: string, v: V): (r: Dict<V>)
    ensures r.entries == d.entries[k := v]
    ensures k in d.keys ==> r.keys == d.keys
    ensures k !in d.keys ==> r.keys == d.keys + [k]
  {
    if k in d.entries then DictRep(d.keys, d.entries[k := v])
    else DictRep(d.keys + [k], d.entries[k := v])
  }

  /** The keys of `keys` that `m` lacks, in their order. */
  function Missing<V>(keys: seq<string>, m: map<string, V>): (r: seq<string>)
    ensures forall k :: k in r <==> k in keys && k !in m
  {
    if keys == [] then []
    else if keys[0] in m then Missing(keys[1..], m)
    else [keys[0]] + Missing(keys[1..], m)
  }

  lemma {:induction false} MissingDistinct<V>(keys: seq<string>, m: map<string, V>)
    requires NoDuplicates(keys)
    ensures NoDuplicates(Missing(keys, m))
  {
    if keys != [] {
      MissingDistinct(keys[1..], m);
      if keys[0] !in m {
        assert keys[0] !in keys[1..];
        DisjointConcat([keys[0]], Missing(keys[1..], m));
      }
    }
  }

  /** The keys of `e` that `d` lacks, in `e`'s order. */
  function NewKeys<V>(d: Dict<V>, e: Dict<V>): (r: seq<string>)
    ensures NoDuplicates(r)
    ensures forall k :: k in r <==> k in e.keys && k !in d.keys
  {
    MissingDistinct(e.keys, d.entries);
    Missing(e.keys, d.entries)
  }

  /** Appending the new keys of `e` to those of `d` gives the keys of the merged entries, each once. */
  lemma UpdateRepValid<V>(d: Dict<V>, e: Dict<V>)
    ensures NoDuplicates(d.keys + NewKeys(d, e))
    ensures forall k :: k in d.keys + NewKeys(d, e) <==> k in d.entries + e.entries
  {
    DisjointConcat(d.keys, NewKeys(d, e));
  }

  /** `d.update(e)`: the entries of `e` override those of `d`; new keys follow in `e`'s order. */
  function Update<V>(d: Dict<V>, e: Dict<V>): (r: Dict<V>)
    ensures r.entries == d.entries + e.entries
    ensures forall k :: k in r.keys <==> k in d.keys || k in e.keys
    ensures |d.keys| <= |r.keys| && forall i :: 0 <= i < |d.keys| ==> r.keys[i] == d.keys[i]
  {
    UpdateRepValid(d, e);
    DictRep(d.keys + NewKeys(d, e), d.entries + e.entries)
  }

  /** The entries left after updating an empty dict with `ds` from the last to the first: earlier dicts win. */
  function FirstWins<V>(ds: seq<Dict<V>>): map<string, V>
    decreases |ds|
  {
    if ds == [] then map[] else FirstWins(ds[1..]) + ds[0].entries
  }

  /** The entries left after updating an empty dict with `ds` from the first to the last: later dicts win. */
  function LastWins<V>(ds: seq<Dict<V>>): map<string, V>
    decreases |ds|
  {
    if ds == [] then map[] else LastWins(ds[..|ds| - 1]) + ds[|ds| - 1].entries
  }

  /** A key survives a merge iff one of the dicts holds it. */
  lemma {:induction false} FirstWinsKeys<V>(ds: seq<Dict<V>>, k: string)
    ensures k in FirstWins(ds) <==> exists i :: 0 <= i < |ds| && k in ds[i].entries
    decreases |ds|
  {
    if ds != [] {
      FirstWinsKeys(ds[1..], k);
      if k in FirstWins(ds[1..]) {
        var i :| 0 <= i < |ds| - 1 && k in ds[1..][i].entries;
        assert k in ds[i + 1].entries;
      }
      if exists i :: 0 <= i < |ds| && k in ds[i].entries {
        var i :| 0 <= i < |ds| && k in ds[i].entries;
        if i > 0 {
          assert k in ds[1..][i - 1].entries;
        }
      }
    }
  }

  /** The value kept for a key comes from the first dict that holds it. */
  lemma {:induction false} FirstWinsEarliest<V>(ds: seq<Dict<V>>, i: nat, k: string)
    requires i < |ds| && k in ds[i].entries
    requires forall j :: 0 <= j < i ==> k !in ds[j].entries
    ensures k in FirstWins(ds) && FirstWins(ds)[k] == ds[i].entries[k]
    decreases i
  {
    if i > 0 {
      FirstWinsEarliest(ds[1..], i - 1, k);
    }
  }

  lemma {:induction false} LastWinsKeys<V>(ds: seq<Dict<V>>, k: string)
    ensures k in LastWins(ds) <==> exists i :: 0 <= i < |ds| && k in ds[i].entries
    decreases |ds|
  {
    if ds != [] {
      var init := ds[..|ds| - 1];
      LastWinsKeys(init, k);
      if k in LastWins(init) {
        var i :| 0 <= i < |init| && k in init[i].entries;
        assert k in ds[i].entries;
      }
      if exists i :: 0 <= i < |ds| && k in ds[i].entries {
        var i :| 0 <= i < |ds| && k in ds[i].entries;
        if i < |ds| - 1 {
          assert k in init[i].entries;
        }
      }
    }
  }

  /** The value kept for a key comes from the last dict that holds it. */
  lemma {:induction false} LastWinsLatest<V>(ds: seq<Dict<V>>, i: nat, k: string)
    requires i < |ds| && k in ds[i].entries
    requires forall j :: i < j < |ds| ==> k !in ds[j].entries
    ensures k in LastWins(ds) && LastWins(ds)[k] == ds[i].entries[k]
    decreases |ds|
  {
    if i < |ds| - 1 {
      var init := ds[..|ds| - 1];
      assert init[i] == ds[i];
      forall j | i < j < |init| ensures k !in init[j].entries {
        assert init[j] == ds[j];
      }
      LastWinsLatest(init, i, k);
    }
  }

  /** `m = {}; for d in ds[::-1]: m.update(d)` */
  method UpdateReversed<V>(ds: seq<Dict<V>>) returns (m: Dict<V>)
    ensures m.entries == FirstWins(ds)
  {
    m := Empty();
    for i := |ds| downto 0
      invariant m.entries == FirstWins(ds[i..])
    {
      assert ds[i..][1..] == ds[i + 1..];
      m := Update(m, ds[i]);
    }
    assert ds[0..] == ds;
  }

  /** `m = {}; for d in ds: m.update(d)` */
  method UpdateForward<V>(ds: seq<Dict<V>>) returns (m: Dict<V>)
    ensures m.entries == LastWins(ds)
  {
    m := Empty();
    for i := 0 to |ds|
      invariant m.entries == LastWins(ds[..i])
    {
      assert ds[..i + 1][..i] == ds[..i];
      m := Update(m, ds[i]);
    }
    assert ds[..|ds|] == ds;
  }
}
