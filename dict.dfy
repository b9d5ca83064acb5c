/** Python's insertion-ordered `dict`, as generate_hierarchical_library uses
    it: a key order (first insertion) and a map from keys to values.

    The pipeline fills its dicts in two ways. A dict comprehension
    (substruct_generation.py, lines 73 and 89) assigns `d[k] = v` for every
    pair, so each key keeps its LAST value; `final_data` (lines 109-122) only
    assigns absent keys, so each key keeps its FIRST value. In both, a key
    sits where it was first inserted. */
module Dict {

  datatype Dict<K(==, !new), V> = Dict(keys: seq<K>, entries: map<K, V>)

  predicate Distinct<T(==)>(s: seq<T>)
  {
    forall i, j :: 0 <= i < j < |s| ==> s[i] != s[j]
  }

  /** The key order lists each key of the map exactly once. */
  ghost predicate Valid<K(!new), V>(d: Dict<K, V>)
  {
    Distinct(d.keys) && forall k :: k in d.entries <==> k in d.keys
  }

  /** `{}` */
  function Empty<K(==, !new), V>(): (d: Dict<K, V>)
    ensures Valid(d) && d.keys == [] && d.entries == map[]
  {
    Dict([], map[])
  }

  /** `d[k] = v`: a new key goes to the end of the key order, an existing key
      keeps its place and gets the new value. */
  function Put<K(==, !new), V>(d: Dict<K, V>, k: K, v: V): (r: Dict<K, V>)
    requires Valid(d)
    ensures Valid(r) && r.entries == d.entries[k := v]
    ensures r.keys == if k in d.entries then d.keys else d.keys + [k]
  {
    if k in d.entries then Dict(d.keys, d.entries[k := v])
    else Dict(d.keys + [k], d.entries[k := v])
  }

  /** `if k not in d: d[k] = v` */
  function PutIfAbsent<K(==, !new), V>(d: Dict<K, V>, k: K, v: V): (r: Dict<K, V>)
    requires Valid(d)
    ensures Valid(r) && k in r.entries
    ensures k in d.entries ==> r == d
    ensures k !in d.entries ==> r.keys == d.keys + [k] && r.entries == d.entries[k := v]
  {
    if k in d.entries then d else Put(d, k, v)
  }

  /** `list(d.values())`, in key order. */
  function Values<K(==, !new), V>(d: Dict<K, V>): (vs: seq<V>)
    requires Valid(d)
    ensures |vs| == |d.keys|
    ensures forall i :: 0 <= i < |vs| ==> vs[i] == d.entries[d.keys[i]]
  {
    seq(|d.keys|, i requires 0 <= i < |d.keys| => d.entries[d.keys[i]])
  }

  /** The keys of `ks` in the order they first occur. */
  function FirstOccurrences<K(==, !new)>(ks: seq<K>): (r: seq<K>)
    ensures Distinct(r)
    ensures forall k :: k in r <==> k in ks
    ensures forall i, j :: 0 <= i < j < |r| ==> FirstIndex(ks, r[i]) < FirstIndex(ks, r[j])
  {
    if ks == [] then []
    else
      var r0 := FirstOccurrences(ks[..|ks| - 1]);
      var k := ks[|ks| - 1];
      assert ks == ks[..|ks| - 1] + [k];
      if k in r0 then r0 else r0 + [k]
  }

  /** One more element of a sequence: the longer prefix is the shorter one
      with that element appended. */
  lemma PrefixStep<T>(s: seq<T>, i: nat)
    requires i < |s|
    ensures s[..i + 1] == s[..i] + [s[i]]
  {
  }

  /** The position of the last occurrence of `k` in `ks`. */
  function LastIndex<K(==, !new)>(ks: seq<K>, k: K): (i: nat)
    requires k in ks
    ensures i < |ks| && ks[i] == k
    ensures forall j :: i < j < |ks| ==> ks[j] != k
  {
    if ks[|ks| - 1] == k then |ks| - 1
    else
      assert k in ks[..|ks| - 1] by {
        var j :| 0 <= j < |ks| && ks[j] == k;
        assert ks[..|ks| - 1][j] == k;
      }
      LastIndex(ks[..|ks| - 1], k)
  }

  /** The position of the first occurrence of `k` in `ks`. */
  function FirstIndex<K(==, !new)>(ks: seq<K>, k: K): (i: nat)
    requires k in ks
    ensures i < |ks| && ks[i] == k
    ensures forall j :: 0 <= j < i ==> ks[j] != k
  {
    if ks[0] == k then 0
    else
      var i := FirstIndex(ks[1..], k);
      assert ks[i + 1] == ks[1..][i];
      i + 1
  }

  /** `d` is `{ks[i]: vs[i] for i in range(len(ks))}`: every key of `ks`, in
      first-occurrence order, each holding the value paired with its last
      occurrence. */
  ghost predicate KeepsLast<K(!new), V>(d: Dict<K, V>, ks: seq<K>, vs: seq<V>)
  {
    |ks| == |vs| && Valid(d) && d.keys == FirstOccurrences(ks) &&
    (forall k :: k in d.entries <==> k in ks) &&
    (forall k :: k in d.entries ==> d.entries[k] == vs[LastIndex(ks, k)])
  }

  /** `d` is built by inserting `vs[i]` under `ks[i]` only when the key is
      absent: each key holds the value paired with its first occurrence. */
  ghost predicate KeepsFirst<K(!new), V>(d: Dict<K, V>, ks: seq<K>, vs: seq<V>)
  {
    |ks| == |vs| && Valid(d) && d.keys == FirstOccurrences(ks) &&
    (forall k :: k in d.entries <==> k in ks) &&
    (forall k :: k in d.entries ==> d.entries[k] == vs[FirstIndex(ks, k)])
  }

  lemma EmptyKeepsBoth<K(!new), V>()
    ensures KeepsLast(Empty<K, V>(), [], [])
    ensures KeepsFirst(Empty<K, V>(), [], [])
  {
  }

  /** One more assignment `d[k] = v` extends the comprehension by one pair. */
  lemma PutKeepsLast<K(!new), V>(d: Dict<K, V>, ks: seq<K>, vs: seq<V>, k: K, v: V)
    requires KeepsLast(d, ks, vs)
    ensures KeepsLast(Put(d, k, v), ks + [k], vs + [v])
  {
    var ks', vs', r := ks + [k], vs + [v], Put(d, k, v);
    assert ks'[..|ks'| - 1] == ks;
    forall k' | k' in r.entries
      ensures r.entries[k'] == vs'[LastIndex(ks', k')]
    {
      if k' != k {
        assert k' in ks;
        var i := LastIndex(ks, k');
        assert ks'[i] == k';
        assert LastIndex(ks', k') == i;
      }
    }
  }

  /** One more insert-if-absent extends a keep-first dict by one pair. */
  lemma PutIfAbsentKeepsFirst<K(!new), V>(d: Dict<K, V>, ks: seq<K>, vs: seq<V>, k: K, v: V)
    requires KeepsFirst(d, ks, vs)
    ensures KeepsFirst(PutIfAbsent(d, k, v), ks + [k], vs + [v])
  {
    var ks', vs', r := ks + [k], vs + [v], PutIfAbsent(d, k, v);
    assert ks'[..|ks'| - 1] == ks;
    forall k' | k' in r.entries
      ensures r.entries[k'] == vs'[FirstIndex(ks', k')]
    {
      if k' in ks {
        var i := FirstIndex(ks, k');
        assert ks'[i] == k';
        assert FirstIndex(ks', k') == i;
      } else {
        assert FirstIndex(ks', k') == |ks|;
      }
    }
  }

  /** In a comprehension whose key is a function of the value, the values
      listed by `Values` are the last ones per key, each under its own key. */
  lemma ValuesOfKeepsLast<K(!new), V>(d: Dict<K, V>, ks: seq<K>, vs: seq<V>, i: nat)
    requires KeepsLast(d, ks, vs) && i < |d.keys|
    ensures d.keys[i] in ks
    ensures Values(d)[i] == vs[LastIndex(ks, d.keys[i])]
    ensures forall j :: LastIndex(ks, d.keys[i]) < j < |ks| ==> ks[j] != d.keys[i]
  {
    assert d.keys[i] in d.entries;
  }
}
