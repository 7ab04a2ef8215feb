/** An insertion-ordered dictionary: the iteration order of a Python
    `dict`, and of a JavaScript object whose keys are not array indices
    (an object lists keys such as "12" first, in ascending numeric order).
    Keys are listed in the order they were first inserted; assigning to a
    present key keeps its position; deleting a key drops it from the
    order. */
module Dict {
  import opened Wrappers

  datatype Dict<K, V> = Dict(keys: seq<K>, vals: map<K, V>)

  /** No key is listed twice. */
  ghost predicate Distinct<K>(s: seq<K>) {
    forall i, j :: 0 <= i < j < |s| ==> s[i] != s[j]
  }

  /** The order lists exactly the keys of the map, each once. */
  ghost predicate Valid<K, V>(d: Dict<K, V>) {
    && Distinct(d.keys)
    && (forall k :: k in d.vals ==> k in d.keys)
    && (forall k :: k in d.keys ==> k in d.vals)
  }

  function Empty<K, V>(): (r: Dict<K, V>)
    ensures Valid(r) && r.vals == map[]
  {
    Dict([], map[])
  }

  /** `len(d)` / `Object.keys(o).length`. */
  function Size<K, V>(d: Dict<K, V>): nat {
    |d.keys|
  }

  /** `d[k] = v`: a new key goes to the end of the order, a present key
      keeps its place and only its value changes. */
  function Put<K, V>(d: Dict<K, V>, k: K, v: V): (r: Dict<K, V>)
    requires Valid(d)
    ensures Valid(r)
    ensures r.vals.Keys == d.vals.Keys + {k}
    ensures r.vals[k] == v
    ensures forall j :: j in d.vals && j != k ==> r.vals[j] == d.vals[j]
    ensures k in d.vals ==> r.keys == d.keys
    ensures k !in d.vals ==> r.keys == d.keys + [k]
  {
    if k in d.vals then Dict(d.keys, d.vals[k := v])
    else Dict(d.keys + [k], d.vals[k := v])
  }

  /** `d.pop(k, None)` / `del d[k]`: removing an absent key changes nothing. */
  function Remove<K, V>(d: Dict<K, V>, k: K): (r: Dict<K, V>)
    requires Valid(d)
    ensures Valid(r)
    ensures r.vals.Keys == d.vals.Keys - {k}
    ensures forall j :: j in r.vals ==> r.vals[j] == d.vals[j]
    ensures r.keys == Without(d.keys, k)
    ensures k !in d.vals ==> r == d
  {
    Dict(Without(d.keys, k), d.vals - {k})
  }

  /** The sequence `s` with every occurrence of `x` dropped, order kept. */
  function Without<K(==)>(s: seq<K>, x: K): (r: seq<K>)
    ensures forall y :: y in r ==> y in s && y != x
    ensures forall y :: y in s && y != x ==> y in r
    ensures |r| <= |s|
    ensures Distinct(s) ==> Distinct(r)
    ensures x !in s ==> r == s
    ensures Distinct(s) && x in s ==> |r| == |s| - 1
  {
    if |s| == 0 then []
    else
      assert Distinct(s) ==> Distinct(s[1..]) && s[0] !in s[1..] by {
        if Distinct(s) { DistinctTail(s); }
      }
      var rest := Without(s[1..], x);
      if s[0] == x then rest else [s[0]] + rest
  }

  /** The elements of `s` for which `keep` holds, order kept. */
  function Filter<K>(s: seq<K>, keep: K -> bool): (r: seq<K>)
    ensures forall y :: y in r ==> y in s && keep(y)
    ensures forall y :: y in s && keep(y) ==> y in r
    ensures |r| <= |s|
    ensures Distinct(s) ==> Distinct(r)
  {
    if |s| == 0 then []
    else
      assert Distinct(s) ==> Distinct(s[1..]) && s[0] !in s[1..] by {
        if Distinct(s) { DistinctTail(s); }
      }
      var rest := Filter(s[1..], keep);
      if keep(s[0]) then [s[0]] + rest else rest
  }

  /** Dropping the head of a repetition-free sequence leaves one without
      repetitions that does not contain the head. */
  lemma DistinctTail<K>(s: seq<K>)
    requires |s| > 0 && Distinct(s)
    ensures Distinct(s[1..]) && s[0] !in s[1..]
  {
  }

  /** A sequence without repetitions has as many elements as its set. */
  lemma {:induction false} DistinctCardinality<K>(s: seq<K>)
    requires Distinct(s)
    ensures |set x | x in s| == |s|
  {
    if |s| > 0 {
      DistinctTail(s);
      DistinctCardinality(s[1..]);
      assert (set x | x in s) == {s[0]} + (set x | x in s[1..]) by {
        assert s == [s[0]] + s[1..];
      }
    }
  }

  /** The size reported through the order is the number of keys. */
  lemma SizeIsCardinality<K, V>(d: Dict<K, V>)
    requires Valid(d)
    ensures Size(d) == |d.vals|
  {
    DistinctCardinality(d.keys);
    assert d.vals.Keys == set x | x in d.keys;
  }

  /** A dictionary whose keys are among another's is no larger. */
  lemma SubsetSize<K, V, W>(a: Dict<K, V>, b: Dict<K, W>)
    requires Valid(a) && Valid(b) && a.vals.Keys <= b.vals.Keys
    ensures Size(a) <= Size(b)
  {
    SizeIsCardinality(a);
    SizeIsCardinality(b);
    assert |a.vals.Keys| <= |b.vals.Keys| by {
      SubsetCardinality(a.vals.Keys, b.vals.Keys);
    }
  }

  lemma {:induction false} SubsetCardinality<K>(x: set<K>, y: set<K>)
    requires x <= y
    ensures |x| <= |y|
    decreases |y|
  {
    if x != {} {
      var e :| e in x;
      SubsetCardinality(x - {e}, y - {e});
    }
  }
}
