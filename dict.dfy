/**
  Insertion-ordered dictionaries, the behaviour of a Python `dict`: a sequence of
  key/value pairs in insertion order. Assigning to a key that is already present
  keeps its position; assigning a new key appends it; deleting removes the entry.
  `ToMap` relates every operation to Dafny's unordered `map`.
 */
module Dict {
  import opened Wrappers

  function Keys<K, V>(d: seq<(K, V)>): (ks: seq<K>)
    ensures |ks| == |d|
    ensures forall i :: 0 <= i < |d| ==> ks[i] == d[i].0
  {
    seq(|d|, i requires 0 <= i < |d| => d[i].0)
  }

  function Values<K, V>(d: seq<(K, V)>): (vs: seq<V>)
    ensures |vs| == |d|
    ensures forall i :: 0 <= i < |d| ==> vs[i] == d[i].1
  {
    seq(|d|, i requires 0 <= i < |d| => d[i].1)
  }

  /** At most one entry per key: what a Python dict guarantees. */
  ghost predicate DistinctKeys<K, V>(d: seq<(K, V)>) {
    forall i, j :: 0 <= i < j < |d| ==> d[i].0 != d[j].0
  }

  /** No value occurs twice. */
  ghost predicate DistinctValues<K, V>(d: seq<(K, V)>) {
    forall i, j :: 0 <= i < j < |d| ==> d[i].1 != d[j].1
  }

  /** Position of the first entry with key `k`, or `|d|` when there is none. */
  function IndexOf<K(==), V>(d: seq<(K, V)>, k: K): (i: nat)
    ensures i <= |d|
    ensures i < |d| ==> d[i].0 == k
    ensures forall j :: 0 <= j < i ==> d[j].0 != k
    ensures i < |d| <==> k in Keys(d)
  {
    if d == [] then 0
    else if d[0].0 == k then 0
    else
      var i := 1 + IndexOf(d[1..], k);
      assert forall j :: 1 <= j < |d| ==> d[1..][j - 1] == d[j];
      i
  }

  /** Position of the first entry whose value is `v` (Python's `list(d.values()).index(v)`),
      or `|d|` when there is none. */
  function IndexOfValue<K, V(==)>(d: seq<(K, V)>, v: V): (i: nat)
    ensures i <= |d|
    ensures i < |d| ==> d[i].1 == v
    ensures forall j :: 0 <= j < i ==> d[j].1 != v
    ensures i < |d| <==> v in Values(d)
  {
    if d == [] then 0
    else if d[0].1 == v then 0
    else
      var i := 1 + IndexOfValue(d[1..], v);
      assert forall j :: 1 <= j < |d| ==> d[1..][j - 1] == d[j];
      i
  }

  /** `d.get(k)` */
  function Get<K(==), V>(d: seq<(K, V)>, k: K): (r: Option<V>)
    ensures r.Some? <==> k in Keys(d)
    ensures r.Some? ==> (k, r.value) in d
  {
    var i := IndexOf(d, k);
    if i < |d| then Some(d[i].1) else None
  }

  /** `d[k] = v`: overwrite in place when `k` is present, append otherwise. */
  function Put<K(==), V>(d: seq<(K, V)>, k: K, v: V): (r: seq<(K, V)>)
    ensures k in Keys(d) ==> |r| == |d| && Keys(r) == Keys(d)
    ensures k !in Keys(d) ==> r == d + [(k, v)]
  {
    var i := IndexOf(d, k);
    if i < |d| then d[i := (k, v)] else d + [(k, v)]
  }

  /** `del d[k]`, or nothing when `k` is absent. */
  function Remove<K(==), V>(d: seq<(K, V)>, k: K): (r: seq<(K, V)>)
    ensures k !in Keys(d) ==> r == d
    ensures k in Keys(d) ==> |r| == |d| - 1
  {
    var i := IndexOf(d, k);
    if i < |d| then seq(|d| - 1, j requires 0 <= j < |d| - 1 => if j < i then d[j] else d[j + 1]) else d
  }

  /** `(k, v)` is the first entry of `d` whose value is `v`. */
  ghost predicate FirstWithValue<K, V>(d: seq<(K, V)>, k: K, v: V) {
    exists i :: 0 <= i < |d| && d[i] == (k, v) && forall j :: 0 <= j < i ==> d[j].1 != v
  }

  /** The key of the first entry whose value is `v`. */
  function FirstKeyOf<K, V(==)>(d: seq<(K, V)>, v: V): (r: Option<K>)
    ensures r.Some? <==> v in Values(d)
    ensures r.Some? ==> (r.value, v) in d && FirstWithValue(d, r.value, v)
  {
    var i := IndexOfValue(d, v);
    if i < |d| then Some(d[i].0) else None
  }

  /** The unordered dictionary a sequence of pairs stands for (first entry wins). */
  ghost function ToMap<K, V>(d: seq<(K, V)>): map<K, V> {
    map k | k in Keys(d) :: d[IndexOf(d, k)].1
  }

  lemma GetAgreesWithMap<K, V>(d: seq<(K, V)>, k: K)
    ensures Get(d, k) == if k in ToMap(d) then Some(ToMap(d)[k]) else None
  {
  }

  /** A later key is found where it was before an assignment to another key. */
  lemma IndexOfAfterPut<K, V>(d: seq<(K, V)>, k: K, v: V, k': K)
    requires k' != k
    ensures IndexOf(d, k') < |d| ==> IndexOf(Put(d, k, v), k') == IndexOf(d, k')
    ensures IndexOf(d, k') == |d| ==> IndexOf(Put(d, k, v), k') == |Put(d, k, v)|
  {
    var r := Put(d, k, v);
    var a, b := IndexOf(r, k'), IndexOf(d, k');
    if a < |d| { assert d[a].0 == k'; }
    if b < |d| { assert r[b].0 == k'; }
  }

  /** Two maps with the same keys and the same value at each key are equal. */
  lemma MapsEqual<K, V>(m: map<K, V>, m': map<K, V>)
    requires forall k :: k in m <==> k in m'
    requires forall k :: k in m ==> m[k] == m'[k]
    ensures m == m'
  {
  }

  /** The assigned key stays where it was, or lands at the end, holding the new value. */
  lemma IndexOfAfterPutSame<K, V>(d: seq<(K, V)>, k: K, v: V)
    ensures IndexOf(Put(d, k, v), k) == IndexOf(d, k)
    ensures Put(d, k, v)[IndexOf(d, k)] == (k, v)
  {
    var r, i := Put(d, k, v), IndexOf(d, k);
    assert r[i] == (k, v);
    forall j | 0 <= j < i ensures r[j].0 != k {
      assert r[j] == d[j];
    }
    IndexOfIs(r, k, i);
  }

  /** With distinct values, overwriting the value at `i` leaves the old one nowhere. */
  lemma ValueOverwritten<K, V>(d: seq<(K, V)>, d': seq<(K, V)>, i: nat)
    requires DistinctValues(d) && i < |d| && |d'| == |d| && d'[i].1 != d[i].1
    requires forall j :: 0 <= j < |d| && j != i ==> d'[j] == d[j]
    ensures d[i].1 !in Values(d')
  {
    forall j | 0 <= j < |d'| ensures Values(d')[j] != d[i].1 {
      if j != i {
        assert d'[j] == d[j];
      }
    }
  }

  /** With distinct values, assigning a fresh value to a present key leaves the
      value it replaced nowhere in the dictionary. */
  lemma PutOverwritesValue<K, V>(d: seq<(K, V)>, k: K, v: V)
    requires DistinctValues(d) && k in Keys(d) && v !in Values(d)
    ensures Get(d, k).value !in Values(Put(d, k, v))
  {
    var i := IndexOf(d, k);
    assert Values(d)[i] == d[i].1;
    ValueOverwritten(d, d[i := (k, v)], i);
  }

  /** Assignment updates the abstract map like `m[k := v]`. */
  lemma PutToMap<K, V>(d: seq<(K, V)>, k: K, v: V)
    ensures ToMap(Put(d, k, v)) == ToMap(d)[k := v]
  {
    var m, m' := ToMap(Put(d, k, v)), ToMap(d)[k := v];
    forall k'
      ensures k' in m <==> k' in m'
      ensures k' in m ==> m[k'] == m'[k']
    {
      if k' == k {
        IndexOfAfterPutSame(d, k, v);
      } else {
        IndexOfAfterPut(d, k, v, k');
      }
    }
    MapsEqual(m, m');
  }

  /** Looking up after an assignment finds the assigned value under its key and
      the old value under every other key. */
  lemma GetAfterPut<K, V>(d: seq<(K, V)>, k: K, v: V, k': K)
    ensures Get(Put(d, k, v), k') == if k' == k then Some(v) else Get(d, k')
  {
    PutToMap(d, k, v);
    GetAgreesWithMap(Put(d, k, v), k');
    GetAgreesWithMap(d, k');
  }

  /** After an assignment the keys are the old ones plus the assigned one. */
  lemma PutKeys<K, V>(d: seq<(K, V)>, k: K, v: V)
    ensures forall k' :: k' in Keys(Put(d, k, v)) <==> k' == k || k' in Keys(d)
  {
    if k !in Keys(d) {
      assert Keys(d + [(k, v)]) == Keys(d) + [k];
    }
  }

  /** Assignment keeps keys distinct, and values too when the new value is not already present. */
  lemma PutDistinct<K, V>(d: seq<(K, V)>, k: K, v: V)
    requires DistinctKeys(d)
    ensures DistinctKeys(Put(d, k, v))
    ensures DistinctValues(d) && v !in Values(d) ==> DistinctValues(Put(d, k, v))
  {
    var i := IndexOf(d, k);
    if i == |d| {
      assert forall j :: 0 <= j < |d| ==> d[j].0 != k;
    }
    if v !in Values(d) {
      assert forall j :: 0 <= j < |d| ==> d[j].1 != v;
    }
  }

  /** The entries left after deleting the one at index `IndexOf(d, k)`. */
  lemma RemoveShape<K, V>(d: seq<(K, V)>, k: K)
    requires k in Keys(d)
    ensures var i, r := IndexOf(d, k), Remove(d, k);
      && (forall j :: 0 <= j < i ==> r[j] == d[j])
      && (forall j :: i <= j < |r| ==> r[j] == d[j + 1])
  {
  }

  /** The first position holding `k` is `p` when no earlier position does. */
  lemma IndexOfIs<K, V>(d: seq<(K, V)>, k: K, p: nat)
    requires p <= |d| && (p < |d| ==> d[p].0 == k)
    requires forall j :: 0 <= j < p ==> d[j].0 != k
    ensures IndexOf(d, k) == p
  {
    var a := IndexOf(d, k);
    assert a < |d| ==> d[a].0 == k;
  }

  /** Where a key `k'` lies in `r`, a copy of `d` without the entry at `i`
      (which does not hold `k'`). */
  lemma IndexOfWithout<K, V>(d: seq<(K, V)>, r: seq<(K, V)>, i: nat, k': K)
    requires i < |d| && |r| == |d| - 1 && d[i].0 != k'
    requires forall j :: 0 <= j < i ==> r[j] == d[j]
    requires forall j :: i <= j < |r| ==> r[j] == d[j + 1]
    ensures var b := IndexOf(d, k');
      IndexOf(r, k') == if b < i then b else b - 1
  {
    var b := IndexOf(d, k');
    if b < i {
      FirstBefore(d, r, i, k', b);
    } else {
      FirstAfter(d, r, i, k', b);
    }
  }

  /** The first position of `k'` in `d` lies before the removed entry `i`. */
  lemma FirstBefore<K, V>(d: seq<(K, V)>, r: seq<(K, V)>, i: nat, k': K, b: nat)
    requires b < i < |d| && |r| == |d| - 1 && d[b].0 == k'
    requires forall j :: 0 <= j < b ==> d[j].0 != k'
    requires forall j :: 0 <= j < i ==> r[j] == d[j]
    ensures IndexOf(r, k') == b
  {
    forall j | 0 <= j < b ensures r[j].0 != k' {
      assert r[j] == d[j];
    }
    assert r[b] == d[b];
    IndexOfIs(r, k', b);
  }

  /** The first position of `k'` in `d` (or its absence, `b == |d|`) lies after
      the removed entry `i`, so in `r` it is one place earlier. */
  lemma FirstAfter<K, V>(d: seq<(K, V)>, r: seq<(K, V)>, i: nat, k': K, b: nat)
    requires i < |d| && i <= b <= |d| && |r| == |d| - 1 && d[i].0 != k'
    requires b < |d| ==> d[b].0 == k'
    requires forall j :: 0 <= j < b ==> d[j].0 != k'
    requires forall j :: 0 <= j < i ==> r[j] == d[j]
    requires forall j :: i <= j < |r| ==> r[j] == d[j + 1]
    ensures b > i && IndexOf(r, k') == b - 1
  {
    forall j | 0 <= j < b - 1 ensures r[j].0 != k' {
      if j < i {
        assert r[j] == d[j];
      } else {
        assert r[j] == d[j + 1];
      }
    }
    if b < |d| {
      assert r[b - 1] == d[b];
    }
    IndexOfIs(r, k', b - 1);
  }

  /** Deleting `k` leaves every other key with the entry it had: found at the
      same place when it came before `k`, one place earlier when after. */
  lemma RemoveKeepsOther<K, V>(d: seq<(K, V)>, k: K, k': K)
    requires k in Keys(d) && k' != k
    ensures k' in Keys(Remove(d, k)) <==> k' in Keys(d)
    ensures k' in Keys(d) ==> Remove(d, k)[IndexOf(Remove(d, k), k')] == d[IndexOf(d, k')]
  {
    var r, i, b := Remove(d, k), IndexOf(d, k), IndexOf(d, k');
    RemoveShape(d, k);
    IndexOfWithout(d, r, i, k');
    if b < i {
      assert r[b] == d[b];
    } else if b < |d| {
      assert r[b - 1] == d[b];
    }
  }

  /** With one entry per key, nothing of `k` is left after deleting it. */
  lemma RemoveDropsKey<K, V>(d: seq<(K, V)>, k: K)
    requires DistinctKeys(d)
    ensures k !in Keys(Remove(d, k))
  {
    if k in Keys(d) {
      var r, i := Remove(d, k), IndexOf(d, k);
      RemoveShape(d, k);
      forall j | 0 <= j < |r| ensures r[j].0 != k {
        if j >= i { assert r[j] == d[j + 1]; }
      }
    }
  }

  /** Deletion removes exactly `k` from the abstract map. */
  lemma RemoveToMap<K, V>(d: seq<(K, V)>, k: K)
    requires DistinctKeys(d)
    ensures ToMap(Remove(d, k)) == ToMap(d) - {k}
  {
    if k in Keys(d) {
      var r, i := Remove(d, k), IndexOf(d, k);
      var m, m' := ToMap(r), ToMap(d) - {k};
      forall k'
        ensures k' in m <==> k' in m'
        ensures k' in m ==> m[k'] == m'[k']
      {
        if k' == k {
          RemoveDropsKey(d, k);
        } else {
          RemoveKeepsOther(d, k, k');
        }
      }
      MapsEqual(m, m');
    }
  }

  /** Deletion keeps keys and values distinct. */
  lemma RemoveDistinct<K, V>(d: seq<(K, V)>, k: K)
    requires DistinctKeys(d)
    ensures DistinctKeys(Remove(d, k))
    ensures DistinctValues(d) ==> DistinctValues(Remove(d, k))
  {
    if k in Keys(d) {
      RemoveShape(d, k);
    }
  }

  /** The values left after a deletion: all but the removed one. */
  lemma RemoveValues<K, V>(d: seq<(K, V)>, k: K)
    requires DistinctKeys(d)
    ensures forall v :: v in Values(d) && Get(d, k) != Some(v) ==> v in Values(Remove(d, k))
    ensures forall v :: v in Values(Remove(d, k)) ==> v in Values(d)
    ensures DistinctValues(d) ==> forall v :: v in Values(Remove(d, k)) ==> Get(d, k) != Some(v)
  {
    if k in Keys(d) {
      var r, i := Remove(d, k), IndexOf(d, k);
      RemoveShape(d, k);
      forall v | v in Values(d) && Get(d, k) != Some(v) ensures v in Values(r) {
        var b := IndexOfValue(d, v);
        assert b != i;
        if b < i { assert Values(r)[b] == v; } else { assert Values(r)[b - 1] == v; }
      }
      forall v | v in Values(r) ensures v in Values(d) && (DistinctValues(d) ==> Get(d, k) != Some(v)) {
        var a := IndexOfValue(r, v);
        if a < i { assert Values(d)[a] == v; } else { assert Values(d)[a + 1] == v; }
      }
    }
  }
}
