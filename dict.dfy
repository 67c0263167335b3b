/**
  Python's built-in `dict` as the programs use it: an insertion-ordered association
  list in which every key occurs at most once. Assigning to an existing key keeps its
  position, assigning to a new key appends it, `del` removes it. The same structure
  stands for a database table with a unique key (one row per key, rows in creation order).
 */
module Dict {
  import opened Wrappers

  type Dict<K, V> = seq<(K, V)>

  /** Every key occurs at most once. */
  predicate DistinctKeys<K(==), V>(d: Dict<K, V>) {
    forall i, j :: 0 <= i < j < |d| ==> d[i].0 != d[j].0
  }

  /** The keys in iteration order (Python's `list(d.keys())`). */
  function KeySeq<K, V>(d: Dict<K, V>): (ks: seq<K>)
    ensures |ks| == |d|
    ensures forall i :: 0 <= i < |d| ==> ks[i] == d[i].0
  {
    if d == [] then [] else [d[0].0] + KeySeq(d[1..])
  }

  /** The values in iteration order (Python's `list(d.values())`). */
  function Values<K, V>(d: Dict<K, V>): (vs: seq<V>)
    ensures |vs| == |d|
    ensures forall i :: 0 <= i < |d| ==> vs[i] == d[i].1
  {
    if d == [] then [] else [d[0].1] + Values(d[1..])
  }

  /** True when `k` is one of the keys (Python's `k in d`). */
  predicate HasKey<K(==), V>(d: Dict<K, V>, k: K) {
    exists i :: 0 <= i < |d| && d[i].0 == k
  }

  /** Position of the entry for `k`, the first one if there were several. */
  function IndexOf<K(==), V>(d: Dict<K, V>, k: K): (r: Option<nat>)
    ensures r.None? <==> !HasKey(d, k)
    ensures r.Some? ==> r.value < |d| && d[r.value].0 == k
    ensures r.Some? ==> forall j :: 0 <= j < r.value ==> d[j].0 != k
  {
    if d == [] then None
    else if d[0].0 == k then Some(0)
    else
      match IndexOf(d[1..], k)
      case None => None
      case Some(i) => Some(i + 1)
  }

  /** The value stored under `k`, or None (Python's `d.get(k)`). */
  function Get<K(==), V>(d: Dict<K, V>, k: K): (r: Option<V>)
    ensures r.None? <==> !HasKey(d, k)
    ensures DistinctKeys(d) ==> forall i :: 0 <= i < |d| && d[i].0 == k ==> r == Some(d[i].1)
  {
    match IndexOf(d, k)
    case None => None
    case Some(i) => Some(d[i].1)
  }

  /** `d[k] = v`: overwrite in place when `k` is present, otherwise append. */
  function Put<K(==,!new), V>(d: Dict<K, V>, k: K, v: V): (r: Dict<K, V>)
    ensures DistinctKeys(d) ==> DistinctKeys(r)
    ensures DistinctKeys(d) ==> forall k' :: Get(r, k') == if k' == k then Some(v) else Get(d, k')
    ensures KeySeq(r) == if HasKey(d, k) then KeySeq(d) else KeySeq(d) + [k]
  {
    match IndexOf(d, k)
    case Some(i) => PutAtGet(d, i, k, v); d[i := (k, v)]
    case None => AppendGet(d, k, v); d + [(k, v)]
  }

  /** Assigning to a key that is not present appends it. */
  lemma PutFresh<K(!new), V>(d: Dict<K, V>, k: K, v: V)
    requires !HasKey(d, k)
    ensures Put(d, k, v) == d + [(k, v)]
  {
  }

  /** `del d[k]` when `k` is present; the dictionary unchanged otherwise. */
  function Remove<K(==,!new), V>(d: Dict<K, V>, k: K): (r: Dict<K, V>)
    ensures |r| <= |d|
    ensures !HasKey(r, k)
    ensures forall k' :: k' != k ==> Get(r, k') == Get(d, k')
    ensures !HasKey(d, k) ==> r == d
    ensures DistinctKeys(d) ==> DistinctKeys(r)
  {
    if d == [] then []
    else if d[0].0 == k then
      assert forall k' :: k' != k ==> Get(d, k') == Get(d[1..], k') by { ConsGet(d); }
      Remove(d[1..], k)
    else
      var rest := Remove(d[1..], k);
      ConsGet(d);
      ConsGet([d[0]] + rest);
      assert ([d[0]] + rest)[1..] == rest;
      assert DistinctKeys(d) ==> DistinctKeys([d[0]] + rest) by {
        if DistinctKeys(d) {
          assert DistinctKeys(d[1..]);
          assert !HasKey(d[1..], d[0].0) by {
            forall j | 0 <= j < |d[1..]| ensures d[1..][j].0 != d[0].0 { assert d[j + 1].0 != d[0].0; }
          }
          assert Get(rest, d[0].0) == Get(d[1..], d[0].0);
          ConsDistinct(d[0], rest);
        }
      }
      [d[0]] + rest
  }

  /** Looking up in a non-empty dictionary: the head entry, else the tail. */
  lemma ConsGet<K, V>(d: Dict<K, V>)
    requires d != []
    ensures forall k :: Get(d, k) == if d[0].0 == k then Some(d[0].1) else Get(d[1..], k)
    ensures forall k :: HasKey(d, k) <==> d[0].0 == k || HasKey(d[1..], k)
  {
    forall k ensures HasKey(d, k) <==> d[0].0 == k || HasKey(d[1..], k) {
      if HasKey(d, k) && d[0].0 != k {
        var i :| 0 <= i < |d| && d[i].0 == k;
        assert d[1..][i - 1].0 == k;
      }
      if HasKey(d[1..], k) {
        var i :| 0 <= i < |d[1..]| && d[1..][i].0 == k;
        assert d[i + 1].0 == k;
      }
    }
  }

  lemma ConsDistinct<K, V>(x: (K, V), e: Dict<K, V>)
    requires DistinctKeys(e) && !HasKey(e, x.0)
    ensures DistinctKeys([x] + e)
  {
    var d := [x] + e;
    forall i, j | 0 <= i < j < |d| ensures d[i].0 != d[j].0 {
      if i == 0 {
        assert d[j] == e[j - 1];
      } else {
        assert d[i] == e[i - 1] && d[j] == e[j - 1];
      }
    }
  }

  lemma PutAtGet<K, V>(d: Dict<K, V>, i: nat, k: K, v: V)
    requires i < |d| && d[i].0 == k
    ensures DistinctKeys(d) ==> DistinctKeys(d[i := (k, v)])
    ensures DistinctKeys(d) ==> forall k' :: Get(d[i := (k, v)], k') == if k' == k then Some(v) else Get(d, k')
  {
    var r := d[i := (k, v)];
    if DistinctKeys(d) {
      assert DistinctKeys(r) by {
        forall a, b | 0 <= a < b < |r| ensures r[a].0 != r[b].0 { assert r[a].0 == d[a].0 && r[b].0 == d[b].0; }
      }
      forall k' ensures Get(r, k') == if k' == k then Some(v) else Get(d, k') {
        if k' == k {
          assert r[i] == (k, v);
        } else if HasKey(d, k') {
          var j :| 0 <= j < |d| && d[j].0 == k';
          assert r[j] == d[j];
        }
      }
    }
  }

  lemma AppendGet<K, V>(d: Dict<K, V>, k: K, v: V)
    requires !HasKey(d, k)
    ensures DistinctKeys(d) ==> DistinctKeys(d + [(k, v)])
    ensures DistinctKeys(d) ==> forall k' :: Get(d + [(k, v)], k') == if k' == k then Some(v) else Get(d, k')
  {
    var r := d + [(k, v)];
    if DistinctKeys(d) {
      assert DistinctKeys(r) by {
        forall a, b | 0 <= a < b < |r| ensures r[a].0 != r[b].0 {
          assert r[a] == d[a];
          if b < |d| { assert r[b] == d[b]; } else { assert r[b].0 == k; }
        }
      }
      forall k' ensures Get(r, k') == if k' == k then Some(v) else Get(d, k') {
        if k' == k {
          assert r[|d|] == (k, v);
        } else if HasKey(d, k') {
          var j :| 0 <= j < |d| && d[j].0 == k';
          assert r[j] == d[j];
        }
      }
    }
  }

  /** `sum(d.values())`. */
  function SumValues<K>(d: Dict<K, int>): int {
    if d == [] then 0 else d[0].1 + SumValues(d[1..])
  }

  lemma {:induction false} SumValuesUpdate<K>(d: Dict<K, int>, i: nat, k: K, v: int)
    requires i < |d|
    ensures SumValues(d[i := (k, v)]) == SumValues(d) - d[i].1 + v
  {
    if i > 0 {
      assert d[i := (k, v)][1..] == d[1..][i - 1 := (k, v)];
      SumValuesUpdate(d[1..], i - 1, k, v);
    } else {
      assert d[i := (k, v)][1..] == d[1..];
    }
  }

  lemma {:induction false} SumValuesAppend<K>(d: Dict<K, int>, e: Dict<K, int>)
    ensures SumValues(d + e) == SumValues(d) + SumValues(e)
  {
    if d != [] {
      assert (d + e)[1..] == d[1..] + e;
      SumValuesAppend(d[1..], e);
    } else {
      assert d + e == e;
    }
  }

  /** Storing `v` under `k` changes the sum by `v` minus what `k` held before. */
  lemma PutSum<K(!new)>(d: Dict<K, int>, k: K, v: int)
    requires DistinctKeys(d)
    ensures SumValues(Put(d, k, v)) == SumValues(d) - Get(d, k).GetOr(0) + v
  {
    match IndexOf(d, k)
    case Some(i) => SumValuesUpdate(d, i, k, v);
    case None =>
      SumValuesAppend(d, [(k, v)]);
      assert [(k, v)][1..] == [];
  }

  /** Deleting `k` lowers the sum by what `k` held. */
  lemma {:induction false} RemoveSum<K(!new)>(d: Dict<K, int>, k: K)
    requires DistinctKeys(d)
    ensures SumValues(Remove(d, k)) == SumValues(d) - Get(d, k).GetOr(0)
  {
    if d != [] {
      assert DistinctKeys(d[1..]);
      RemoveSum(d[1..], k);
      if d[0].0 == k {
        assert !HasKey(d[1..], k) by {
          forall j | 0 <= j < |d[1..]| ensures d[1..][j].0 != k { assert d[j + 1].0 != d[0].0; }
        }
      } else {
        assert Get(d, k) == Get(d[1..], k);
      }
    }
  }

  /** Appending a key that is not present and deleting it again gives back the original. */
  lemma RemoveAppended<K(!new), V>(d: Dict<K, V>, k: K, v: V)
    requires !HasKey(d, k)
    ensures Remove(d + [(k, v)], k) == d
  {
    if d != [] {
      assert (d + [(k, v)])[1..] == d[1..] + [(k, v)];
      assert !HasKey(d[1..], k) by {
        forall j | 0 <= j < |d[1..]| ensures d[1..][j].0 != k { assert d[j + 1].0 != k; }
      }
      RemoveAppended(d[1..], k, v);
    }
  }

  /** The number of entries satisfying `p` (a filtered `.count()` over a table). */
  function CountWhere<K, V>(d: Dict<K, V>, p: ((K, V)) -> bool): (n: nat)
    ensures n <= |d|
  {
    if d == [] then 0 else (if p(d[0]) then 1 else 0) + CountWhere(d[1..], p)
  }

  lemma {:induction false} CountWhereUpdate<K, V>(d: Dict<K, V>, i: nat, e: (K, V), p: ((K, V)) -> bool)
    requires i < |d|
    ensures CountWhere(d[i := e], p) == CountWhere(d, p) - (if p(d[i]) then 1 else 0) + (if p(e) then 1 else 0)
  {
    if i == 0 {
      assert d[i := e][1..] == d[1..];
    } else {
      assert d[i := e][1..] == d[1..][i - 1 := e];
      CountWhereUpdate(d[1..], i - 1, e, p);
    }
  }

  lemma {:induction false} CountWhereAppend<K, V>(d: Dict<K, V>, e: (K, V), p: ((K, V)) -> bool)
    ensures CountWhere(d + [e], p) == CountWhere(d, p) + (if p(e) then 1 else 0)
  {
    if d == [] {
      assert ([] + [e])[1..] == [];
    } else {
      assert (d + [e])[1..] == d[1..] + [e];
      CountWhereAppend(d[1..], e, p);
    }
  }

  /** Writing `d[k] = v` changes a count by whether the old entry for `k` counted and whether the new one does. */
  lemma CountWherePut<K(!new), V>(d: Dict<K, V>, k: K, v: V, p: ((K, V)) -> bool)
    requires DistinctKeys(d)
    ensures CountWhere(Put(d, k, v), p)
         == CountWhere(d, p)
            - (if Get(d, k).Some? && p((k, Get(d, k).value)) then 1 else 0)
            + (if p((k, v)) then 1 else 0)
  {
    match IndexOf(d, k)
    case Some(i) => CountWhereUpdate(d, i, (k, v), p);
    case None => CountWhereAppend(d, (k, v), p);
  }
}
