/** Grouping by key in first-seen order: the shape shared by
    `format_query_analytics` (a dict keyed by query text, which Python keeps
    in insertion order) and the duplicate merger (`Series.unique()` followed
    by one boolean-mask selection per key). */
module FirstSeen {
  import opened Sums

  predicate NoDuplicates<T(==)>(s: seq<T>) {
    forall i, j :: 0 <= i < j < |s| ==> s[i] != s[j]
  }

  /** The distinct elements of `s`, each once, in order of first appearance. */
  function Distinct<T(==)>(s: seq<T>): (d: seq<T>)
    ensures forall i :: 0 <= i < |s| ==> s[i] in d
    ensures forall i :: 0 <= i < |d| ==> d[i] in s
    ensures NoDuplicates(d)
    decreases |s|
  {
    if |s| == 0 then []
    else
      var d := Distinct(s[..|s| - 1]);
      assert s == s[..|s| - 1] + [s[|s| - 1]];
      if s[|s| - 1] in d then d else d + [s[|s| - 1]]
  }

  /** Index of the first occurrence of `x` in `s`. */
  function IndexOf<T(==)>(s: seq<T>, x: T): (i: nat)
    requires x in s
    ensures i < |s| && s[i] == x && x !in s[..i]
  {
    if s[0] == x then 0
    else
      assert s == [s[0]] + s[1..];
      1 + IndexOf(s[1..], x)
  }

  lemma IndexOfSnoc<T>(s: seq<T>, y: T, x: T)
    requires x in s
    ensures IndexOf(s + [y], x) == IndexOf(s, x)
  {
    var i, j := IndexOf(s + [y], x), IndexOf(s, x);
    assert (s + [y])[..j] == s[..j];
    assert (s + [y])[j] == x;
    assert i <= j;
    assert forall k :: 0 <= k < j ==> s[k] != x by {
      forall k | 0 <= k < j ensures s[k] != x { assert s[k] == s[..j][k]; }
    }
    assert (s + [y])[i] == s[i];
  }

  /** Distinct lists its elements in the order in which each first occurs. */
  lemma {:induction false} DistinctFirstSeenOrder<T>(s: seq<T>)
    ensures forall i, j :: 0 <= i < j < |Distinct(s)| ==>
              IndexOf(s, Distinct(s)[i]) < IndexOf(s, Distinct(s)[j])
    decreases |s|
  {
    if |s| > 0 {
      var s', y := s[..|s| - 1], s[|s| - 1];
      assert s == s' + [y];
      DistinctFirstSeenOrder(s');
      var d', d := Distinct(s'), Distinct(s);
      forall x | x in s' ensures IndexOf(s, x) == IndexOf(s', x) && IndexOf(s', x) < |s'| {
        IndexOfSnoc(s', y, x);
      }
      if y !in d' {
        assert y !in s';
        assert IndexOf(s, y) == |s'|;
      }
    }
  }

  /** The elements of `s` whose key (same position in `keys`) equals `k`,
      in their original order: `df[keys == k]`. */
  function Pick<T, K(==)>(s: seq<T>, keys: seq<K>, k: K): (g: seq<T>)
    requires |s| == |keys|
    ensures |g| <= |s|
    decreases |s|
  {
    if |s| == 0 then []
    else
      Pick(s[..|s| - 1], keys[..|keys| - 1], k) + (if keys[|keys| - 1] == k then [s[|s| - 1]] else [])
  }

  lemma PickSnoc<T, K>(s: seq<T>, keys: seq<K>, x: T, kx: K, k: K)
    requires |s| == |keys|
    ensures Pick(s + [x], keys + [kx], k) == Pick(s, keys, k) + (if kx == k then [x] else [])
  {
    assert (s + [x])[..|s|] == s;
    assert (keys + [kx])[..|keys|] == keys;
  }

  /** Every key that occurs selects a non-empty group, and a key that does
      not occur selects nothing. */
  lemma {:induction false} PickNonEmpty<T, K>(s: seq<T>, keys: seq<K>, k: K)
    requires |s| == |keys|
    ensures k in keys <==> |Pick(s, keys, k)| > 0
    decreases |s|
  {
    if |s| > 0 {
      assert keys == keys[..|keys| - 1] + [keys[|keys| - 1]];
      PickNonEmpty(s[..|s| - 1], keys[..|keys| - 1], k);
    }
  }

  /** Every element of a group carries the group's key. */
  lemma {:induction false} PickMembers<T, K>(s: seq<T>, keys: seq<K>, k: K)
    requires |s| == |keys|
    ensures forall x :: x in Pick(s, keys, k) ==> exists i :: 0 <= i < |s| && s[i] == x && keys[i] == k
    decreases |s|
  {
    if |s| > 0 {
      var n := |s| - 1;
      PickMembers(s[..n], keys[..n], k);
      forall x | x in Pick(s, keys, k) ensures exists i :: 0 <= i < |s| && s[i] == x && keys[i] == k {
        if x in Pick(s[..n], keys[..n], k) {
          var i :| 0 <= i < n && s[..n][i] == x && keys[..n][i] == k;
          assert s[i] == x && keys[i] == k;
        } else {
          assert s[n] == x && keys[n] == k;
        }
      }
    }
  }

  /** The indices of `keys` that hold `k`, all of them, in increasing
      order. */
  function KeyIndices<K(==)>(keys: seq<K>, k: K): (ix: seq<nat>)
    ensures forall m :: 0 <= m < |ix| ==> ix[m] < |keys| && keys[ix[m]] == k
    ensures forall m, n :: 0 <= m < n < |ix| ==> ix[m] < ix[n]
    ensures forall i :: 0 <= i < |keys| && keys[i] == k ==> i in ix
    decreases |keys|
  {
    if |keys| == 0 then []
    else
      var n := |keys| - 1;
      var prev := KeyIndices(keys[..n], k);
      assert forall i :: 0 <= i < n ==> keys[..n][i] == keys[i];
      prev + (if keys[n] == k then [n] else [])
  }

  /** A group is the subsequence of the input at exactly the indices that
      carry its key, in input order: what `df[mask]` selects. */
  lemma {:induction false} PickAtKeyIndices<T, K>(s: seq<T>, keys: seq<K>, k: K)
    requires |s| == |keys|
    ensures |Pick(s, keys, k)| == |KeyIndices(keys, k)|
    ensures forall m :: 0 <= m < |Pick(s, keys, k)| ==> Pick(s, keys, k)[m] == s[KeyIndices(keys, k)[m]]
    decreases |s|
  {
    if |s| > 0 {
      var n := |s| - 1;
      PickAtKeyIndices(s[..n], keys[..n], k);
      var g', ix' := Pick(s[..n], keys[..n], k), KeyIndices(keys[..n], k);
      forall m | 0 <= m < |g'| ensures g'[m] == s[ix'[m]] {
        assert s[..n][ix'[m]] == s[ix'[m]];
      }
    }
  }

  /** The first row of a group is the input row where its key first
      occurs. */
  lemma PickHead<T, K>(s: seq<T>, keys: seq<K>, k: K)
    requires |s| == |keys| && k in keys
    ensures |Pick(s, keys, k)| > 0 && Pick(s, keys, k)[0] == s[IndexOf(keys, k)]
  {
    PickAtKeyIndices(s, keys, k);
    var ix := KeyIndices(keys, k);
    var i := IndexOf(keys, k);
    assert i in ix;
  }

  /** Sum, over the keys `ds` in order, of the per-group sums of `f`. */
  function GroupSum<T, K(==)>(ds: seq<K>, s: seq<T>, keys: seq<K>, f: T -> real): real
    requires |s| == |keys|
    decreases |ds|
  {
    if |ds| == 0 then 0.0
    else GroupSum(ds[..|ds| - 1], s, keys, f) + Sum(Pick(s, keys, ds[|ds| - 1]), f)
  }

  /** Appending one element to the input adds its value to exactly the one
      group (if any) of `ds` that it joins. */
  lemma {:induction false} GroupSumSnoc<T, K>(ds: seq<K>, s: seq<T>, keys: seq<K>, x: T, kx: K, f: T -> real)
    requires |s| == |keys|
    requires NoDuplicates(ds)
    ensures GroupSum(ds, s + [x], keys + [kx], f) == GroupSum(ds, s, keys, f) + (if kx in ds then f(x) else 0.0)
    decreases |ds|
  {
    if |ds| > 0 {
      var ds', d := ds[..|ds| - 1], ds[|ds| - 1];
      assert ds == ds' + [d];
      assert NoDuplicates(ds');
      GroupSumSnoc(ds', s, keys, x, kx, f);
      PickSnoc(s, keys, x, kx, d);
      if kx == d {
        SumSnoc(Pick(s, keys, d), x, f);
        assert kx !in ds';
      } else {
        assert Pick(s, keys, d) + [] == Pick(s, keys, d);
      }
    }
  }

  /** Partition law: grouping by key neither drops nor double-counts an
      element, so the group totals add up to the overall total. */
  lemma {:induction false} PartitionSum<T, K>(s: seq<T>, keys: seq<K>, f: T -> real)
    requires |s| == |keys|
    ensures GroupSum(Distinct(keys), s, keys, f) == Sum(s, f)
    decreases |s|
  {
    if |s| > 0 {
      var n := |s| - 1;
      var s', keys', x, kx := s[..n], keys[..n], s[n], keys[n];
      assert s == s' + [x] && keys == keys' + [kx];
      PartitionSum(s', keys', f);
      var d' := Distinct(keys');
      GroupSumSnoc(d', s', keys', x, kx, f);
      SumSnoc(s', x, f);
      if kx !in d' {
        var d := d' + [kx];
        assert Distinct(keys) == d;
        assert d[..|d| - 1] == d';
        PickSnoc(s', keys', x, kx, kx);
        PickNonEmpty(s', keys', kx);
        assert Pick(s', keys', kx) == [];
        SumSnoc(Pick(s', keys', kx), x, f);
        assert [] + [x] == [x];
      }
    }
  }
}
