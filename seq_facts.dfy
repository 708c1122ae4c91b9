/** Small facts about slicing and concatenating sequences, stated once so
    that proofs about the model's functions need not re-derive them. */
module SeqFacts {

  /** A sequence is its part before index `m`, its element at `m` and its
      part after `m`. */
  lemma SplitAround<T>(t: seq<T>, m: nat)
    requires m < |t|
    ensures t == t[..m] + [t[m]] + t[m + 1..]
  {
    assert t[m..] == [t[m]] + t[m + 1..];
    assert t == t[..m] + t[m..];
  }

  /** A non-empty sequence is its head followed by its tail. */
  lemma HeadTail<T>(s: seq<T>)
    requires |s| > 0
    ensures s == [s[0]] + s[1..]
  {
  }

  /** The prefix of length `k + 1` extends the prefix of length `k`. */
  lemma PrefixSnoc<T>(s: seq<T>, k: nat)
    requires k < |s|
    ensures s[..k + 1] == s[..k] + [s[k]]
  {
  }

  lemma PrefixAll<T>(s: seq<T>)
    ensures s[..|s|] == s
  {
  }

  /** Concatenation is associative; stated as a lemma so that a proof can
      call it at the one step where the solver needs it. */
  lemma Assoc<T>(a: seq<T>, b: seq<T>, c: seq<T>)
    ensures a + (b + c) == a + b + c
  {
  }

  /** `Assoc` with a single element in front. */
  lemma ConsAssoc<T>(x: T, a: seq<T>, b: seq<T>)
    ensures [x] + (a + b) == [x] + a + b
  {
  }

  /** A prefix of a suffix is a slice of the whole. */
  lemma SliceOfSuffix<T>(s: seq<T>, a: nat, b: nat)
    requires a <= b <= |s|
    ensures s[a..][..b - a] == s[a..b]
  {
  }

  /** A slice holds no element more often than the whole sequence. */
  lemma SliceMultiset<T>(s: seq<T>, a: nat, b: nat)
    requires a <= b <= |s|
    ensures multiset(s[a..b]) <= multiset(s)
  {
    assert s == s[..a] + s[a..b] + s[b..];
  }
}
