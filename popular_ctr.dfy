/** The position-bucket loop of `process_site_ctr` in ws.py (and its
    discarded twin in `get_popular_queries_ctr`): the clicks and shows of
    each popular query are added to the bucket of its rounded average click
    position, for positions 1 to 15. */
module PopularCtr {
  import opened Wrappers
  import opened Numbers
  import opened CtrTable

  /** The indicators of one popular query; a missing or null
      `AVG_CLICK_POSITION` is `None`. */
  datatype PopularQuery = PopularQuery(avgClickPosition: Option<real>, totalShows: real, totalClicks: real)

  const MaxRank := 15

  /** `round(avg_click_position or 0)`. */
  function RankOf(q: PopularQuery): int {
    Round(q.avgClickPosition.GetOr(0.0))
  }

  predicate InTable(p: int) { 1 <= p <= MaxRank }

  /** `range(1, 16)`. */
  const Positions: set<int> := set p | 1 <= p <= MaxRank

  /** Clicks of the queries whose rank is `p`. */
  function ClicksAt(qs: seq<PopularQuery>, p: int): real
    decreases |qs|
  {
    if |qs| == 0 then 0.0
    else ClicksAt(qs[..|qs| - 1], p) + (if RankOf(qs[|qs| - 1]) == p then qs[|qs| - 1].totalClicks else 0.0)
  }

  /** Shows of the queries whose rank is `p`. */
  function ShowsAt(qs: seq<PopularQuery>, p: int): real
    decreases |qs|
  {
    if |qs| == 0 then 0.0
    else ShowsAt(qs[..|qs| - 1], p) + (if RankOf(qs[|qs| - 1]) == p then qs[|qs| - 1].totalShows else 0.0)
  }

  /** The loop: the table starts with the zero bucket at every position
      1..15 and only a query whose rank lies there changes it. */
  method BuildPositionTable(qs: seq<PopularQuery>) returns (table: map<int, Bucket>)
    ensures forall p :: p in table <==> InTable(p)
    ensures forall p :: InTable(p) ==> table[p] == Bucket(ClicksAt(qs, p), ShowsAt(qs, p))
  {
    table := map p | p in Positions :: Zero;
    for i := 0 to |qs|
      invariant forall p :: p in table <==> InTable(p)
      invariant forall p :: InTable(p) ==> table[p] == Bucket(ClicksAt(qs[..i], p), ShowsAt(qs[..i], p))
    {
      assert qs[..i + 1][..i] == qs[..i];
      var q := qs[i];
      var position := RankOf(q);
      if 1 <= position <= MaxRank {
        var b := table[position];
        table := table[position := Bucket(b.clicks + q.totalClicks, b.impressions + q.totalShows)];
      }
    }
    assert qs[..|qs|] == qs;
  }

  /** Clicks of the queries whose rank lies in 1..15. */
  function InTableClicks(qs: seq<PopularQuery>): real
    decreases |qs|
  {
    if |qs| == 0 then 0.0
    else InTableClicks(qs[..|qs| - 1]) + (if InTable(RankOf(qs[|qs| - 1])) then qs[|qs| - 1].totalClicks else 0.0)
  }

  /** Sum of the bucket clicks at positions 1..n. */
  function ClicksUpTo(qs: seq<PopularQuery>, n: nat): real {
    if n == 0 then 0.0 else ClicksUpTo(qs, n - 1) + ClicksAt(qs, n)
  }

  lemma {:induction false} ClicksUpToSnoc(qs: seq<PopularQuery>, q: PopularQuery, n: nat)
    ensures ClicksUpTo(qs + [q], n) ==
            ClicksUpTo(qs, n) + (if 1 <= RankOf(q) <= n then q.totalClicks else 0.0)
  {
    assert (qs + [q])[..|qs|] == qs;
    if n > 0 {
      ClicksUpToSnoc(qs, q, n - 1);
    }
  }

  /** The table conserves clicks: its buckets together hold exactly the
      clicks of the queries ranked 1..15, and nothing else. */
  lemma {:induction false} TableConservesClicks(qs: seq<PopularQuery>)
    ensures ClicksUpTo(qs, MaxRank) == InTableClicks(qs)
    decreases |qs|
  {
    if |qs| == 0 {
      assert ClicksUpTo(qs, MaxRank) == 0.0 by {
        var n := 0;
        while n < MaxRank
          invariant n <= MaxRank && ClicksUpTo(qs, n) == 0.0
        {
          n := n + 1;
        }
      }
    } else {
      var n := |qs| - 1;
      assert qs == qs[..n] + [qs[n]];
      TableConservesClicks(qs[..n]);
      ClicksUpToSnoc(qs[..n], qs[n], MaxRank);
    }
  }

  /** When no query claims more clicks than shows, no bucket does, so every
      saved CTR lies in [0, 1]. */
  lemma {:induction false} BucketsBounded(qs: seq<PopularQuery>, p: int)
    requires forall i :: 0 <= i < |qs| ==> 0.0 <= qs[i].totalClicks <= qs[i].totalShows
    ensures 0.0 <= ClicksAt(qs, p) <= ShowsAt(qs, p)
    ensures 0.0 <= SavedCtr(Bucket(ClicksAt(qs, p), ShowsAt(qs, p))) <= 1.0
    decreases |qs|
  {
    if |qs| > 0 {
      BucketsBounded(qs[..|qs| - 1], p);
    }
  }
}
