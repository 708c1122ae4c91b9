/** `calculate_average_ctr_per_position` of ws.py: every POSITION statistic
    not above 15 sends its item's first CLICKS and first IMPRESSIONS values
    to the bucket `int(value)` of a `defaultdict`. */
module QueryCtr {
  import opened Numbers
  import opened Statistics
  import opened CtrTable
  import opened SeqFacts

  /** The guard: a POSITION statistic whose value is at most 15. There is
      no lower bound. */
  predicate Qualifies(st: Stat) {
    st.field == Position && st.value <= 15.0
  }

  /** Number of qualifying statistics that truncate to bucket `p`. */
  function QualCount(stats: seq<Stat>, p: int): (n: nat)
    ensures n <= |stats|
    decreases |stats|
  {
    if |stats| == 0 then 0
    else
      var last := stats[|stats| - 1];
      QualCount(stats[..|stats| - 1], p) + (if Qualifies(last) && Trunc(last.value) == p then 1 else 0)
  }

  /** The buckets the statistics touch. */
  function StatRanks(stats: seq<Stat>): (ranks: set<int>)
    ensures forall p :: p in ranks ==> p <= 15
    decreases |stats|
  {
    if |stats| == 0 then {}
    else
      var last := stats[|stats| - 1];
      StatRanks(stats[..|stats| - 1]) + (if Qualifies(last) then {Trunc(last.value)} else {})
  }

  /** The buckets the items touch: the keys of the resulting table. */
  function Ranks(items: seq<Item>): (ranks: set<int>)
    ensures forall p :: p in ranks ==> p <= 15
    decreases |items|
  {
    if |items| == 0 then {} else Ranks(items[..|items| - 1]) + StatRanks(items[|items| - 1].stats)
  }

  /** `v` added `n` times, as the loop adds it. */
  function Times(n: nat, v: real): real {
    if n == 0 then 0.0 else Times(n - 1, v) + v
  }

  lemma {:induction false} TimesIsProduct(n: nat, v: real)
    ensures Times(n, v) == n as real * v
  {
    if n > 0 {
      TimesIsProduct(n - 1, v);
      assert n as real * v == (n - 1) as real * v + v;
    }
  }

  /** What one item adds to bucket `p`: its first CLICKS value once per
      qualifying POSITION statistic in that bucket. */
  function ItemClicksAt(it: Item, p: int): real {
    Times(QualCount(it.stats, p), FirstValue(it.stats, Clicks))
  }

  function ItemShowsAt(it: Item, p: int): real {
    Times(QualCount(it.stats, p), FirstValue(it.stats, Impressions))
  }

  function ClicksByRank(items: seq<Item>, p: int): real
    decreases |items|
  {
    if |items| == 0 then 0.0 else ClicksByRank(items[..|items| - 1], p) + ItemClicksAt(items[|items| - 1], p)
  }

  function ShowsByRank(items: seq<Item>, p: int): real
    decreases |items|
  {
    if |items| == 0 then 0.0 else ShowsByRank(items[..|items| - 1], p) + ItemShowsAt(items[|items| - 1], p)
  }

  /** The state of the table part-way through item `stats`, whose first
      CLICKS and IMPRESSIONS values are `c` and `m`. */
  ghost predicate Tabulated(table: map<int, Bucket>, done: seq<Item>, stats: seq<Stat>, j: nat, c: real, m: real)
    requires j <= |stats|
  {
    && table.Keys == Ranks(done) + StatRanks(stats[..j])
    && forall p :: Get(table, p) ==
         Bucket(ClicksByRank(done, p) + Times(QualCount(stats[..j], p), c),
                ShowsByRank(done, p) + Times(QualCount(stats[..j], p), m))
  }

  /** Extending the prefix of statistics by one. */
  lemma PrefixStep(stats: seq<Stat>, j: nat)
    requires j < |stats|
    ensures forall p :: QualCount(stats[..j + 1], p) ==
              QualCount(stats[..j], p) + (if Qualifies(stats[j]) && Trunc(stats[j].value) == p then 1 else 0)
    ensures StatRanks(stats[..j + 1]) == StatRanks(stats[..j]) + (if Qualifies(stats[j]) then {Trunc(stats[j].value)} else {})
  {
    assert stats[..j + 1][..j] == stats[..j];
  }

  /** The bucket the next statistic sends its values to. */
  function Bumped(table: map<int, Bucket>, pos: int, c: real, m: real): map<int, Bucket> {
    var b := Get(table, pos);
    table[pos := Bucket(b.clicks + c, b.impressions + m)]
  }

  lemma TabulatedStep(table: map<int, Bucket>, done: seq<Item>, stats: seq<Stat>, j: nat, c: real, m: real)
    requires j < |stats| && Tabulated(table, done, stats, j, c, m)
    ensures Qualifies(stats[j]) ==> Tabulated(Bumped(table, Trunc(stats[j].value), c, m), done, stats, j + 1, c, m)
    ensures !Qualifies(stats[j]) ==> Tabulated(table, done, stats, j + 1, c, m)
  {
    PrefixStep(stats, j);
    if Qualifies(stats[j]) {
      var pos := Trunc(stats[j].value);
      var table' := Bumped(table, pos, c, m);
      assert table'.Keys == table.Keys + {pos};
      forall p ensures Get(table', p) ==
               Bucket(ClicksByRank(done, p) + Times(QualCount(stats[..j + 1], p), c),
                      ShowsByRank(done, p) + Times(QualCount(stats[..j + 1], p), m))
      {
        BumpedValue(table, done, stats, j, c, m, p);
      }
    }
  }

  lemma BumpedValue(table: map<int, Bucket>, done: seq<Item>, stats: seq<Stat>, j: nat, c: real, m: real, p: int)
    requires j < |stats| && Tabulated(table, done, stats, j, c, m) && Qualifies(stats[j])
    requires forall p :: QualCount(stats[..j + 1], p) ==
               QualCount(stats[..j], p) + (if Qualifies(stats[j]) && Trunc(stats[j].value) == p then 1 else 0)
    ensures Get(Bumped(table, Trunc(stats[j].value), c, m), p) ==
              Bucket(ClicksByRank(done, p) + Times(QualCount(stats[..j + 1], p), c),
                     ShowsByRank(done, p) + Times(QualCount(stats[..j + 1], p), m))
  {
    var n := QualCount(stats[..j], p);
    if p == Trunc(stats[j].value) {
      assert QualCount(stats[..j + 1], p) == n + 1;
      assert Times(n + 1, c) == Times(n, c) + c;
      assert Times(n + 1, m) == Times(n, m) + m;
    } else {
      assert QualCount(stats[..j + 1], p) == n;
    }
  }

  lemma TabulatedStart(table: map<int, Bucket>, done: seq<Item>, it: Item)
    requires Tabulated(table, done, [], 0, 0.0, 0.0)
    ensures Tabulated(table, done, it.stats, 0, FirstValue(it.stats, Clicks), FirstValue(it.stats, Impressions))
  {
    assert it.stats[..0] == [];
  }

  lemma TabulatedItem(table: map<int, Bucket>, done: seq<Item>, it: Item)
    requires Tabulated(table, done, it.stats, |it.stats|, FirstValue(it.stats, Clicks), FirstValue(it.stats, Impressions))
    ensures Tabulated(table, done + [it], [], 0, 0.0, 0.0)
  {
    assert it.stats[..|it.stats|] == it.stats;
    assert (done + [it])[..|done|] == done;
  }

  /** The body of the inner loop: one statistic of an item whose first
      CLICKS and IMPRESSIONS values are `clicks` and `impressions`. */
  method AddStat(table0: map<int, Bucket>, ghost done: seq<Item>, stats: seq<Stat>, j: nat,
                 clicks: real, impressions: real) returns (table: map<int, Bucket>)
    requires j < |stats| && Tabulated(table0, done, stats, j, clicks, impressions)
    ensures Tabulated(table, done, stats, j + 1, clicks, impressions)
  {
    TabulatedStep(table0, done, stats, j, clicks, impressions);
    table := table0;
    if Qualifies(stats[j]) {
      var pos := Trunc(stats[j].value);
      var b := Get(table, pos);
      table := table[pos := Bucket(b.clicks + clicks, b.impressions + impressions)];
    }
  }

  /** The inner loop: one item's statistics. */
  method AddItem(table0: map<int, Bucket>, ghost done: seq<Item>, it: Item) returns (table: map<int, Bucket>)
    requires Tabulated(table0, done, [], 0, 0.0, 0.0)
    ensures Tabulated(table, done + [it], [], 0, 0.0, 0.0)
  {
    var stats := it.stats;
    var clicks := FirstValue(stats, Clicks);
    var impressions := FirstValue(stats, Impressions);
    TabulatedStart(table0, done, it);
    table := table0;
    for j := 0 to |stats|
      invariant Tabulated(table, done, stats, j, clicks, impressions)
    {
      table := AddStat(table, done, stats, j, clicks, impressions);
    }
    TabulatedItem(table, done, it);
  }

  /** The dict after all items: exactly the touched buckets, each holding
      the clicks and impressions its statistics sent it. */
  method AverageCtrPerPosition(items: seq<Item>) returns (table: map<int, Bucket>)
    ensures table.Keys == Ranks(items)
    ensures forall p :: p in table ==> table[p] == Bucket(ClicksByRank(items, p), ShowsByRank(items, p))
  {
    table := map[];
    assert Tabulated(table, items[..0], [], 0, 0.0, 0.0);
    for i := 0 to |items|
      invariant Tabulated(table, items[..i], [], 0, 0.0, 0.0)
    {
      table := AddItem(table, items[..i], items[i]);
      PrefixSnoc(items, i);
    }
    PrefixAll(items);
    assert forall p :: p in table ==> table[p] == Get(table, p);
  }

  /** A bucket is a key exactly when some item has a qualifying POSITION
      statistic that truncates to it. */
  lemma {:induction false} StatRanksMeaning(stats: seq<Stat>, p: int)
    ensures p in StatRanks(stats) <==> QualCount(stats, p) > 0
    decreases |stats|
  {
    if |stats| > 0 {
      StatRanksMeaning(stats[..|stats| - 1], p);
    }
  }

  lemma {:induction false} RanksMeaning(items: seq<Item>, p: int)
    ensures p in Ranks(items) <==> exists i :: 0 <= i < |items| && QualCount(items[i].stats, p) > 0
    decreases |items|
  {
    if |items| > 0 {
      var n := |items| - 1;
      var prefix := items[..n];
      RanksMeaning(prefix, p);
      StatRanksMeaning(items[n].stats, p);
      assert Ranks(items) == Ranks(prefix) + StatRanks(items[n].stats);
      if p in Ranks(items) {
        if p in Ranks(prefix) {
          var i :| 0 <= i < n && QualCount(prefix[i].stats, p) > 0;
          assert prefix[i] == items[i];
        } else {
          assert QualCount(items[n].stats, p) > 0;
        }
      } else {
        forall i | 0 <= i < |items| ensures QualCount(items[i].stats, p) == 0 {
          if i < n {
            assert prefix[i] == items[i];
          }
        }
      }
    }
  }

  /** An untouched bucket would hold nothing: the `defaultdict` reports
      only positions that occur. */
  lemma {:induction false} UntouchedIsZero(items: seq<Item>, p: int)
    requires p !in Ranks(items)
    ensures ClicksByRank(items, p) == 0.0 && ShowsByRank(items, p) == 0.0
    decreases |items|
  {
    if |items| > 0 {
      UntouchedIsZero(items[..|items| - 1], p);
      StatRanksMeaning(items[|items| - 1].stats, p);
    }
  }
}
