/** The duplicate merger of kill_duplicates.py: every row gets the
    canonical key of its query; rows are grouped by key in first-seen order
    (`unique()` then one boolean mask per key) and each group is reduced to
    one row. */
module Dedup {
  import opened Sums
  import opened FirstSeen
  import opened Strings
  import opened Lemmatizer
  import opened SeqFacts

  /** One row of the analytics table, columns in file order. */
  datatype Row = Row(url: string, query: string, impressions: real, clicks: real,
                     avgPosition: real, avgCtr: real, demand: real, percentOfDemand: real,
                     forecast1: real, forecast3: real, forecast5: real,
                     branded: string, stopWords: string)

  function ImpressionsOf(r: Row): real { r.impressions }
  function ClicksOf(r: Row): real { r.clicks }
  function PositionOf(r: Row): real { r.avgPosition }
  function PercentOf(r: Row): real { r.percentOfDemand }
  function Forecast1Of(r: Row): real { r.forecast1 }
  function Forecast3Of(r: Row): real { r.forecast3 }
  function Forecast5Of(r: Row): real { r.forecast5 }

  /** `i` is the first row of the group with the largest demand: what
      `idxmax` picks. */
  predicate FirstMaxDemand(g: seq<Row>, i: nat) {
    i < |g| && (forall j :: 0 <= j < |g| ==> g[j].demand <= g[i].demand) &&
    forall j :: 0 <= j < i ==> g[j].demand < g[i].demand
  }

  function ArgMaxDemand(g: seq<Row>): (i: nat)
    requires |g| > 0
    ensures FirstMaxDemand(g, i)
    decreases |g|
  {
    if |g| == 1 then 0
    else
      var i := ArgMaxDemand(g[..|g| - 1]);
      assert forall j :: 0 <= j < |g| - 1 ==> g[j] == g[..|g| - 1][j];
      if g[|g| - 1].demand > g[i].demand then |g| - 1 else i
  }

  /** Smallest and largest value of `f` over a non-empty group. */
  function MinOf(g: seq<Row>, f: Row -> real): (m: real)
    requires |g| > 0
    ensures forall j :: 0 <= j < |g| ==> m <= f(g[j])
    ensures exists j :: 0 <= j < |g| && m == f(g[j])
    decreases |g|
  {
    if |g| == 1 then f(g[0])
    else
      var m := MinOf(g[..|g| - 1], f);
      assert forall j :: 0 <= j < |g| - 1 ==> g[j] == g[..|g| - 1][j];
      if f(g[|g| - 1]) < m then f(g[|g| - 1]) else m
  }

  function MaxOf(g: seq<Row>, f: Row -> real): (m: real)
    requires |g| > 0
    ensures forall j :: 0 <= j < |g| ==> f(g[j]) <= m
    ensures exists j :: 0 <= j < |g| && m == f(g[j])
    decreases |g|
  {
    if |g| == 1 then f(g[0])
    else
      var m := MaxOf(g[..|g| - 1], f);
      assert forall j :: 0 <= j < |g| - 1 ==> g[j] == g[..|g| - 1][j];
      if f(g[|g| - 1]) > m then f(g[|g| - 1]) else m
  }

  lemma {:induction false} SumWithin(g: seq<Row>, f: Row -> real, lo: real, hi: real)
    requires forall j :: 0 <= j < |g| ==> lo <= f(g[j]) <= hi
    ensures |g| as real * lo <= Sum(g, f) <= |g| as real * hi
    decreases |g|
  {
    if |g| > 0 {
      var n := |g| - 1;
      assert forall j :: 0 <= j < n ==> g[..n][j] == g[j];
      SumWithin(g[..n], f, lo, hi);
      assert (n + 1) as real * lo == n as real * lo + lo;
      assert (n + 1) as real * hi == n as real * hi + hi;
    }
  }

  lemma DivWithin(s: real, n: real, lo: real, hi: real)
    requires n > 0.0 && n * lo <= s <= n * hi
    ensures lo <= s / n <= hi
  {
  }

  /** pandas `mean()`. */
  function Mean(g: seq<Row>, f: Row -> real): (m: real)
    requires |g| > 0
    ensures MinOf(g, f) <= m <= MaxOf(g, f)
  {
    var lo, hi, total, n := MinOf(g, f), MaxOf(g, f), Sum(g, f), |g| as real;
    SumWithin(g, f, lo, hi);
    DivWithin(total, n, lo, hi);
    total / n
  }

  /** `Ср. CTR` of a group: summed clicks over summed impressions, or 0
      when the summed impressions are not positive. */
  function GroupCtr(g: seq<Row>): real {
    if Sum(g, ImpressionsOf) > 0.0 then Sum(g, ClicksOf) / Sum(g, ImpressionsOf) else 0.0
  }

  lemma GroupCtrMeaning(g: seq<Row>)
    ensures Sum(g, ImpressionsOf) > 0.0 ==> GroupCtr(g) * Sum(g, ImpressionsOf) == Sum(g, ClicksOf)
    ensures Sum(g, ImpressionsOf) <= 0.0 ==> GroupCtr(g) == 0.0
  {
  }

  /** The row that replaces a group (lines 52-69); what it holds is
      stated by `MergeGroupMeaning`. */
  function MergeGroup(g: seq<Row>): Row
    requires |g| > 0
  {
    var main := ArgMaxDemand(g);
    Row(g[0].url, g[main].query, Sum(g, ImpressionsOf), Sum(g, ClicksOf), Mean(g, PositionOf),
        GroupCtr(g), MaxOf(g, (r: Row) => r.demand), Mean(g, PercentOf),
        Sum(g, Forecast1Of), Sum(g, Forecast3Of), Sum(g, Forecast5Of), g[0].branded, g[0].stopWords)
  }

  /** The merged row: URL, brand flag and stop word of the group's first
      row; query and demand of its first row with the largest demand;
      summed impressions, clicks and forecasts; the guarded CTR ratio; and
      mean position and demand share, each between the group's extremes. */
  lemma MergeGroupMeaning(g: seq<Row>)
    requires |g| > 0
    ensures var r := MergeGroup(g);
      && r.url == g[0].url && r.branded == g[0].branded && r.stopWords == g[0].stopWords
      && (exists i: nat :: FirstMaxDemand(g, i) && r.query == g[i].query && r.demand == g[i].demand)
      && r.impressions == Sum(g, ImpressionsOf) && r.clicks == Sum(g, ClicksOf)
      && r.forecast1 == Sum(g, Forecast1Of) && r.forecast3 == Sum(g, Forecast3Of)
      && r.forecast5 == Sum(g, Forecast5Of)
      && r.avgCtr == GroupCtr(g)
      && MinOf(g, PositionOf) <= r.avgPosition <= MaxOf(g, PositionOf)
      && MinOf(g, PercentOf) <= r.percentOfDemand <= MaxOf(g, PercentOf)
  {
    var i := ArgMaxDemand(g);
    var m := MaxOf(g, (r: Row) => r.demand);
    assert m == g[i].demand;
  }

  /** `i` is the first input row, in input order, with key `key` and the
      largest demand among the rows with that key. */
  predicate FirstMaxDemandRow(rows: seq<Row>, keys: seq<string>, key: string, i: int) {
    && 0 <= i < |rows| == |keys| && keys[i] == key
    && (forall j :: 0 <= j < |rows| && keys[j] == key ==> rows[j].demand <= rows[i].demand)
    && (forall j :: 0 <= j < i && keys[j] == key ==> rows[j].demand < rows[i].demand)
  }

  /** A group `g` read off the input at the increasing indices `ix`, which
      are all the indices with `key`: its first largest-demand row is the
      input's first largest-demand row with `key`. */
  lemma MaxAtIndices(rows: seq<Row>, keys: seq<string>, key: string, g: seq<Row>, ix: seq<nat>, a: nat)
    requires |rows| == |keys| && |g| == |ix| && FirstMaxDemand(g, a)
    requires forall m :: 0 <= m < |ix| ==> ix[m] < |keys| && keys[ix[m]] == key && g[m] == rows[ix[m]]
    requires forall m, n :: 0 <= m < n < |ix| ==> ix[m] < ix[n]
    requires forall i :: 0 <= i < |keys| && keys[i] == key ==> i in ix
    ensures FirstMaxDemandRow(rows, keys, key, ix[a])
  {
    var i := ix[a];
    forall j | 0 <= j < |rows| && keys[j] == key ensures rows[j].demand <= rows[i].demand {
      var m :| 0 <= m < |ix| && ix[m] == j;
      assert g[m] == rows[j];
    }
    forall j | 0 <= j < i && keys[j] == key ensures rows[j].demand < rows[i].demand {
      var m :| 0 <= m < |ix| && ix[m] == j;
      assert m < a;
      assert g[m] == rows[j];
    }
  }

  /** The first row of a group with the largest demand is, in the input,
      the first row with the group's key and the largest demand. */
  lemma GroupMaxIsInputMax(rows: seq<Row>, keys: seq<string>, key: string, a: nat)
    requires |rows| == |keys| && FirstMaxDemand(Pick(rows, keys, key), a)
    ensures a < |KeyIndices(keys, key)| && Pick(rows, keys, key)[a] == rows[KeyIndices(keys, key)[a]]
    ensures FirstMaxDemandRow(rows, keys, key, KeyIndices(keys, key)[a])
  {
    PickAtKeyIndices(rows, keys, key);
    MaxAtIndices(rows, keys, key, Pick(rows, keys, key), KeyIndices(keys, key), a);
  }

  /** The merged row of a key, in terms of the input: query and demand
      come from the first row, in input order, with the largest demand
      among that key's rows. */
  lemma MergedRowFromInput(rows: seq<Row>, keys: seq<string>, key: string)
    requires |rows| == |keys| && key in keys
    ensures |Pick(rows, keys, key)| > 0
    ensures var r := MergeGroup(Pick(rows, keys, key));
      exists i :: FirstMaxDemandRow(rows, keys, key, i) && r.query == rows[i].query && r.demand == rows[i].demand
  {
    PickNonEmpty(rows, keys, key);
    var g := Pick(rows, keys, key);
    var a := ArgMaxDemand(g);
    GroupMaxIsInputMax(rows, keys, key, a);
    var i := KeyIndices(keys, key)[a];
    assert MergeGroup(g).query == g[a].query;
    assert MergeGroup(g).demand == MaxOf(g, (r: Row) => r.demand) == g[a].demand;
    assert FirstMaxDemandRow(rows, keys, key, i);
  }

  /** URL, brand flag and stop word of a key's merged row come from the
      first input row with that key. */
  lemma MergedRowFirstFields(rows: seq<Row>, keys: seq<string>, key: string)
    requires |rows| == |keys| && key in keys
    ensures |Pick(rows, keys, key)| > 0
    ensures var r, f := MergeGroup(Pick(rows, keys, key)), IndexOf(keys, key);
      r.url == rows[f].url && r.branded == rows[f].branded && r.stopWords == rows[f].stopWords
  {
    PickHead(rows, keys, key);
  }

  /** The merged rows of the keys `ds`, in that order. */
  function MergedFor(rows: seq<Row>, keys: seq<string>, ds: seq<string>): (out: seq<Row>)
    requires |rows| == |keys|
    requires forall k :: 0 <= k < |ds| ==> ds[k] in keys
    ensures |out| == |ds|
  {
    seq(|ds|, k requires 0 <= k < |ds| =>
      PickNonEmpty(rows, keys, ds[k]);
      MergeGroup(Pick(rows, keys, ds[k])))
  }

  /** The merger's output: one row per distinct key, first-seen order. */
  function Merged(rows: seq<Row>, keys: seq<string>): seq<Row>
    requires |rows| == |keys|
  {
    MergedFor(rows, keys, Distinct(keys))
  }

  lemma MergedForSnoc(rows: seq<Row>, keys: seq<string>, ds: seq<string>, d: string)
    requires |rows| == |keys|
    requires forall k :: 0 <= k < |ds| ==> ds[k] in keys
    requires d in keys
    ensures |Pick(rows, keys, d)| > 0 &&
            MergedFor(rows, keys, ds + [d]) == MergedFor(rows, keys, ds) + [MergeGroup(Pick(rows, keys, d))]
  {
    PickNonEmpty(rows, keys, d);
  }

  /** The loop over `unique()` keys, appending one merged row per key. */
  method MergeDuplicates(rows: seq<Row>, keys: seq<string>) returns (out: seq<Row>)
    requires |rows| == |keys|
    ensures out == Merged(rows, keys)
  {
    var unique := Distinct(keys);
    out := [];
    for k := 0 to |unique|
      invariant out == MergedFor(rows, keys, unique[..k])
    {
      var similar := Pick(rows, keys, unique[k]);
      MergedForSnoc(rows, keys, unique[..k], unique[k]);
      PrefixSnoc(unique, k);
      out := out + [MergeGroup(similar)];
    }
    PrefixAll(unique);
  }

  /** The keys `df['Запрос'].apply(lemmatize)`. */
  function Keys(rows: seq<Row>, cc: CharClasses, analyse: string -> seq<Token>): (keys: seq<string>)
    ensures |keys| == |rows|
    ensures forall i :: 0 <= i < |rows| ==> keys[i] == CanonicalKey(rows[i].query, cc, analyse)
  {
    seq(|rows|, i requires 0 <= i < |rows| => CanonicalKey(rows[i].query, cc, analyse))
  }

  /** The script's body: key every row, then merge. */
  method Deduplicate(rows: seq<Row>, cc: CharClasses, analyse: string -> seq<Token>) returns (out: seq<Row>)
    ensures out == Merged(rows, Keys(rows, cc, analyse))
  {
    var keys: seq<string> := [];
    for i := 0 to |rows|
      invariant keys == Keys(rows[..i], cc, analyse)
    {
      var key := Lemmatize(rows[i].query, cc, analyse);
      keys := keys + [key];
    }
    assert rows[..|rows|] == rows;
    out := MergeDuplicates(rows, keys);
  }

  /** The representative of a group is one of the group's rows, so it
      carries the group's key. */
  lemma RepresentativeHasKey(rows: seq<Row>, keys: seq<string>, key: string)
    requires |rows| == |keys| && key in keys
    ensures |Pick(rows, keys, key)| > 0 &&
            exists j :: 0 <= j < |rows| && keys[j] == key && rows[j].query == MergeGroup(Pick(rows, keys, key)).query
  {
    PickNonEmpty(rows, keys, key);
    var g := Pick(rows, keys, key);
    PickMembers(rows, keys, key);
    var i := ArgMaxDemand(g);
    assert MergeGroup(g).query == g[i].query;
    assert g[i] in g;
    var j :| 0 <= j < |rows| && rows[j] == g[i] && keys[j] == key;
  }

  /** Each merged row stands for a key no other merged row has, and its
      representative query has that key. */
  lemma MergedRowsAreGroups(rows: seq<Row>, cc: CharClasses, analyse: string -> seq<Token>)
    ensures var keys := Keys(rows, cc, analyse);
            var out := Merged(rows, keys);
            |out| == |Distinct(keys)| &&
            (forall k :: 0 <= k < |out| ==> CanonicalKey(out[k].query, cc, analyse) == Distinct(keys)[k]) &&
            forall k, l :: 0 <= k < l < |out| ==> Distinct(keys)[k] != Distinct(keys)[l]
  {
    var keys := Keys(rows, cc, analyse);
    var d := Distinct(keys);
    var out := Merged(rows, keys);
    forall k | 0 <= k < |out| ensures CanonicalKey(out[k].query, cc, analyse) == d[k] {
      RepresentativeHasKey(rows, keys, d[k]);
    }
  }

  /** Over the merged rows of `ds`, impressions and clicks add up to the
      totals of the groups of `ds`. */
  lemma {:induction false} MergedForCounts(rows: seq<Row>, keys: seq<string>, ds: seq<string>)
    requires |rows| == |keys|
    requires forall k :: 0 <= k < |ds| ==> ds[k] in keys
    ensures Sum(MergedFor(rows, keys, ds), ImpressionsOf) == GroupSum(ds, rows, keys, ImpressionsOf)
    ensures Sum(MergedFor(rows, keys, ds), ClicksOf) == GroupSum(ds, rows, keys, ClicksOf)
    decreases |ds|
  {
    if |ds| > 0 {
      var n := |ds| - 1;
      MergedForLast(rows, keys, ds);
      var prev := MergedFor(rows, keys, ds[..n]);
      var r := MergeGroup(Pick(rows, keys, ds[n]));
      MergedForCounts(rows, keys, ds[..n]);
      SumSnoc(prev, r, ImpressionsOf);
      SumSnoc(prev, r, ClicksOf);
    }
  }

  /** Likewise for the three forecast columns. */
  lemma {:induction false} MergedForForecasts(rows: seq<Row>, keys: seq<string>, ds: seq<string>)
    requires |rows| == |keys|
    requires forall k :: 0 <= k < |ds| ==> ds[k] in keys
    ensures Sum(MergedFor(rows, keys, ds), Forecast1Of) == GroupSum(ds, rows, keys, Forecast1Of)
    ensures Sum(MergedFor(rows, keys, ds), Forecast3Of) == GroupSum(ds, rows, keys, Forecast3Of)
    ensures Sum(MergedFor(rows, keys, ds), Forecast5Of) == GroupSum(ds, rows, keys, Forecast5Of)
    decreases |ds|
  {
    if |ds| > 0 {
      var n := |ds| - 1;
      MergedForLast(rows, keys, ds);
      var prev := MergedFor(rows, keys, ds[..n]);
      var r := MergeGroup(Pick(rows, keys, ds[n]));
      MergedForForecasts(rows, keys, ds[..n]);
      SumSnoc(prev, r, Forecast1Of);
      SumSnoc(prev, r, Forecast3Of);
      SumSnoc(prev, r, Forecast5Of);
    }
  }

  lemma MergedForLast(rows: seq<Row>, keys: seq<string>, ds: seq<string>)
    requires |rows| == |keys| && |ds| > 0
    requires forall k :: 0 <= k < |ds| ==> ds[k] in keys
    ensures |Pick(rows, keys, ds[|ds| - 1])| > 0 &&
            MergedFor(rows, keys, ds) ==
              MergedFor(rows, keys, ds[..|ds| - 1]) + [MergeGroup(Pick(rows, keys, ds[|ds| - 1]))]
  {
    var n := |ds| - 1;
    PrefixSnoc(ds, n);
    PrefixAll(ds);
    MergedForSnoc(rows, keys, ds[..n], ds[n]);
  }

  /** Grouping neither drops nor double-counts a row: impressions, clicks
      and the three forecasts add up to the same totals before and after. */
  lemma MergeConservesTotals(rows: seq<Row>, keys: seq<string>)
    requires |rows| == |keys|
    ensures Sum(Merged(rows, keys), ImpressionsOf) == Sum(rows, ImpressionsOf)
    ensures Sum(Merged(rows, keys), ClicksOf) == Sum(rows, ClicksOf)
    ensures Sum(Merged(rows, keys), Forecast1Of) == Sum(rows, Forecast1Of)
    ensures Sum(Merged(rows, keys), Forecast3Of) == Sum(rows, Forecast3Of)
    ensures Sum(Merged(rows, keys), Forecast5Of) == Sum(rows, Forecast5Of)
  {
    MergedForCounts(rows, keys, Distinct(keys));
    MergedForForecasts(rows, keys, Distinct(keys));
    PartitionSum(rows, keys, ImpressionsOf);
    PartitionSum(rows, keys, ClicksOf);
    PartitionSum(rows, keys, Forecast1Of);
    PartitionSum(rows, keys, Forecast3Of);
    PartitionSum(rows, keys, Forecast5Of);
  }
}
