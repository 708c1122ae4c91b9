/** `format_query_analytics` of ws.py: statistics are accumulated per query
    text in a dict (first-seen order), then each text yields one report row
    with totals, the rounded average position, the average CTR and the share
    of demand covered by impressions. */
module QueryAnalytics {
  import opened Wrappers
  import opened Sums
  import opened Numbers
  import opened FirstSeen
  import opened Statistics
  import opened SeqFacts

  /** The per-text accumulators of the source's `query_summary` dict. */
  datatype Summary = Summary(impressions: real, clicks: real, positionSum: real,
                             ctrSum: real, demand: real, count: nat)

  const Empty := Summary(0.0, 0.0, 0.0, 0.0, 0.0, 0)

  /** One report row. */
  datatype QueryRow = QueryRow(query: string, totalImpressions: real, totalClicks: real,
                               averagePosition: int, averageCtr: real, totalDemand: real,
                               percentImpressionsDemand: real)

  /** The error the source raises: the share of demand of a text whose total
      demand is zero is a division by zero. */
  datatype ZeroDemand = ZeroDemand(query: string)

  /** One step of the `if/elif` chain: a statistic feeds exactly the
      accumulator of its own kind; a POSITION statistic also counts. */
  function Accumulate(s: Summary, st: Stat): Summary {
    match st.field
    case Impressions => s.(impressions := s.impressions + st.value)
    case Clicks => s.(clicks := s.clicks + st.value)
    case Position => s.(count := s.count + 1, positionSum := s.positionSum + st.value)
    case Ctr => s.(ctrSum := s.ctrSum + st.value)
    case Demand => s.(demand := s.demand + st.value)
    case OtherField(_) => s
  }

  function AddStats(s: Summary, stats: seq<Stat>): Summary
    decreases |stats|
  {
    if |stats| == 0 then s else Accumulate(AddStats(s, stats[..|stats| - 1]), stats[|stats| - 1])
  }

  /** Running the chain over a list of statistics adds to each accumulator
      the total of its own kind and to `count` the number of positions. */
  lemma {:induction false} AddStatsTotals(s: Summary, stats: seq<Stat>)
    ensures AddStats(s, stats) ==
            Summary(s.impressions + FieldTotal(stats, Impressions),
                    s.clicks + FieldTotal(stats, Clicks),
                    s.positionSum + FieldTotal(stats, Position),
                    s.ctrSum + FieldTotal(stats, Ctr),
                    s.demand + FieldTotal(stats, Demand),
                    s.count + FieldCount(stats, Position))
    decreases |stats|
  {
    if |stats| > 0 {
      AddStatsTotals(s, stats[..|stats| - 1]);
    }
  }

  /** The accumulators of text `q` after the items `items`. */
  function SummaryOf(items: seq<Item>, q: string): Summary
    decreases |items|
  {
    if |items| == 0 then Empty
    else
      var prev := SummaryOf(items[..|items| - 1], q);
      if TextOf(items[|items| - 1]) == q then AddStats(prev, items[|items| - 1].stats) else prev
  }

  lemma {:induction false} SummaryOfAbsent(items: seq<Item>, q: string)
    requires q !in Texts(items)
    ensures SummaryOf(items, q) == Empty
    decreases |items|
  {
    if |items| > 0 {
      var n := |items| - 1;
      TextsSnoc(items[..n], items[n]);
      assert items == items[..n] + [items[n]];
      SummaryOfAbsent(items[..n], q);
    }
  }

  /** A text's accumulated impressions, clicks and demand are the totals
      over exactly the items that carry that text. */
  lemma {:induction false} SummaryIsGroupTotal(items: seq<Item>, q: string)
    ensures SummaryOf(items, q).impressions == Sum(Pick(items, Texts(items), q), ItemImpressions)
    ensures SummaryOf(items, q).clicks == Sum(Pick(items, Texts(items), q), ItemClicks)
    ensures SummaryOf(items, q).demand == Sum(Pick(items, Texts(items), q), ItemDemand)
    decreases |items|
  {
    if |items| > 0 {
      var n := |items| - 1;
      var prefix, last := items[..n], items[n];
      var g := Pick(prefix, Texts(prefix), q);
      assert items == prefix + [last];
      TextsSnoc(prefix, last);
      PickSnoc(prefix, Texts(prefix), last, TextOf(last), q);
      assert Pick(items, Texts(items), q) == g + (if TextOf(last) == q then [last] else []);
      SummaryIsGroupTotal(prefix, q);
      if TextOf(last) == q {
        assert SummaryOf(items, q) == AddStats(SummaryOf(prefix, q), last.stats);
        AddStatsTotals(SummaryOf(prefix, q), last.stats);
        SumSnoc(g, last, ItemImpressions);
        SumSnoc(g, last, ItemClicks);
        SumSnoc(g, last, ItemDemand);
      } else {
        assert SummaryOf(items, q) == SummaryOf(prefix, q);
        assert g + [] == g;
      }
    }
  }

  /** The row of text `q` with accumulators `s`. */
  function FormatRow(q: string, s: Summary): (r: QueryRow)
    requires s.demand != 0.0
    ensures r.query == q
    ensures r.totalImpressions == s.impressions && r.totalClicks == s.clicks && r.totalDemand == s.demand
    ensures s.count == 0 ==> r.averagePosition == 0 && r.averageCtr == 0.0
  {
    var avgPosition := if s.count > 0 then Round(s.positionSum / s.count as real) else 0;
    var avgCtr := if s.count > 0 then Round3(s.ctrSum / (s.count as real * 100.0)) else 0.0;
    QueryRow(q, s.impressions, s.clicks, avgPosition, avgCtr, s.demand, s.impressions / s.demand)
  }

  /** The averages of a row: the position is the mean position rounded to
      an integer, the CTR the summed CTR percentages over (positions x 100)
      rounded to three decimals, and the demand share is the ratio of
      impressions to demand. */
  lemma FormatRowAverages(q: string, s: Summary)
    requires s.demand != 0.0
    ensures FormatRow(q, s).percentImpressionsDemand * s.demand == s.impressions
    ensures s.count > 0 ==>
              s.positionSum / s.count as real - 0.5 <= FormatRow(q, s).averagePosition as real
                                                    <= s.positionSum / s.count as real + 0.5
    ensures s.count > 0 ==>
              s.ctrSum / (s.count as real * 100.0) - 0.0005 <= FormatRow(q, s).averageCtr
                                                            <= s.ctrSum / (s.count as real * 100.0) + 0.0005
  {
  }

  predicate NonZeroDemands(items: seq<Item>, ds: seq<string>) {
    forall k :: 0 <= k < |ds| ==> SummaryOf(items, ds[k]).demand != 0.0
  }

  /** The rows of the texts `ds`, in that order. */
  function RowsFor(items: seq<Item>, ds: seq<string>): (rows: seq<QueryRow>)
    requires NonZeroDemands(items, ds)
    ensures |rows| == |ds|
    ensures forall k :: 0 <= k < |ds| ==> rows[k].query == ds[k]
  {
    seq(|ds|, k requires 0 <= k < |ds| => FormatRow(ds[k], SummaryOf(items, ds[k])))
  }

  lemma RowsForSnoc(items: seq<Item>, ds: seq<string>, q: string)
    requires NonZeroDemands(items, ds) && SummaryOf(items, q).demand != 0.0
    ensures NonZeroDemands(items, ds + [q])
    ensures RowsFor(items, ds + [q]) == RowsFor(items, ds) + [FormatRow(q, SummaryOf(items, q))]
  {
    var d := ds + [q];
    assert forall k :: 0 <= k < |ds| ==> d[k] == ds[k];
  }

  /** The report: one row per distinct text, in order of first appearance. */
  function Report(items: seq<Item>): seq<QueryRow>
    requires NonZeroDemands(items, Distinct(Texts(items)))
  {
    RowsFor(items, Distinct(Texts(items)))
  }

  lemma SummaryOfSnoc(items: seq<Item>, it: Item, q: string)
    ensures SummaryOf(items + [it], q) ==
            if TextOf(it) == q then AddStats(SummaryOf(items, q), it.stats) else SummaryOf(items, q)
  {
    assert (items + [it])[..|items|] == items;
  }

  lemma DistinctSnoc(ts: seq<string>, t: string)
    ensures Distinct(ts + [t]) == if t in Distinct(ts) then Distinct(ts) else Distinct(ts) + [t]
  {
    assert (ts + [t])[..|ts|] == ts;
  }

  /** The inner loop of `format_query_analytics`: one item's statistics
      run through the accumulator chain. */
  method AddItemStats(s0: Summary, stats: seq<Stat>) returns (s: Summary)
    ensures s == AddStats(s0, stats)
  {
    s := s0;
    for j := 0 to |stats|
      invariant s == AddStats(s0, stats[..j])
    {
      assert stats[..j + 1][..j] == stats[..j];
      s := Accumulate(s, stats[j]);
    }
    assert stats[..|stats|] == stats;
  }

  /** `summaries` and `order` are the dict and its key order after `items`. */
  ghost predicate Summarized(items: seq<Item>, summaries: map<string, Summary>, order: seq<string>) {
    && order == Distinct(Texts(items))
    && (forall q :: q in summaries <==> q in order)
    && (forall q :: q in summaries ==> summaries[q] == SummaryOf(items, q))
  }

  lemma SummarizedStep(items: seq<Item>, it: Item, summaries: map<string, Summary>, order: seq<string>,
                       s: Summary)
    requires Summarized(items, summaries, order)
    requires s == AddStats(if TextOf(it) in summaries then summaries[TextOf(it)] else Empty, it.stats)
    ensures Summarized(items + [it], summaries[TextOf(it) := s],
                       if TextOf(it) in summaries then order else order + [TextOf(it)])
  {
    var q := TextOf(it);
    var order' := if q in summaries then order else order + [q];
    var summaries' := summaries[q := s];
    assert order' == Distinct(Texts(items + [it])) by {
      TextsSnoc(items, it);
      DistinctSnoc(Texts(items), q);
    }
    assert forall q' :: q' in summaries' <==> q' in order';
    SummariesStep(items, it, summaries, order, s);
  }

  lemma SummariesStep(items: seq<Item>, it: Item, summaries: map<string, Summary>, order: seq<string>,
                      s: Summary)
    requires Summarized(items, summaries, order)
    requires s == AddStats(if TextOf(it) in summaries then summaries[TextOf(it)] else Empty, it.stats)
    ensures forall q' :: q' in summaries[TextOf(it) := s] ==>
              summaries[TextOf(it) := s][q'] == SummaryOf(items + [it], q')
  {
    var q := TextOf(it);
    var summaries' := summaries[q := s];
    forall q' | q' in summaries'
      ensures summaries'[q'] == SummaryOf(items + [it], q')
    {
      SummaryOfSnoc(items, it, q');
      if q' == q && q !in summaries {
        assert q !in Texts(items);
        SummaryOfAbsent(items, q);
      }
    }
  }

  /** The first loop of `format_query_analytics`: the `query_summary` dict,
      with its keys in insertion order. */
  method Summarize(items: seq<Item>) returns (summaries: map<string, Summary>, order: seq<string>)
    ensures Summarized(items, summaries, order)
  {
    summaries, order := map[], [];
    for i := 0 to |items|
      invariant Summarized(items[..i], summaries, order)
    {
      var q := TextOf(items[i]);
      var isNew := q !in summaries;
      var s := AddItemStats(if isNew then Empty else summaries[q], items[i].stats);
      SummarizedStep(items[..i], items[i], summaries, order, s);
      PrefixSnoc(items, i);
      if isNew {
        order := order + [q];
      }
      summaries := summaries[q := s];
    }
    PrefixAll(items);
  }

  /** `q` is the first text of `ds` whose total demand is zero. */
  ghost predicate FirstZeroDemand(items: seq<Item>, ds: seq<string>, q: string) {
    exists k :: 0 <= k < |ds| && ds[k] == q && SummaryOf(items, q).demand == 0.0 && NonZeroDemands(items, ds[..k])
  }

  /** The second loop of `format_query_analytics`: one row per text of
      `order`, failing at the first text whose demand is zero. */
  method FormatRows(items: seq<Item>, summaries: map<string, Summary>, order: seq<string>)
    returns (r: Result<seq<QueryRow>, ZeroDemand>)
    requires forall q :: q in order ==> q in summaries && summaries[q] == SummaryOf(items, q)
    ensures r.Failure? <==> !NonZeroDemands(items, order)
    ensures r.Failure? ==> FirstZeroDemand(items, order, r.error.query)
    ensures r.Success? ==> NonZeroDemands(items, order) && r.value == RowsFor(items, order)
  {
    var rows: seq<QueryRow> := [];
    for k := 0 to |order|
      invariant NonZeroDemands(items, order[..k])
      invariant rows == RowsFor(items, order[..k])
    {
      var s := summaries[order[k]];
      if s.demand == 0.0 {
        return Failure(ZeroDemand(order[k]));
      }
      PrefixSnoc(order, k);
      RowsForSnoc(items, order[..k], order[k]);
      rows := rows + [FormatRow(order[k], s)];
    }
    PrefixAll(order);
    return Success(rows);
  }

  /** `format_query_analytics`. A text whose total demand is zero makes the
      source raise when its row is formatted; the first such text is the
      error. */
  method FormatQueryAnalytics(items: seq<Item>) returns (r: Result<seq<QueryRow>, ZeroDemand>)
    ensures r.Failure? <==> !NonZeroDemands(items, Distinct(Texts(items)))
    ensures r.Failure? ==> FirstZeroDemand(items, Distinct(Texts(items)), r.error.query)
    ensures r.Success? ==> r.value == Report(items)
  {
    var summaries, order := Summarize(items);
    r := FormatRows(items, summaries, order);
  }

  function RowImpressions(r: QueryRow): real { r.totalImpressions }
  function RowClicks(r: QueryRow): real { r.totalClicks }
  function RowDemand(r: QueryRow): real { r.totalDemand }

  lemma {:induction false} RowsForTotals(items: seq<Item>, ds: seq<string>)
    requires NonZeroDemands(items, ds)
    ensures Sum(RowsFor(items, ds), RowImpressions) == GroupSum(ds, items, Texts(items), ItemImpressions)
    ensures Sum(RowsFor(items, ds), RowClicks) == GroupSum(ds, items, Texts(items), ItemClicks)
    ensures Sum(RowsFor(items, ds), RowDemand) == GroupSum(ds, items, Texts(items), ItemDemand)
    decreases |ds|
  {
    if |ds| > 0 {
      var n := |ds| - 1;
      var rows := RowsFor(items, ds);
      assert rows[..n] == RowsFor(items, ds[..n]);
      RowsForTotals(items, ds[..n]);
      SummaryIsGroupTotal(items, ds[n]);
    }
  }

  /** Grouping by text loses and duplicates nothing: the report's
      impressions, clicks and demand add up to those of all items. */
  lemma ReportConservesTotals(items: seq<Item>)
    requires NonZeroDemands(items, Distinct(Texts(items)))
    ensures Sum(Report(items), RowImpressions) == Sum(items, ItemImpressions)
    ensures Sum(Report(items), RowClicks) == Sum(items, ItemClicks)
    ensures Sum(Report(items), RowDemand) == Sum(items, ItemDemand)
  {
    RowsForTotals(items, Distinct(Texts(items)));
    PartitionSum(items, Texts(items), ItemImpressions);
    PartitionSum(items, Texts(items), ItemClicks);
    PartitionSum(items, Texts(items), ItemDemand);
  }

  /** Every text that occurs has a row and every row belongs to a text that
      occurs; rows follow the order in which texts first appear. */
  lemma ReportRowsAreTexts(items: seq<Item>)
    requires NonZeroDemands(items, Distinct(Texts(items)))
    ensures forall i :: 0 <= i < |items| ==> exists k :: 0 <= k < |Report(items)| && Report(items)[k].query == TextOf(items[i])
    ensures forall k :: 0 <= k < |Report(items)| ==> Report(items)[k].query in Texts(items)
    ensures forall k, l :: 0 <= k < l < |Report(items)| ==>
              IndexOf(Texts(items), Report(items)[k].query) < IndexOf(Texts(items), Report(items)[l].query)
  {
    var d := Distinct(Texts(items));
    DistinctFirstSeenOrder(Texts(items));
    forall i | 0 <= i < |items|
      ensures exists k :: 0 <= k < |Report(items)| && Report(items)[k].query == TextOf(items[i])
    {
      assert Texts(items)[i] in d;
      var k :| 0 <= k < |d| && d[k] == Texts(items)[i];
      assert Report(items)[k].query == TextOf(items[i]);
    }
  }
}
