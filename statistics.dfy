/** The records returned by the webmaster API's query-analytics endpoint:
    one item per query text, each with a list of (field, value) statistics. */
module Statistics {
  import opened Wrappers

  /** The statistic kinds the reduction distinguishes; any other field name
      is carried as `OtherField` and ignored. */
  datatype Field = Impressions | Clicks | Position | Ctr | Demand | OtherField(name: string)

  datatype Stat = Stat(field: Field, value: real)

  /** `text` is `None` when the item carries no text indicator. */
  datatype Item = Item(text: Option<string>, stats: seq<Stat>)

  const UnknownQuery: string := "Неизвестный запрос"

  /** The query text of an item, with the default for a missing one. */
  function TextOf(it: Item): (t: string)
    ensures it.text.Some? ==> t == it.text.value
    ensures it.text.None? ==> t == UnknownQuery
  {
    it.text.GetOr(UnknownQuery)
  }

  function Texts(items: seq<Item>): (ts: seq<string>)
    ensures |ts| == |items|
    ensures forall i :: 0 <= i < |items| ==> ts[i] == TextOf(items[i])
  {
    seq(|items|, i requires 0 <= i < |items| => TextOf(items[i]))
  }

  lemma TextsSnoc(items: seq<Item>, it: Item)
    ensures Texts(items + [it]) == Texts(items) + [TextOf(it)]
  {
  }

  /** Sum of the values of the statistics of kind `f`. */
  function FieldTotal(stats: seq<Stat>, f: Field): real
    decreases |stats|
  {
    if |stats| == 0 then 0.0
    else FieldTotal(stats[..|stats| - 1], f) +
         (if stats[|stats| - 1].field == f then stats[|stats| - 1].value else 0.0)
  }

  /** Number of statistics of kind `f`. */
  function FieldCount(stats: seq<Stat>, f: Field): (n: nat)
    ensures n <= |stats|
    decreases |stats|
  {
    if |stats| == 0 then 0
    else FieldCount(stats[..|stats| - 1], f) + (if stats[|stats| - 1].field == f then 1 else 0)
  }

  /** The value of the first statistic of kind `f`, or 0 when there is none:
      `next((s['value'] for s in stats if s['field'] == f), 0)`. */
  function FirstValue(stats: seq<Stat>, f: Field): (v: real)
    ensures (forall i :: 0 <= i < |stats| ==> stats[i].field != f) ==> v == 0.0
    ensures forall i :: (0 <= i < |stats| && stats[i].field == f &&
                         forall j :: 0 <= j < i ==> stats[j].field != f) ==> v == stats[i].value
  {
    if |stats| == 0 then 0.0
    else if stats[0].field == f then stats[0].value
    else
      assert forall i :: 1 <= i < |stats| ==> stats[i] == stats[1..][i - 1];
      FirstValue(stats[1..], f)
  }

  function ItemImpressions(it: Item): real { FieldTotal(it.stats, Impressions) }
  function ItemClicks(it: Item): real { FieldTotal(it.stats, Clicks) }
  function ItemDemand(it: Item): real { FieldTotal(it.stats, Demand) }
}
