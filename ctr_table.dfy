/** The position-keyed click/impression table shared by the two CTR
    reductions of ws.py, and the ratio `save_ctr_to_csv` writes for each
    position. */
module CtrTable {

  datatype Bucket = Bucket(clicks: real, impressions: real)

  const Zero := Bucket(0.0, 0.0)

  /** A `defaultdict` read: a missing position holds the zero bucket. */
  function Get(table: map<int, Bucket>, p: int): Bucket {
    if p in table then table[p] else Zero
  }

  /** The CTR written for one position (ws.py, second `save_ctr_to_csv`):
      clicks over impressions, or 0 when there are no impressions. */
  function SavedCtr(b: Bucket): (r: real)
    ensures b.impressions > 0.0 ==> r * b.impressions == b.clicks
    ensures b.impressions <= 0.0 ==> r == 0.0
    ensures 0.0 <= b.clicks <= b.impressions ==> 0.0 <= r <= 1.0
  {
    if b.impressions > 0.0 then b.clicks / b.impressions else 0.0
  }

  /** The whole table as saved, position by position. */
  function SavedTable(table: map<int, Bucket>): (ctr: map<int, real>)
    ensures ctr.Keys == table.Keys
    ensures forall p :: p in table ==> ctr[p] == SavedCtr(table[p])
    ensures forall p :: p in table && 0.0 <= table[p].clicks <= table[p].impressions ==> 0.0 <= ctr[p] <= 1.0
  {
    map p | p in table :: SavedCtr(table[p])
  }
}
