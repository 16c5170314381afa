/** The staging table: one row per feed source and product id. */
module Persistence {
  import opened Hashing
  import opened Delta
  import opened Ordering
  import opened Wrappers

  /** The unique constraint on feed source and product id makes this pair a key. */
  datatype Key = Key(feed: int, id: string)

  type Rows = map<Key, Row>

  datatype HistoryEntry = HistoryEntry(pk: nat, snapshot: Json, recorded: int)

  /** What a plugin chain decided for one row: a final product, or exclusion. */
  datatype PluginOutcome = PluginOutcome(pk: nat, finalProduct: Option<Json>)

  /** Row ids come from a sequence and identify rows across all feed sources. */
  ghost predicate ValidRows(rows: Rows, nextPk: nat) {
    && (forall k :: k in rows ==> rows[k].pk < nextPk)
    && (forall j, k :: j in rows && k in rows && rows[j].pk == rows[k].pk ==> j == k)
  }

  function Stored(rows: Rows, feed: int): map<string, Row> {
    map k | k in rows && k.feed == feed :: k.id := rows[k]
  }

  // ----- Single-row writes -----

  function InsertedRow(pk: nat, u: Upsert, configHash: Digest): Row {
    Row(pk, u.contentHash, configHash, Active, None, u.product, None, false)
  }

  function UpdatedRow(r: Row, u: Upsert, configHash: Digest): Row {
    r.(raw := u.product, contentHash := u.contentHash, configHash := configHash, status := Active, removedAt := None)
  }

  function ReactivatedRow(r: Row): Row {
    r.(status := Active, removedAt := None)
  }

  function RemovedRow(r: Row, now: int): Row {
    r.(status := Status.Removed, removedAt := Some(now))
  }

  function WithOutcome(r: Row, o: PluginOutcome): Row {
    match o.finalProduct
    case Some(_) => r.(processed := o.finalProduct, excluded := false)
    case None => r.(processed := None, excluded := true)
  }

  // ----- What staging a feed does to each row -----

  function StagedRow(row: Option<Row>, product: Json, configHash: Digest, newPk: nat): Row {
    match VerdictOf(product, row, configHash)
    case New => Row(newPk, ContentHash(product), configHash, Active, None, product, None, false)
    case Unchanged => row.value
    case ReactivatedSame => ReactivatedRow(row.value)
    case _ => row.value.(
      raw := product, contentHash := ContentHash(product), configHash := configHash,
      status := Active, removedAt := None)
  }

  function LeftOutRow(r: Row, now: int): Row {
    if r.status == Active then RemovedRow(r, now) else r
  }

  /** `after` is `before` with `products` staged for `feed`; ids of new rows are free. */
  ghost predicate Staged(
    before: Rows, after: Rows, feed: int, products: seq<Json>, configHash: Digest, now: int)
  {
    var incoming := FirstById(products);
    && (forall k :: k in after <==> k in before || (k.feed == feed && k.id in incoming))
    && (forall k :: k in after ==>
      after[k] ==
        if k.feed != feed then before[k]
        else if k.id in incoming then
          StagedRow(if k in before then Some(before[k]) else None, incoming[k.id], configHash, after[k].pk)
        else LeftOutRow(before[k], now))
  }

  // ----- Export -----

  function Exported(r: Row): Json {
    if r.processed.Some? then r.processed.value else r.raw
  }

  predicate ExportBound(r: Row) {
    r.status == Active && !r.excluded
  }

  function ExportMap(rows: Rows, feed: int): map<string, Json> {
    map k | k in rows && k.feed == feed && ExportBound(rows[k]) :: k.id := Exported(rows[k])
  }

  /** The rows handed to quality check and export, ordered by product id. */
  ghost function ExportList(rows: Rows, feed: int): seq<(string, Json)> {
    var m := ExportMap(rows, feed);
    var ids := Sorted(m.Keys);
    seq(|ids|, i requires 0 <= i < |ids| => if ids[i] in m then (ids[i], m[ids[i]]) else ("", Null))
  }
}
