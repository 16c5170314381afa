/** Where skipping shows: failing plugin calls and derived keys. */
module StaleRuns {
  import opened Hashing
  import opened Delta
  import opened Persistence
  import opened StagingTable
  import opened Steps
  import opened IncrementalRuns
  import opened Wrappers

  // ----- What one run shows of one product -----

  /** What the export shows of an active row. */
  function Shown(r: Row): Option<Json> {
    if r.excluded then None else Some(Exported(r))
  }

  /** What an export over an empty table shows of a product: after an error, the product as it came. */
  function ShownAlone(product: Json, result: ChainResult): Option<Json> {
    match result
    case Survives(p) => Some(p)
    case Drops(_) => None
    case Fails => Some(product)
  }

  /** An error is harmless when the row showed raw data or already this very product. */
  predicate Harmless(row: Option<Row>, product: Json) {
    row.None? || (!row.value.excluded && (row.value.processed.None? || row.value.processed == Some(product)))
  }

  /** From this row a run goes on to show of a product what it would show alone: a product that
      is skipped must show that already, and an error must find nothing else to leave behind. */
  predicate ShowsAsAlone(row: Option<Row>, product: Json, result: ChainResult, configHash: Digest) {
    match VerdictOf(product, row, configHash)
    case Unchanged => Shown(row.value) == ShownAlone(product, result)
    case ReactivatedSame => result.Fails? ==> Shown(row.value) == Some(product)
    case _ => result.Fails? ==> Harmless(row, product)
  }

  lemma RanRowShows(row: Option<Row>, product: Json, config: Config, registry: Registry, pk: nat)
    ensures
      var r, result := RanRow(row, product, config, registry, pk), Processed(product, config, registry);
      && r.status == Active
      && (row.None? ==> Shown(r) == ShownAlone(product, result))
      && (Shown(r) == ShownAlone(product, result) <==> ShowsAsAlone(row, product, result, ConfigHash(config)))
  {
    hide ConfigHash, ContentHash, Processed;
  }

  lemma SameMapIff(m: map<string, Json>, n: map<string, Json>)
    ensures m == n <==> forall id :: At(m, id) == At(n, id)
  {
    if forall id :: At(m, id) == At(n, id) {
      forall id ensures (id in m <==> id in n) && (id in m ==> m[id] == n[id]) { assert At(m, id) == At(n, id); }
    }
  }

  lemma ShowsRow(rows: Rows, feed: int, id: string)
    ensures At(ExportMap(rows, feed), id) ==
      if Key(feed, id) in rows && rows[Key(feed, id)].status == Active then Shown(rows[Key(feed, id)]) else None
  {
    hide Exported;
    var m := ExportMap(rows, feed);
    if id in m { assert Key(feed, id) in rows; }
  }

  /** After any run the export shows the rows of the products that came, and nothing else. */
  lemma RunShows(
    before: Rows, after: Rows, feed: int, products: seq<Json>, config: Config, registry: Registry, now: int, id: string)
    requires Ran(before, after, feed, products, config, registry, now)
    ensures id !in FirstById(products) ==> At(ExportMap(after, feed), id) == None
    ensures id in FirstById(products) ==>
      Key(feed, id) in after
      && At(ExportMap(after, feed), id) ==
        Shown(RanRow(RowAt(before, feed, id), FirstById(products)[id], config, registry, after[Key(feed, id)].pk))
  {
    hide Ran, FirstById, RanRow, Shown, ExportMap;
    RunAtKey(before, after, feed, products, config, registry, now, Key(feed, id));
    ShowsRow(after, feed, id);
    if id in FirstById(products) {
      RanRowShows(RowAt(before, feed, id), FirstById(products)[id], config, registry, after[Key(feed, id)].pk);
    }
  }

  /** From any table, whatever failed before and whatever keys the products carry, a run exports
      what it would alone exactly when every row it finds goes on to show what it would alone. */
  lemma RunMatchesAloneIff(
    before: Rows, after: Rows, alone: Rows, feed: int, products: seq<Json>, config: Config, registry: Registry,
    now: int)
    requires Ran(before, after, feed, products, config, registry, now)
    requires Ran(map[], alone, feed, products, config, registry, now)
    ensures ExportMap(after, feed) == ExportMap(alone, feed) <==>
      forall id :: id in FirstById(products) ==> ShowsAsAlone(
        RowAt(before, feed, id), FirstById(products)[id], Processed(FirstById(products)[id], config, registry),
        ConfigHash(config))
  {
    hide Ran, ConfigHash, Processed, FirstById, RanRow, Shown, ShownAlone, ShowsAsAlone, ExportMap;
    var m, reference := ExportMap(after, feed), ExportMap(alone, feed);
    forall id
      ensures At(m, id) == At(reference, id) <==> (id in FirstById(products) ==> ShowsAsAlone(
        RowAt(before, feed, id), FirstById(products)[id], Processed(FirstById(products)[id], config, registry),
        ConfigHash(config)))
    {
      RunShows(before, after, feed, products, config, registry, now, id);
      RunShows(map[], alone, feed, products, config, registry, now, id);
      if id in FirstById(products) {
        var p, k := FirstById(products)[id], Key(feed, id);
        RanRowShows(RowAt(before, feed, id), p, config, registry, after[k].pk);
        RanRowShows(None, p, config, registry, alone[k].pk);
      }
    }
    SameMapIff(m, reference);
  }

  /** From a table whose rows answer for their hashes, only errors can show. */
  lemma SoundRunMatchesAloneIff(
    before: Rows, after: Rows, alone: Rows, feed: int, products: seq<Json>, config: Config, registry: Registry,
    now: int)
    requires AllSound(before, registry) && PlainInput(products, config)
    requires Ran(before, after, feed, products, config, registry, now)
    requires Ran(map[], alone, feed, products, config, registry, now)
    ensures ExportMap(after, feed) == ExportMap(alone, feed) <==>
      forall id :: id in FirstById(products) && Processed(FirstById(products)[id], config, registry).Fails? ==>
        Harmless(RowAt(before, feed, id), FirstById(products)[id])
  {
    hide Ran, ConfigHash, Processed, FirstById, ShowsAsAlone, ExportMap, HashInput, Sound, Harmless;
    RunMatchesAloneIff(before, after, alone, feed, products, config, registry, now);
    forall id | id in FirstById(products)
      ensures
        var p, result := FirstById(products)[id], Processed(FirstById(products)[id], config, registry);
        ShowsAsAlone(RowAt(before, feed, id), p, result, ConfigHash(config)) <==>
          (result.Fails? ==> Harmless(RowAt(before, feed, id), p))
    {
      SoundRowShows(RowAt(before, feed, id), FirstById(products)[id], config, registry);
    }
  }

  lemma SoundRowShows(row: Option<Row>, product: Json, config: Config, registry: Registry)
    requires row.Some? ==> Sound(row.value, registry)
    requires Plain(product) && Plain(HashInput(config))
    ensures
      var result := Processed(product, config, registry);
      ShowsAsAlone(row, product, result, ConfigHash(config)) <==> (result.Fails? ==> Harmless(row, product))
  {
    hide ConfigHash, ContentHash, HashInput, Processed, Sound;
    if row.Some? && row.value.contentHash == ContentHash(product) && row.value.configHash == ConfigHash(config) {
      SoundByReflecting(row.value, product, config, registry);
    }
  }

  // ----- Whole histories with failing calls -----

  /** The row of a key after some events, told from the events alone. Row ids are left at 0. */
  ghost function Replayed(events: seq<Event>, feed: int, id: string): Option<Row> {
    if events == [] then None
    else
      var earlier := Replayed(events[..|events| - 1], feed, id);
      match events[|events| - 1]
      case FeedRun(other, products, config, registry, now) =>
        if other != feed then earlier
        else if id in FirstById(products) then Some(RanRow(earlier, FirstById(products)[id], config, registry, 0))
        else if earlier.None? then None
        else Some(LeftOutRow(earlier.value, now))
      case Purge(cutoff) =>
        if earlier.Some? && Expired(earlier.value, cutoff) then None else earlier
  }

  function Unnumbered(row: Option<Row>): Option<Row> {
    if row.None? then None else Some(row.value.(pk := 0))
  }

  lemma UnnumberedRanRow(row: Option<Row>, product: Json, config: Config, registry: Registry, pk: nat)
    ensures RanRow(row, product, config, registry, pk).(pk := 0) ==
      RanRow(Unnumbered(row), product, config, registry, 0)
  {
    hide ConfigHash, ContentHash, Processed;
  }

  lemma {:induction false} RowsAreReplayed(tables: seq<Rows>, events: seq<Event>, n: nat, feed: int, id: string)
    requires History(tables, events) && n < |tables|
    ensures Unnumbered(RowAt(tables[n], feed, id)) == Replayed(events[..n], feed, id)
  {
    hide Ran, FirstById, RanRow;
    if n > 0 {
      RowsAreReplayed(tables, events, n - 1, feed, id);
      assert events[..n][..n - 1] == events[..n - 1];
      var before, after, k := tables[n - 1], tables[n], Key(feed, id);
      assert Happened(before, after, events[n - 1]);
      match events[n - 1]
      case FeedRun(other, products, config, registry, now) =>
        RunAtKey(before, after, other, products, config, registry, now, k);
        if other == feed && id in FirstById(products) {
          UnnumberedRanRow(RowAt(before, feed, id), FirstById(products)[id], config, registry, after[k].pk);
        }
      case Purge(_) =>
    }
  }

  /** After any history, with failing calls, derived keys, other feeds and purges, a feed is
      exported as its last run alone would export it exactly when, for every product of that run,
      the row that the events before it leave goes on to show what it would alone. */
  lemma HistoryMatchesAloneIff(tables: seq<Rows>, events: seq<Event>, last: nat, n: nat, alone: Rows)
    requires History(tables, events) && last < n < |tables| && events[last].FeedRun?
    requires forall i :: last < i < n ==> !(events[i].FeedRun? && events[i].feed == events[last].feed)
    requires Happened(map[], alone, events[last])
    ensures
      var FeedRun(feed, products, config, registry, now) := events[last];
      ExportMap(tables[n], feed) == ExportMap(alone, feed) <==>
        forall id :: id in FirstById(products) ==> ShowsAsAlone(
          Replayed(events[..last], feed, id), FirstById(products)[id],
          Processed(FirstById(products)[id], config, registry), ConfigHash(config))
  {
    hide Ran, ConfigHash, Processed, FirstById, ShowsAsAlone, ExportMap, Replayed;
    var FeedRun(feed, products, config, registry, now) := events[last];
    QuietEventsLeaveExport(tables, events, feed, last, n);
    assert Happened(tables[last], tables[last + 1], events[last]);
    RunMatchesAloneIff(tables[last], tables[last + 1], alone, feed, products, config, registry, now);
    forall id | id in FirstById(products)
      ensures
        var p, result := FirstById(products)[id], Processed(FirstById(products)[id], config, registry);
        ShowsAsAlone(RowAt(tables[last], feed, id), p, result, ConfigHash(config)) ==
        ShowsAsAlone(Replayed(events[..last], feed, id), p, result, ConfigHash(config))
    {
      RowsAreReplayed(tables, events, last, feed, id);
      NumbersDoNotShow(
        RowAt(tables[last], feed, id), FirstById(products)[id], Processed(FirstById(products)[id], config, registry),
        ConfigHash(config));
    }
  }

  lemma NumbersDoNotShow(row: Option<Row>, product: Json, result: ChainResult, configHash: Digest)
    ensures ShowsAsAlone(row, product, result, configHash) == ShowsAsAlone(Unnumbered(row), product, result, configHash)
  {
    hide ContentHash;
  }

  /** The new hashes are stored before the chain runs, so however a chain ended, even in an
      error, the same product under the same configuration is not tried again: whatever the
      plugins would do next time, its row keeps the data it has. */
  lemma SameInputIsNotRetried(
    before: Rows, mid: Rows, after: Rows, feed: int, products: seq<Json>, config: Config,
    registry: Registry, healed: Registry, now: int, later: int, id: string)
    requires Ran(before, mid, feed, products, config, registry, now) && id in FirstById(products)
    requires Ran(mid, after, feed, products, config, healed, later)
    ensures Key(feed, id) in mid && Key(feed, id) in after && after[Key(feed, id)] == mid[Key(feed, id)]
  {
    RowHashesAfterRun(before, mid, feed, products, config, registry, now, id);
    UnchangedRowKept(mid, after, feed, products, config, healed, later, id);
  }

  lemma UnchangedRowKept(
    before: Rows, after: Rows, feed: int, products: seq<Json>, config: Config, registry: Registry, now: int, id: string)
    requires Ran(before, after, feed, products, config, registry, now) && id in FirstById(products)
    requires VerdictOf(FirstById(products)[id], RowAt(before, feed, id), ConfigHash(config)) == Unchanged
    ensures Key(feed, id) in after && after[Key(feed, id)] == before[Key(feed, id)]
  {
    hide Ran, ContentHash, ConfigHash, FirstById, Processed;
    RunAtKey(before, after, feed, products, config, registry, now, Key(feed, id));
  }

  /** After any run the row of a usable product carries the hashes of that run. */
  lemma RowHashesAfterRun(
    before: Rows, after: Rows, feed: int, products: seq<Json>, config: Config, registry: Registry, now: int, id: string)
    requires Ran(before, after, feed, products, config, registry, now) && id in FirstById(products)
    ensures
      var k := Key(feed, id);
      && k in after && after[k].status == Active
      && after[k].contentHash == ContentHash(FirstById(products)[id]) && after[k].configHash == ConfigHash(config)
  {
    hide Ran, ContentHash, ConfigHash, FirstById, Processed;
    RunAtKey(before, after, feed, products, config, registry, now, Key(feed, id));
  }

  // ----- Two concrete histories in which skipping is visible -----

  function Product(id: string, key: string, value: string): Json {
    Obj(map["id" := Str(id), key := Str(value)])
  }

  const ONE_PLUGIN := Config(Null, [Instance(Num("0"), "p", "1", Null, Null, Null)], None)

  function Working(): Registry {
    map["p" := Plugin(None, (current, config, data, original, state) => Returned(current))]
  }

  function Broken(): Registry {
    map["p" := Plugin(None, (current, config, data, original, state) => RaisedError)]
  }

  lemma OneProductFeed(p: Json, id: string)
    requires ProductId(p) == Some(id)
    ensures FirstById([p]) == map[id := p]
  {
    assert [p][..0] == [];
  }

  lemma ChainOfOne(p: Json)
    ensures Processed(p, ONE_PLUGIN, Working()) == Survives(p)
    ensures Processed(p, ONE_PLUGIN, Broken()).Fails?
  {
    var instances := ONE_PLUGIN.instances;
    assert instances[1..] == [];
    assert instances[..0] == [];
    assert Prepared(instances, Working()) == Some(map[]) == Prepared(instances, Broken());
    assert Chain(p, p, instances[1..], Working(), map[]) == Survives(p);
  }

  lemma OneProductKeys(before: Rows, after: Rows, p: Json, registry: Registry, now: int)
    requires Ran(before, after, 1, [p], ONE_PLUGIN, registry, now) && ProductId(p) == Some("a")
    requires before.Keys <= {Key(1, "a")}
    ensures after.Keys == {Key(1, "a")}
  {
    hide Ran, FirstById, RanRow;
    OneProductFeed(p, "a");
    forall k ensures k in after <==> k == Key(1, "a") {
      RunAtKey(before, after, 1, [p], ONE_PLUGIN, registry, now, k);
    }
  }

  lemma ExportOfOne(rows: Rows, id: string)
    requires rows.Keys == {Key(1, id)} && ExportBound(rows[Key(1, id)])
    ensures ExportMap(rows, 1) == map[id := Exported(rows[Key(1, id)])]
  {
    hide Exported, ExportBound;
    forall k | k in rows ensures k == Key(1, id) { assert k in rows.Keys; }
  }

  lemma ReprocessedOne(p: Json, id: string)
    requires ProductId(p) == Some(id)
    ensures Reprocessed([p], ONE_PLUGIN, Working()) == map[id := p]
  {
    hide Processed, FirstById;
    OneProductFeed(p, id);
    ChainOfOne(p);
  }

  /** A price change whose plugin call times out once is never exported afterwards, although
      every later call succeeds. */
  lemma StaleAfterOneFailure(t0: Rows, t1: Rows, t2: Rows)
    requires Ran(map[], t0, 1, [Product("a", "price", "1")], ONE_PLUGIN, Working(), 0)
    requires Ran(t0, t1, 1, [Product("a", "price", "2")], ONE_PLUGIN, Broken(), 1)
    requires Ran(t1, t2, 1, [Product("a", "price", "2")], ONE_PLUGIN, Working(), 2)
    ensures ExportMap(t2, 1) == map["a" := Product("a", "price", "1")]
    ensures Reprocessed([Product("a", "price", "2")], ONE_PLUGIN, Working()) == map["a" := Product("a", "price", "2")]
  {
    hide Ran, ConfigHash, ContentHash, FirstById, Processed, Reprocessed, ExportMap;
    var p, q := Product("a", "price", "1"), Product("a", "price", "2");
    FirstRunRow(t0, p);
    PricesDiffer();
    FailedRunRow(t0, t1, p, q);
    RepeatedRunRow(t1, t2, q);
    ExportOfOne(t2, "a");
    ReprocessedOne(q, "a");
  }

  lemma PricesDiffer()
    ensures ContentHash(Product("a", "price", "1")) != ContentHash(Product("a", "price", "2"))
  {
    var p, q := Product("a", "price", "1"), Product("a", "price", "2");
    assert Plain(p) && Plain(q) && p.fields["price"] != q.fields["price"];
    HashIdentifiesPlainValues(p, q);
  }

  lemma FirstRunRow(t0: Rows, p: Json)
    requires Ran(map[], t0, 1, [p], ONE_PLUGIN, Working(), 0) && ProductId(p) == Some("a")
    ensures t0.Keys == {Key(1, "a")}
    ensures
      var r := t0[Key(1, "a")];
      && r.status == Active && r.contentHash == ContentHash(p) && r.configHash == ConfigHash(ONE_PLUGIN)
      && r.processed == Some(p) && !r.excluded
  {
    hide Ran, ContentHash, ConfigHash, FirstById, Processed;
    OneProductFeed(p, "a");
    ChainOfOne(p);
    RunAtKey(map[], t0, 1, [p], ONE_PLUGIN, Working(), 0, Key(1, "a"));
    OneProductKeys(map[], t0, p, Working(), 0);
  }

  lemma FailedRunRow(t0: Rows, t1: Rows, p: Json, q: Json)
    requires Ran(t0, t1, 1, [q], ONE_PLUGIN, Broken(), 1) && ProductId(q) == Some("a")
    requires t0.Keys == {Key(1, "a")} && ContentHash(p) != ContentHash(q)
    requires
      var r := t0[Key(1, "a")];
      && r.status == Active && r.contentHash == ContentHash(p) && r.configHash == ConfigHash(ONE_PLUGIN)
      && r.processed == Some(p) && !r.excluded
    ensures t1.Keys == {Key(1, "a")}
    ensures
      var r := t1[Key(1, "a")];
      && r.status == Active && r.contentHash == ContentHash(q) && r.configHash == ConfigHash(ONE_PLUGIN)
      && r.processed == Some(p) && !r.excluded
  {
    hide Ran, ContentHash, ConfigHash, FirstById, Processed;
    OneProductFeed(q, "a");
    ChainOfOne(q);
    RunAtKey(t0, t1, 1, [q], ONE_PLUGIN, Broken(), 1, Key(1, "a"));
    OneProductKeys(t0, t1, q, Broken(), 1);
  }

  lemma RepeatedRunRow(t1: Rows, t2: Rows, q: Json)
    requires Ran(t1, t2, 1, [q], ONE_PLUGIN, Working(), 2) && ProductId(q) == Some("a")
    requires t1.Keys == {Key(1, "a")}
    requires
      var r := t1[Key(1, "a")];
      r.status == Active && r.contentHash == ContentHash(q) && r.configHash == ConfigHash(ONE_PLUGIN)
    ensures t2 == t1
  {
    hide Ran, ContentHash, ConfigHash, FirstById, Processed;
    OneProductFeed(q, "a");
    RunAtKey(t1, t2, 1, [q], ONE_PLUGIN, Working(), 2, Key(1, "a"));
    OneProductKeys(t1, t2, q, Working(), 2);
  }

  /** A change in a key that starts with an underscore is never exported. */
  lemma StaleDerivedKey(t0: Rows, t1: Rows)
    requires Ran(map[], t0, 1, [Product("a", "_rank", "1")], ONE_PLUGIN, Working(), 0)
    requires Ran(t0, t1, 1, [Product("a", "_rank", "2")], ONE_PLUGIN, Working(), 2)
    ensures ExportMap(t1, 1) == map["a" := Product("a", "_rank", "1")]
    ensures Reprocessed([Product("a", "_rank", "2")], ONE_PLUGIN, Working()) == map["a" := Product("a", "_rank", "2")]
  {
    hide Ran, ConfigHash, ContentHash, FirstById, Processed, Reprocessed, ExportMap;
    var p, q := Product("a", "_rank", "1"), Product("a", "_rank", "2");
    FirstRunRow(t0, p);
    RanksAreDerived();
    RepeatedRunRow(t0, t1, q);
    ExportOfOne(t1, "a");
    ReprocessedOne(q, "a");
  }

  lemma RanksAreDerived()
    ensures ContentHash(Product("a", "_rank", "1")) == ContentHash(Product("a", "_rank", "2"))
  {
    var p, q := Product("a", "_rank", "1"), Product("a", "_rank", "2");
    assert Derived("_rank") && !Derived("id");
    assert StripDerived(p).fields == StripDerived(q).fields;
  }
}
