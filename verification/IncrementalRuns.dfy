/** Whole runs over the staging table: skipping unchanged products cannot be seen in an export. */
module IncrementalRuns {
  import opened Hashing
  import opened Delta
  import opened Persistence
  import opened StagingTable
  import opened StagingProofs
  import opened Steps
  import opened Wrappers

  // ----- One run, row by row -----

  function ChainedRow(r: Row, result: ChainResult): Row {
    match result
    case Survives(p) => r.(processed := Some(p), excluded := false)
    case Drops(_) => r.(processed := None, excluded := true)
    case Fails => r
  }

  function RowAt(rows: Rows, feed: int, id: string): Option<Row> {
    if Key(feed, id) in rows then Some(rows[Key(feed, id)]) else None
  }

  /** Whether the product of a key goes through the plugin chain in this run. */
  ghost predicate Enqueued(before: Rows, feed: int, incoming: map<string, Json>, configHash: Digest, k: Key) {
    k.feed == feed && k.id in incoming && VerdictOf(incoming[k.id], RowAt(before, feed, k.id), configHash) in ENQUEUED
  }

  ghost predicate ChainsRecorded(
    before: Rows, mid: Rows, after: Rows, feed: int, products: seq<Json>, config: Config, registry: Registry)
  {
    var incoming := FirstById(products);
    && after.Keys == mid.Keys
    && forall k :: k in mid ==>
      after[k] ==
        if Enqueued(before, feed, incoming, ConfigHash(config), k)
        then ChainedRow(mid[k], Processed(incoming[k.id], config, registry))
        else mid[k]
  }

  /** A completed run: staging, then the outcome of every enqueued product. */
  ghost predicate Ran(
    before: Rows, after: Rows, feed: int, products: seq<Json>, config: Config, registry: Registry, now: int)
  {
    exists mid ::
      && Staged(before, mid, feed, products, ConfigHash(config), now)
      && ChainsRecorded(before, mid, after, feed, products, config, registry)
  }

  lemma {:induction false} OutcomesOfIds(
    c: Comparison, ids: seq<string>, pks: map<string, nat>, config: Config, registry: Registry, o: PluginOutcome)
    requires forall id :: id in ids ==> id in c.feed && ProductId(c.feed[id]) == Some(id) && id in pks
    ensures o in Outcomes(c.Products(ids), pks, config, registry) <==>
      exists id :: id in ids && OutcomeOf(Processed(c.feed[id], config, registry), pks[id]) == Some(o)
  {
    if ids != [] {
      var rest, last := ids[..|ids| - 1], ids[|ids| - 1];
      assert ids == rest + [last];
      var longer := c.Products(ids);
      assert longer == c.Products(rest) + [c.feed[last]];
      assert longer[..|longer| - 1] == c.Products(rest);
      OutcomesOfIds(c, rest, pks, config, registry, o);
    }
  }

  /** The plugin step records, for each enqueued row and no other, what its chain decided. */
  lemma OutcomesAreChains(
    c: Comparison, mid: Rows, nextPk: nat, feed: int, ids: seq<string>, pks: map<string, nat>,
    config: Config, registry: Registry, k: Key)
    requires ValidRows(mid, nextPk) && k in mid
    requires forall id :: id in ids ==>
      && id in c.feed && ProductId(c.feed[id]) == Some(id)
      && id in pks && Key(feed, id) in mid && pks[id] == mid[Key(feed, id)].pk
    ensures
      var after := RecordOutcomes(mid, feed, Outcomes(c.Products(ids), pks, config, registry));
      k in after && after[k] ==
        if k.feed == feed && k.id in ids
        then ChainedRow(mid[k], Processed(c.feed[k.id], config, registry))
        else mid[k]
  {
    var os := Outcomes(c.Products(ids), pks, config, registry);
    forall o | o in os && o.pk == mid[k].pk
      ensures k.feed == feed ==>
        k.id in ids && OutcomeOf(Processed(c.feed[k.id], config, registry), mid[k].pk) == Some(o)
    {
      OutcomesOfIds(c, ids, pks, config, registry, o);
      var id :| id in ids && OutcomeOf(Processed(c.feed[id], config, registry), pks[id]) == Some(o);
      assert mid[Key(feed, id)].pk == mid[k].pk;
    }
    if k.feed == feed && k.id in ids && !Processed(c.feed[k.id], config, registry).Fails? {
      var o := OutcomeOf(Processed(c.feed[k.id], config, registry), pks[k.id]).value;
      OutcomesOfIds(c, ids, pks, config, registry, o);
      RecordHits(mid, feed, os, k, o);
    } else {
      RecordMisses(mid, feed, os, k);
    }
  }

  lemma EnqueuedIdsExactly(before: Rows, feed: int, products: seq<Json>, configHash: Digest, ids: seq<string>)
    requires ids ==
      Comparison(FirstById(products), Stored(before, feed), configHash).Having(IdOrder(products), ENQUEUED)
    ensures forall k: Key ::
      Enqueued(before, feed, FirstById(products), configHash, k) <==> k.feed == feed && k.id in ids
    ensures forall id :: id in ids ==>
      var c := Comparison(FirstById(products), Stored(before, feed), configHash);
      id in c.feed && c.Verdict(id) in ENQUEUED
  {
    var c := Comparison(FirstById(products), Stored(before, feed), configHash);
    IdOrderEnumerates(products);
    c.HavingExactly(IdOrder(products), ENQUEUED);
    forall id ensures RowAt(before, feed, id) == At(c.stored, id) {}
  }

  lemma ChainsOfIds(
    c: Comparison, before: Rows, mid: Rows, after: Rows, nextPk: nat, feed: int, products: seq<Json>, ids: seq<string>,
    pks: map<string, nat>, config: Config, registry: Registry)
    requires ValidRows(mid, nextPk) && c.feed == FirstById(products)
    requires after == RecordOutcomes(mid, feed, Outcomes(c.Products(ids), pks, config, registry))
    requires forall k: Key :: Enqueued(before, feed, c.feed, ConfigHash(config), k) <==> k.feed == feed && k.id in ids
    requires forall id :: id in ids ==>
      && id in c.feed && ProductId(c.feed[id]) == Some(id)
      && id in pks && Key(feed, id) in mid && pks[id] == mid[Key(feed, id)].pk
    ensures ChainsRecorded(before, mid, after, feed, products, config, registry)
    ensures ValidRows(after, nextPk)
  {
    hide RecordOutcomes, Outcomes, ChainedRow, Processed, FirstById, ConfigHash;
    RecordKeepsKeys(mid, feed, Outcomes(c.Products(ids), pks, config, registry));
    forall k | k in mid
      ensures after[k] ==
        if Enqueued(before, feed, c.feed, ConfigHash(config), k)
        then ChainedRow(mid[k], Processed(c.feed[k.id], config, registry)) else mid[k]
      ensures after[k].pk == mid[k].pk
    {
      OutcomesAreChains(c, mid, nextPk, feed, ids, pks, config, registry, k);
      if k.feed == feed && k.id in ids { ChainedKeepsPk(mid[k], Processed(c.feed[k.id], config, registry)); }
    }
  }

  function EnqueuedIds(before: Rows, feed: int, products: seq<Json>, configHash: Digest): seq<string> {
    Comparison(FirstById(products), Stored(before, feed), configHash).Having(IdOrder(products), ENQUEUED)
  }

  /** The state in which staging hands over to the plugins: each enqueued product is there
      once, in feed order, with the row id of its own row. */
  ghost predicate HandedOver(
    before: Rows, mid: Rows, feed: int, products: seq<Json>, configHash: Digest, enqueue: seq<Json>,
    pks: map<string, nat>)
  {
    var c := Comparison(FirstById(products), Stored(before, feed), configHash);
    var ids := EnqueuedIds(before, feed, products, configHash);
    && enqueue == c.Products(ids)
    && forall id :: id in ids ==>
      && id in c.feed && ProductId(c.feed[id]) == Some(id)
      && id in pks && Key(feed, id) in mid && pks[id] == mid[Key(feed, id)].pk
  }

  lemma PkAfterStaging(
    before: Rows, nextPk: nat, feed: int, products: seq<Json>, configHash: Digest, now: int, delta: StagingDelta,
    id: string)
    requires ValidRows(before, nextPk) && Decides(delta, products, Stored(before, feed), configHash)
    requires
      var c := Comparison(FirstById(products), Stored(before, feed), configHash);
      id in c.feed && c.Verdict(id) in ENQUEUED
    ensures
      var mid := Applied(before, feed, delta, configHash, now, nextPk);
      var pks := AppliedPks(before, feed, delta, configHash, nextPk);
      id in pks && Key(feed, id) in mid && pks[id] == mid[Key(feed, id)].pk
  {
    var upserted := Upserted(before, feed, delta.upserts, configHash, nextPk);
    AppliedPksAt(before, nextPk, feed, products, configHash, delta, id);
    SetStatusesAt(upserted, delta.reactivations, None, Key(feed, id));
    SetStatusesAt(SetStatuses(upserted, delta.reactivations, None), delta.removals, Some(now), Key(feed, id));
  }

  lemma StagingHandsOver(
    before: Rows, nextPk: nat, feed: int, products: seq<Json>, configHash: Digest, now: int, delta: StagingDelta)
    requires ValidRows(before, nextPk) && Decides(delta, products, Stored(before, feed), configHash)
    ensures HandedOver(
      before, Applied(before, feed, delta, configHash, now, nextPk), feed, products, configHash, delta.enqueue,
      AppliedPks(before, feed, delta, configHash, nextPk))
  {
    var ids := EnqueuedIds(before, feed, products, configHash);
    FirstByIdCarriesItsId(products);
    EnqueuedIdsExactly(before, feed, products, configHash, ids);
    forall id | id in ids
      ensures
        var mid := Applied(before, feed, delta, configHash, now, nextPk);
        var pks := AppliedPks(before, feed, delta, configHash, nextPk);
        id in pks && Key(feed, id) in mid && pks[id] == mid[Key(feed, id)].pk
    {
      PkAfterStaging(before, nextPk, feed, products, configHash, now, delta, id);
    }
  }

  /** Recording the chains of a handed-over feed completes the run. */
  lemma RecordingCompletesRun(
    before: Rows, mid: Rows, after: Rows, nextPk: nat, feed: int, products: seq<Json>, config: Config,
    registry: Registry, now: int, enqueue: seq<Json>, pks: map<string, nat>)
    requires ValidRows(mid, nextPk)
    requires Staged(before, mid, feed, products, ConfigHash(config), now)
    requires HandedOver(before, mid, feed, products, ConfigHash(config), enqueue, pks)
    requires after == RecordOutcomes(mid, feed, Outcomes(enqueue, pks, config, registry))
    ensures Ran(before, after, feed, products, config, registry, now)
    ensures ValidRows(after, nextPk)
  {
    var c := Comparison(FirstById(products), Stored(before, feed), ConfigHash(config));
    hide Staged, ChainsRecorded, RecordOutcomes, Outcomes, ConfigHash, FirstById, IdOrder, ValidRows, Enqueued;
    var ids := EnqueuedIds(before, feed, products, ConfigHash(config));
    EnqueuedIdsExactly(before, feed, products, ConfigHash(config), ids);
    ChainsOfIds(c, before, mid, after, nextPk, feed, products, ids, pks, config, registry);
  }

  /** One pipeline run over the mutable table, from a feed to its recorded outcomes. */
  method Run(
      table: Table, feed: int, products: seq<Json>, config: Config, registry: Registry, now: int, chunkSize: nat)
    requires table.Valid() && chunkSize > 0
    modifies table
    ensures table.Valid()
    ensures Ran(old(table.rows), table.rows, feed, products, config, registry, now)
  {
    hide Staged, HandedOver, Ran, RecordOutcomes, Outcomes, Survivors, ConfigHash, ValidRows;
    var state := new RunState(products, config);
    StageFeed(table, state, feed, now, chunkSize);
    ghost var mid, enqueue := table.rows, state.products;
    var _ := PluginStep(table, state, feed, registry);
    RecordingCompletesRun(
      old(table.rows), mid, table.rows, table.nextPk, feed, products, config, registry, now, enqueue, state.productPks);
  }

  method StageFeed(table: Table, state: RunState, feed: int, now: int, chunkSize: nat)
    requires table.Valid() && chunkSize > 0
    modifies table, state`products, state`productPks
    ensures table.Valid()
    ensures Staged(old(table.rows), table.rows, feed, old(state.products), ConfigHash(state.config), now)
    ensures HandedOver(
      old(table.rows), table.rows, feed, old(state.products), ConfigHash(state.config),
      state.products, state.productPks)
  {
    hide Decides, Comparison.Counted, Applied, AppliedPks, Staged, HandedOver, ConfigHash, Stored, Inserting, ValidRows;
    ghost var before, nextPk, products := table.rows, table.nextPk, state.products;
    var _, configHash, delta := StagingStep(table, state, feed, now, chunkSize);
    AppliedIsStaged(before, nextPk, feed, products, configHash, now, delta);
    StagingHandsOver(before, nextPk, feed, products, configHash, now, delta);
  }

  // ----- What a cached outcome must agree with -----

  /** The product data of a row is what `result` decided. */
  ghost predicate Reflects(r: Row, result: ChainResult) {
    match result
    case Survives(p) => !r.excluded && r.processed == Some(p)
    case Drops(_) => r.excluded && r.processed.None?
    case Fails => false
  }

  /** A row answers for every feed and configuration that would hash to its two hashes. */
  ghost predicate Sound(r: Row, registry: Registry) {
    forall p: Json, c: Config ::
      Plain(p) && Plain(HashInput(c)) && ContentHash(p) == r.contentHash && ConfigHash(c) == r.configHash ==>
        Reflects(r, Processed(p, c, registry))
  }

  ghost predicate AllSound(rows: Rows, registry: Registry) {
    forall k :: k in rows ==> Sound(rows[k], registry)
  }

  /** No derived keys in the usable products or in the configuration. */
  ghost predicate PlainInput(products: seq<Json>, config: Config) {
    && Plain(HashInput(config))
    && forall id :: id in FirstById(products) ==> Plain(FirstById(products)[id])
  }

  /** Every plugin call on every usable product returns. */
  ghost predicate NoErrors(products: seq<Json>, config: Config, registry: Registry) {
    forall id :: id in FirstById(products) ==> !Processed(FirstById(products)[id], config, registry).Fails?
  }

  /** The reference: every usable product through the chain, and nothing else. */
  function Reprocessed(products: seq<Json>, config: Config, registry: Registry): map<string, Json> {
    map id | id in FirstById(products) && Processed(FirstById(products)[id], config, registry).Survives? ::
      Processed(FirstById(products)[id], config, registry).product
  }

  /** Hashes without derived keys name one product and one chain. */
  lemma HashesFixChain(p: Json, c: Config, q: Json, d: Config, registry: Registry)
    requires Plain(p) && Plain(HashInput(c)) && Plain(q) && Plain(HashInput(d))
    requires ContentHash(p) == ContentHash(q) && ConfigHash(c) == ConfigHash(d)
    ensures p == q && Processed(p, c, registry) == Processed(q, d, registry)
  {
    HashIdentifiesPlainValues(p, q);
    ConfigHashFixesChain(c, d);
  }

  lemma SoundByReflecting(r: Row, p: Json, c: Config, registry: Registry)
    requires Plain(p) && Plain(HashInput(c))
    requires r.contentHash == ContentHash(p) && r.configHash == ConfigHash(c)
    ensures Sound(r, registry) <==> Reflects(r, Processed(p, c, registry))
  {
    hide ConfigHash, ContentHash, HashInput, Processed;
    forall q: Json, d: Config
      | Plain(q) && Plain(HashInput(d)) && ContentHash(q) == r.contentHash && ConfigHash(d) == r.configHash
      ensures Processed(q, d, registry) == Processed(p, c, registry)
    {
      HashesFixChain(q, d, p, c, registry);
    }
  }

  /** The row a run leaves for a usable product, from its earlier row. */
  function RanRow(earlier: Option<Row>, product: Json, config: Config, registry: Registry, pk: nat): Row {
    var staged := StagedRow(earlier, product, ConfigHash(config), pk);
    if VerdictOf(product, earlier, ConfigHash(config)) in ENQUEUED
    then ChainedRow(staged, Processed(product, config, registry)) else staged
  }

  /** What a run leaves under one key. */
  lemma RunAtKey(
    before: Rows, after: Rows, feed: int, products: seq<Json>, config: Config, registry: Registry, now: int, k: Key)
    requires Ran(before, after, feed, products, config, registry, now)
    ensures k in after <==> k in before || (k.feed == feed && k.id in FirstById(products))
    ensures k in after ==>
      after[k] ==
        if k.feed != feed then before[k]
        else if k.id in FirstById(products) then
          RanRow(RowAt(before, feed, k.id), FirstById(products)[k.id], config, registry, after[k].pk)
        else LeftOutRow(before[k], now)
  {
    hide ConfigHash, FirstById, Processed, StagedRow, VerdictOf, LeftOutRow;
    var mid: Rows :|
      && Staged(before, mid, feed, products, ConfigHash(config), now)
      && ChainsRecorded(before, mid, after, feed, products, config, registry);
    assert k in after <==> k in mid;
    if k in mid && k.feed == feed && k.id in FirstById(products) {
      assert mid[k] == StagedRow(RowAt(before, feed, k.id), FirstById(products)[k.id], ConfigHash(config), mid[k].pk);
      ChainedKeepsPk(mid[k], Processed(FirstById(products)[k.id], config, registry));
    }
  }

  lemma ChainedKeepsPk(r: Row, result: ChainResult)
    ensures ChainedRow(r, result).pk == r.pk
  {
  }

  /** What a run without errors leaves in the row of each usable product. */
  lemma RowAfterRun(
    before: Rows, after: Rows, feed: int, products: seq<Json>, config: Config, registry: Registry, now: int, id: string)
    requires AllSound(before, registry) && Ran(before, after, feed, products, config, registry, now)
    requires PlainInput(products, config) && id in FirstById(products)
    requires !Processed(FirstById(products)[id], config, registry).Fails?
    ensures
      var k := Key(feed, id);
      && k in after && after[k].status == Active
      && after[k].contentHash == ContentHash(FirstById(products)[id]) && after[k].configHash == ConfigHash(config)
      && Reflects(after[k], Processed(FirstById(products)[id], config, registry))
      && Sound(after[k], registry)
  {
    hide Ran, ConfigHash, ContentHash, HashInput, Processed, FirstById, Sound, Plain;
    var k, p := Key(feed, id), FirstById(products)[id];
    RunAtKey(before, after, feed, products, config, registry, now, k);
    SoundByReflecting(after[k], p, config, registry);
  }

  /** Rows a run does not process keep what they answer for. */
  lemma OtherRowAfterRun(
    before: Rows, after: Rows, feed: int, products: seq<Json>, config: Config, registry: Registry, now: int, k: Key)
    requires Ran(before, after, feed, products, config, registry, now)
    requires k.feed != feed || k.id !in FirstById(products)
    ensures k in after <==> k in before
    ensures k in after && k.feed != feed ==> after[k] == before[k]
    ensures k in after && k.feed == feed ==> after[k] == LeftOutRow(before[k], now)
  {
    hide Ran;
    RunAtKey(before, after, feed, products, config, registry, now, k);
  }

  lemma RunKeepsSound(
    before: Rows, after: Rows, feed: int, products: seq<Json>, config: Config, registry: Registry, now: int)
    requires AllSound(before, registry) && Ran(before, after, feed, products, config, registry, now)
    requires PlainInput(products, config) && NoErrors(products, config, registry)
    ensures AllSound(after, registry)
  {
    hide FirstById, Ran, ConfigHash, Processed, HashInput;
    forall k | k in after ensures Sound(after[k], registry) {
      if k.feed == feed && k.id in FirstById(products) {
        RowAfterRun(before, after, feed, products, config, registry, now, k.id);
      } else {
        OtherRowAfterRun(before, after, feed, products, config, registry, now, k);
        LeftOutKeepsSound(before[k], now, registry);
      }
    }
  }

  lemma LeftOutKeepsSound(r: Row, now: int, registry: Registry)
    requires Sound(r, registry)
    ensures Sound(LeftOutRow(r, now), registry)
  {
    hide ConfigHash, Processed, HashInput, ContentHash;
    forall p: Json, c: Config
      | Plain(p) && Plain(HashInput(c)) && ContentHash(p) == r.contentHash && ConfigHash(c) == r.configHash
      ensures Reflects(LeftOutRow(r, now), Processed(p, c, registry))
    {
      assert Reflects(r, Processed(p, c, registry));
    }
  }

  /** After a run the export is the whole feed reprocessed, however much was skipped. */
  lemma ExportAfterRun(
    before: Rows, after: Rows, feed: int, products: seq<Json>, config: Config, registry: Registry, now: int)
    requires AllSound(before, registry) && Ran(before, after, feed, products, config, registry, now)
    requires PlainInput(products, config) && NoErrors(products, config, registry)
    ensures ExportMap(after, feed) == Reprocessed(products, config, registry)
  {
    hide FirstById, Ran, ConfigHash, Processed, HashInput, AllSound, Sound;
    var m, reference := ExportMap(after, feed), Reprocessed(products, config, registry);
    forall id ensures (id in m <==> id in reference) && (id in m ==> m[id] == reference[id]) {
      var k := Key(feed, id);
      if id in FirstById(products) {
        RowAfterRun(before, after, feed, products, config, registry, now, id);
      } else {
        OtherRowAfterRun(before, after, feed, products, config, registry, now, k);
      }
      assert id in m <==> k in after && ExportBound(after[k]);
    }
  }

  /** A run leaves the exports of every other feed source as they were. */
  lemma RunLeavesOtherExports(
    before: Rows, after: Rows, feed: int, products: seq<Json>, config: Config, registry: Registry, now: int, other: int)
    requires Ran(before, after, feed, products, config, registry, now) && other != feed
    ensures ExportMap(after, other) == ExportMap(before, other)
  {
    hide Ran, FirstById, ConfigHash;
    forall id ensures Key(other, id) in after <==> Key(other, id) in before
      ensures Key(other, id) in after ==> after[Key(other, id)] == before[Key(other, id)]
    {
      OtherRowAfterRun(before, after, feed, products, config, registry, now, Key(other, id));
    }
  }

  // ----- Histories -----

  /** What can happen to the table between exports. The plugins of each run are its own: a call
      that times out in one run may return in the next. */
  datatype Event =
    | FeedRun(feed: int, products: seq<Json>, config: Config, registry: Registry, now: int)
    | Purge(cutoff: int)

  ghost predicate Happened(before: Rows, after: Rows, e: Event) {
    match e
    case FeedRun(feed, products, config, registry, now) => Ran(before, after, feed, products, config, registry, now)
    case Purge(cutoff) =>
      && (forall k :: k in after <==> k in before && !Expired(before[k], cutoff))
      && (forall k :: k in after ==> after[k] == before[k])
  }

  ghost predicate History(tables: seq<Rows>, events: seq<Event>) {
    && |tables| == |events| + 1
    && tables[0] == map[]
    && forall i :: 0 <= i < |events| ==> Happened(tables[i], tables[i + 1], events[i])
  }

  /** A purge, or a run of these plugins in which every call returns. */
  ghost predicate Healthy(e: Event, registry: Registry) {
    e.FeedRun? ==>
      e.registry == registry && PlainInput(e.products, e.config) && NoErrors(e.products, e.config, registry)
  }

  lemma {:induction false} HistoryIsSound(tables: seq<Rows>, events: seq<Event>, registry: Registry, n: nat)
    requires History(tables, events) && n < |tables|
    requires forall i :: 0 <= i < n ==> Healthy(events[i], registry)
    ensures AllSound(tables[n], registry)
  {
    hide Ran, PlainInput, NoErrors, Sound;
    if n > 0 {
      HistoryIsSound(tables, events, registry, n - 1);
      assert Happened(tables[n - 1], tables[n], events[n - 1]);
      assert Healthy(events[n - 1], registry);
      match events[n - 1]
      case FeedRun(feed, products, config, _, now) =>
        RunKeepsSound(tables[n - 1], tables[n], feed, products, config, registry, now);
      case Purge(_) =>
    }
  }

  lemma EventLeavesExport(before: Rows, after: Rows, e: Event, feed: int)
    requires Happened(before, after, e)
    requires !(e.FeedRun? && e.feed == feed)
    ensures ExportMap(after, feed) == ExportMap(before, feed)
  {
    match e
    case FeedRun(other, products, config, registry, now) =>
      hide Ran;
      RunLeavesOtherExports(before, after, other, products, config, registry, now, feed);
    case Purge(cutoff) =>
  }

  lemma {:induction false} QuietEventsLeaveExport(
    tables: seq<Rows>, events: seq<Event>, feed: int, last: nat, n: nat)
    requires History(tables, events) && last < n < |tables|
    requires forall i :: last < i < n ==> !(events[i].FeedRun? && events[i].feed == feed)
    ensures ExportMap(tables[n], feed) == ExportMap(tables[last + 1], feed)
  {
    hide ExportMap, Happened, Ran;
    if n > last + 1 {
      QuietEventsLeaveExport(tables, events, feed, last, n - 1);
      EventLeavesExport(tables[n - 1], tables[n], events[n - 1], feed);
    }
  }

  /** Skipping is invisible: after any history of runs and purges over any feed sources, the
      export of a feed is that of its last run made alone over an empty table. */
  lemma SkippingIsInvisible(
    tables: seq<Rows>, events: seq<Event>, registry: Registry, last: nat, n: nat, alone: Rows)
    requires History(tables, events) && last < n < |tables|
    requires forall i :: 0 <= i < n ==> Healthy(events[i], registry)
    requires events[last].FeedRun?
    requires forall i :: last < i < n ==> !(events[i].FeedRun? && events[i].feed == events[last].feed)
    requires Happened(map[], alone, events[last])
    ensures ExportList(tables[n], events[last].feed) == ExportList(alone, events[last].feed)
    ensures ExportMap(tables[n], events[last].feed) ==
      Reprocessed(events[last].products, events[last].config, registry)
  {
    hide ExportMap, Reprocessed, Ran, AllSound, PlainInput, NoErrors;
    var FeedRun(feed, products, config, _, now) := events[last];
    HistoryIsSound(tables, events, registry, last);
    assert Happened(tables[last], tables[last + 1], events[last]) && Healthy(events[last], registry);
    ExportAfterRun(tables[last], tables[last + 1], feed, products, config, registry, now);
    QuietEventsLeaveExport(tables, events, feed, last, n);
    EmptyIsSound(registry);
    ExportAfterRun(map[], alone, feed, products, config, registry, now);
  }

  lemma EmptyIsSound(registry: Registry)
    ensures AllSound(map[], registry)
  {
  }
}
