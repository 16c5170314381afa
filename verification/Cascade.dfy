/** Deleting a feed source or a client, and purging old ingestion runs, statement by statement
    under the foreign keys of the schema. */
module Cascade {
  import opened Wrappers

  datatype Feed = Feed(client: int, active: Option<int>)
  datatype IngestionRun = IngestionRun(feed: int, started: int)
  datatype Staged = Staged(feed: int, run: int)
  datatype ExportRun = ExportRun(feed: int, version: Option<int>, ingestion: Option<int>)
  datatype ExportVersion = ExportVersion(feed: int, run: int, source: Option<int>)
  datatype Finding = Finding(feed: int, run: int)
  datatype Scoped = Scoped(client: Option<int>, feed: Option<int>)

  /** The tables involved, by primary key. A history row holds its staging row, a pipeline its feed,
      a module instance its pipeline. */
  datatype Db = Db(
    clients: set<int>,
    feeds: map<int, Feed>,
    runs: map<int, IngestionRun>,
    staging: map<int, Staged>,
    history: map<int, int>,
    exportRuns: map<int, ExportRun>,
    versions: map<int, ExportVersion>,
    findings: map<int, Finding>,
    pipelines: map<int, int>,
    instances: map<int, int>,
    configs: map<int, Scoped>,
    data: map<int, Scoped>,
    templates: map<int, Option<int>>)

  // ----- No dangling references -----

  predicate Refers(o: Option<int>, ids: set<int>) {
    o.Some? ==> o.value in ids
  }

  ghost predicate FeedRefs(db: Db) {
    && (forall i :: i in db.feeds ==> db.feeds[i].client in db.clients && Refers(db.feeds[i].active, db.pipelines.Keys))
    && (forall i :: i in db.runs ==> db.runs[i].feed in db.feeds)
    && (forall i :: i in db.pipelines ==> db.pipelines[i] in db.feeds)
    && (forall i :: i in db.instances ==> db.instances[i] in db.pipelines)
  }

  ghost predicate RowRefs(db: Db) {
    && (forall i :: i in db.staging ==> db.staging[i].feed in db.feeds && db.staging[i].run in db.runs)
    && (forall i :: i in db.history ==> db.history[i] in db.staging)
    && (forall i :: i in db.findings ==> db.findings[i].feed in db.feeds && db.findings[i].run in db.runs)
  }

  ghost predicate ExportRefs(db: Db) {
    && (forall i :: i in db.exportRuns ==>
      && db.exportRuns[i].feed in db.feeds
      && Refers(db.exportRuns[i].version, db.versions.Keys) && Refers(db.exportRuns[i].ingestion, db.runs.Keys))
    && (forall i :: i in db.versions ==>
      && db.versions[i].feed in db.feeds && db.versions[i].run in db.exportRuns
      && Refers(db.versions[i].source, db.versions.Keys))
  }

  ghost predicate ScopeRefs(db: Db) {
    && (forall i :: i in db.configs ==>
      Refers(db.configs[i].client, db.clients) && Refers(db.configs[i].feed, db.feeds.Keys))
    && (forall i :: i in db.data ==> Refers(db.data[i].client, db.clients) && Refers(db.data[i].feed, db.feeds.Keys))
    && (forall i :: i in db.templates ==> Refers(db.templates[i], db.clients))
  }

  ghost predicate Sound(db: Db) {
    FeedRefs(db) && RowRefs(db) && ExportRefs(db) && ScopeRefs(db)
  }

  // ----- What deleting feeds leaves -----

  predicate Avoids(o: Option<int>, gone: set<int>) {
    o.Some? ==> o.value !in gone
  }

  function Cleared(o: Option<int>, gone: set<int>): Option<int> {
    if o.Some? && o.value in gone then None else o
  }

  function ClearVersion(r: ExportRun, gone: set<int>): (c: ExportRun)
    ensures c.feed == r.feed && c.ingestion == r.ingestion
  {
    ExportRun(r.feed, Cleared(r.version, gone), r.ingestion)
  }

  function ClearSource(v: ExportVersion, gone: set<int>): (c: ExportVersion)
    ensures c.feed == v.feed && c.run == v.run
  {
    ExportVersion(v.feed, v.run, Cleared(v.source, gone))
  }

  function RunsOf(db: Db, fs: set<int>): set<int> {
    set i | i in db.runs && db.runs[i].feed in fs
  }

  function VersionsOf(db: Db, fs: set<int>): set<int> {
    set i | i in db.versions && db.versions[i].feed in fs
  }

  function ExportRunsOf(db: Db, fs: set<int>): set<int> {
    set i | i in db.exportRuns && db.exportRuns[i].feed in fs
  }

  function StagingOf(db: Db, fs: set<int>): set<int> {
    set i | i in db.staging && db.staging[i].feed in fs
  }

  function PipelinesOf(db: Db, fs: set<int>): set<int> {
    set i | i in db.pipelines && db.pipelines[i] in fs
  }

  function InScope(rows: map<int, Scoped>, fs: set<int>): set<int> {
    set i | i in rows && rows[i].feed.Some? && rows[i].feed.value in fs
  }

  /** Everything that belongs to the feeds is gone; references that may be cleared are. */
  function Gone(db: Db, fs: set<int>): Db {
    var gone := VersionsOf(db, fs);
    Db(
      db.clients,
      db.feeds - fs,
      db.runs - RunsOf(db, fs),
      db.staging - StagingOf(db, fs),
      map i | i in db.history && db.history[i] !in StagingOf(db, fs) :: db.history[i],
      map i | i in db.exportRuns && db.exportRuns[i].feed !in fs ::
        ClearVersion(db.exportRuns[i], gone),
      map i | i in db.versions && db.versions[i].feed !in fs ::
        ClearSource(db.versions[i], gone),
      map i | i in db.findings && db.findings[i].feed !in fs :: db.findings[i],
      db.pipelines - PipelinesOf(db, fs),
      map i | i in db.instances && db.instances[i] !in PipelinesOf(db, fs) :: db.instances[i],
      db.configs - InScope(db.configs, fs),
      db.data - InScope(db.data, fs),
      db.templates)
  }

  ghost predicate VersionsElsewhere(db: Db, f: int, allowed: set<int>) {
    forall i :: i in db.versions && db.versions[i].feed !in allowed ==> db.versions[i].run !in ExportRunsOf(db, {f})
  }

  ghost predicate FeedsElsewhere(db: Db, f: int, allowed: set<int>) {
    forall i :: i in db.feeds && i !in allowed ==> Avoids(db.feeds[i].active, PipelinesOf(db, {f}))
  }

  ghost predicate StagingElsewhere(db: Db, f: int, allowed: set<int>) {
    forall i :: i in db.staging && db.staging[i].feed !in allowed ==> db.staging[i].run !in RunsOf(db, {f})
  }

  ghost predicate ExportsElsewhere(db: Db, f: int, allowed: set<int>) {
    forall i :: i in db.exportRuns && db.exportRuns[i].feed !in allowed ==>
      Avoids(db.exportRuns[i].ingestion, RunsOf(db, {f}))
  }

  ghost predicate FindingsElsewhere(db: Db, f: int, allowed: set<int>) {
    forall i :: i in db.findings && db.findings[i].feed !in allowed ==> db.findings[i].run !in RunsOf(db, {f})
  }

  /** No row of a feed outside `allowed` holds a reference to a row of `f` that forbids deletion. */
  ghost predicate Unreferenced(db: Db, f: int, allowed: set<int>) {
    VersionsElsewhere(db, f, allowed) && FeedsElsewhere(db, f, allowed) &&
    StagingElsewhere(db, f, allowed) && ExportsElsewhere(db, f, allowed) && FindingsElsewhere(db, f, allowed)
  }

  // ----- References that stay within a feed -----

  /** Every row's restricting references are to rows of its own feed. */
  ghost predicate OwnRefs(db: Db) {
    && (forall i :: i in db.versions && db.versions[i].run in db.exportRuns ==>
      db.exportRuns[db.versions[i].run].feed == db.versions[i].feed)
    && (forall i :: i in db.feeds && db.feeds[i].active.Some? && db.feeds[i].active.value in db.pipelines ==>
      db.pipelines[db.feeds[i].active.value] == i)
    && (forall i :: i in db.staging && db.staging[i].run in db.runs ==>
      db.runs[db.staging[i].run].feed == db.staging[i].feed)
    && (forall i ::
      i in db.exportRuns && db.exportRuns[i].ingestion.Some? && db.exportRuns[i].ingestion.value in db.runs ==>
        db.runs[db.exportRuns[i].ingestion.value].feed == db.exportRuns[i].feed)
    && (forall i :: i in db.findings && db.findings[i].run in db.runs ==>
      db.runs[db.findings[i].run].feed == db.findings[i].feed)
  }

  /** No feed's deletion can be refused exactly when references stay within their feed. */
  lemma AllDeletableIff(db: Db)
    ensures (forall f :: Unreferenced(db, f, {f})) <==> OwnRefs(db)
  {
    if OwnRefs(db) {
      forall f: int ensures Unreferenced(db, f, {f}) { OwnRefsAllow(db, f, {f}); }
    }
    if forall f :: Unreferenced(db, f, {f}) {
      forall i | i in db.versions && db.versions[i].run in db.exportRuns
        ensures db.exportRuns[db.versions[i].run].feed == db.versions[i].feed
      {
        assert Unreferenced(db, db.exportRuns[db.versions[i].run].feed, {db.exportRuns[db.versions[i].run].feed});
      }
      forall i | i in db.feeds && db.feeds[i].active.Some? && db.feeds[i].active.value in db.pipelines
        ensures db.pipelines[db.feeds[i].active.value] == i
      {
        assert Unreferenced(db, db.pipelines[db.feeds[i].active.value], {db.pipelines[db.feeds[i].active.value]});
      }
      OwnRunsIf(db);
    }
  }

  lemma OwnRunsIf(db: Db)
    requires forall f :: Unreferenced(db, f, {f})
    ensures forall i :: i in db.staging && db.staging[i].run in db.runs ==>
      db.runs[db.staging[i].run].feed == db.staging[i].feed
    ensures forall i ::
      i in db.exportRuns && db.exportRuns[i].ingestion.Some? && db.exportRuns[i].ingestion.value in db.runs ==>
      db.runs[db.exportRuns[i].ingestion.value].feed == db.exportRuns[i].feed
    ensures forall i :: i in db.findings && db.findings[i].run in db.runs ==>
      db.runs[db.findings[i].run].feed == db.findings[i].feed
  {
    forall r | r in db.runs
      ensures r in RunsOf(db, {db.runs[r].feed}) && Unreferenced(db, db.runs[r].feed, {db.runs[r].feed}) {}
  }

  lemma OwnRefsAllow(db: Db, f: int, allowed: set<int>)
    requires OwnRefs(db) && f in allowed
    ensures Unreferenced(db, f, allowed)
  {
  }

  lemma GoneKeepsOwnRefs(db: Db, fs: set<int>)
    requires OwnRefs(db)
    ensures OwnRefs(Gone(db, fs))
  {
    hide RunsOf, VersionsOf, ExportRunsOf, StagingOf, PipelinesOf, InScope;
    var now := Gone(db, fs);
    forall i | i in now.exportRuns
      ensures i in db.exportRuns && now.exportRuns[i].feed == db.exportRuns[i].feed
      ensures now.exportRuns[i].ingestion == db.exportRuns[i].ingestion {}
    forall i | i in now.versions
      ensures i in db.versions && now.versions[i].feed == db.versions[i].feed
        && now.versions[i].run == db.versions[i].run
      {}
  }

  lemma PurgedKeepsOwnRefs(db: Db, gone: set<int>)
    requires OwnRefs(db)
    ensures OwnRefs(Purged(db, gone))
  {
    var now := Purged(db, gone);
    forall i | i in now.exportRuns ensures now.exportRuns[i].feed == db.exportRuns[i].feed {}
    forall i | i in now.exportRuns && now.exportRuns[i].ingestion.Some?
      ensures now.exportRuns[i].ingestion == db.exportRuns[i].ingestion {}
  }

  /** A version stored under another feed than its run keeps that run's feed from being deleted. */
  lemma ForeignVersionRestricts()
    ensures
      var db := Db(
        {0}, map[1 := Feed(0, None), 2 := Feed(0, None)], map[], map[], map[], map[5 := ExportRun(1, None, None)],
        map[7 := ExportVersion(2, 5, None)], map[], map[], map[], map[], map[], map[]);
      Sound(db) && !Unreferenced(db, 1, {1})
  {
    var db := Db(
      {0}, map[1 := Feed(0, None), 2 := Feed(0, None)], map[], map[], map[], map[5 := ExportRun(1, None, None)],
      map[7 := ExportVersion(2, 5, None)], map[], map[], map[], map[], map[], map[]);
    assert FeedRefs(db) && RowRefs(db) && ExportRefs(db) && ScopeRefs(db);
    assert db.versions[7].feed == 2 && db.versions[7].run == 5 && 5 in ExportRunsOf(db, {1});
  }

  // ----- Statements -----

  /** A session inside one transaction. A statement that a foreign key forbids returns false and
      changes nothing; the caller then rolls back. */
  class Session {
    var db: Db

    method DeleteFindings(f: int)
      modifies this
      ensures db ==
        old(db).(findings := map i | i in old(db).findings && old(db).findings[i].feed != f :: old(db).findings[i])
    {
      db := db.(findings := map i | i in db.findings && db.findings[i].feed != f :: db.findings[i]);
    }

    /** Runs and versions that point at a deleted version lose that reference. */
    method DeleteVersions(f: int)
      modifies this
      ensures db == WithoutVersions(old(db), VersionsOf(old(db), {f}))
    {
      db := WithoutVersions(db, VersionsOf(db, {f}));
    }

    method DeleteExportRuns(f: int) returns (ok: bool)
      modifies this
      ensures ok <==> RunsUnversioned(old(db), ExportRunsOf(old(db), {f}))
      ensures db == if ok then old(db).(exportRuns := old(db).exportRuns - ExportRunsOf(old(db), {f})) else old(db)
    {
      ok := RunsUnversioned(db, ExportRunsOf(db, {f}));
      if ok { db := db.(exportRuns := db.exportRuns - ExportRunsOf(db, {f})); }
    }

    /** History rows go with their product. */
    method DeleteStaging(f: int)
      modifies this
      ensures db == old(db).(
        staging := old(db).staging - StagingOf(old(db), {f}),
        history := map i | i in old(db).history && old(db).history[i] !in StagingOf(old(db), {f}) :: old(db).history[i])
    {
      db := db.(
        staging := db.staging - StagingOf(db, {f}),
        history := map i | i in db.history && db.history[i] !in StagingOf(db, {f}) :: db.history[i]);
    }

    method DeleteInstances(f: int)
      modifies this
      ensures
        var was := old(db);
        db == was.(instances :=
          map i | i in was.instances && was.instances[i] !in PipelinesOf(was, {f}) :: was.instances[i])
    {
      db := db.(instances := map i | i in db.instances && db.instances[i] !in PipelinesOf(db, {f}) :: db.instances[i]);
    }

    method ClearActivePipeline(f: int)
      modifies this
      ensures db ==
        if f in old(db).feeds then old(db).(feeds := old(db).feeds[f := old(db).feeds[f].(active := None)]) else old(db)
    {
      if f in db.feeds { db := db.(feeds := db.feeds[f := db.feeds[f].(active := None)]); }
    }

    method DeletePipelines(f: int) returns (ok: bool)
      modifies this
      ensures ok <==> PipelinesUnused(old(db), PipelinesOf(old(db), {f}))
      ensures db == if ok then old(db).(pipelines := old(db).pipelines - PipelinesOf(old(db), {f})) else old(db)
    {
      ok := PipelinesUnused(db, PipelinesOf(db, {f}));
      if ok { db := db.(pipelines := db.pipelines - PipelinesOf(db, {f})); }
    }

    method DeleteRuns(gone: set<int>) returns (ok: bool)
      modifies this
      ensures ok <==> Unpointed(old(db), gone)
      ensures db == if ok then old(db).(runs := old(db).runs - gone) else old(db)
    {
      ok := Unpointed(db, gone);
      if ok { db := db.(runs := db.runs - gone); }
    }

    method DeleteScoped(f: int)
      modifies this
      ensures db == old(db).(
        configs := old(db).configs - InScope(old(db).configs, {f}), data := old(db).data - InScope(old(db).data, {f}))
    {
      db := db.(configs := db.configs - InScope(db.configs, {f}));
      db := db.(data := db.data - InScope(db.data, {f}));
    }

    /** Findings would go with their feed. */
    method DeleteFeed(f: int) returns (ok: bool)
      modifies this
      ensures ok <==> FeedUnpointed(old(db), f)
      ensures db == if ok then FeedDeleted(old(db), f) else old(db)
    {
      ok := FeedUnpointed(db, f);
      if ok { db := FeedDeleted(db, f); }
    }

    /** The statements of a feed source's deletion, in order; any refusal undoes them all. */
    method DeleteFeedSource(f: int) returns (ok: bool)
      modifies this
      ensures ok <==> Unreferenced(old(db), f, {f})
      ensures db == if ok then Gone(old(db), {f}) else old(db)
      ensures Sound(old(db)) ==> Sound(db)
      ensures OwnRefs(old(db)) ==> ok && OwnRefs(db)
    {
      hide Sound, OwnRefs, Unpointed, RunsUnversioned, PipelinesUnused, FeedUnpointed, VersionsElsewhere,
        FeedsElsewhere, StagingElsewhere, ExportsElsewhere, FindingsElsewhere;
      var start := db;
      if OwnRefs(start) {
        OwnRefsAllow(start, f, {f});
        GoneKeepsOwnRefs(start, {f});
      }
      DeleteFindings(f);
      DeleteVersions(f);
      AfterVersionsStatus(start, f);
      ok := DeleteExportRuns(f);
      if !ok { db := start; return; }
      DeleteStaging(f);
      DeleteInstances(f);
      ClearActivePipeline(f);
      BeforePipelinesStatus(start, f);
      assert db == BeforePipelines(start, f);
      ok := DeletePipelines(f);
      if !ok { db := start; return; }
      BeforeRunsStatus(start, f);
      ok := DeleteRuns(RunsOf(db, {f}));
      if !ok { db := start; return; }
      DeleteScoped(f);
      assert db == BeforeFeed(start, f);
      BeforeFeedStatus(start, f);
      ok := DeleteFeed(f);
      ThenGone(start, f);
      if Sound(start) { GoneIsSound(start, f); }
    }

    /** Deletes a client: its feed sources in the order they were selected, then its own rows. */
    method DeleteClient(c: int, order: seq<int>) returns (ok: bool)
      requires forall f :: f in order <==> f in FeedsOf(db, c)
      requires forall i, j :: 0 <= i < j < |order| ==> order[i] != order[j]
      modifies this
      ensures ok <==> forall i :: 0 <= i < |order| ==> Unreferenced(old(db), order[i], ToSet(order[..i + 1]))
      ensures db == if ok then ClientGone(Gone(old(db), FeedsOf(old(db), c)), c) else old(db)
      ensures Sound(old(db)) ==> Sound(db)
      ensures OwnRefs(old(db)) ==> ok && OwnRefs(db)
    {
      hide Gone, Unreferenced, Sound, OwnRefs;
      var start := db;
      NothingGone(db);
      if OwnRefs(start) {
        forall i | 0 <= i < |order| ensures Unreferenced(start, order[i], ToSet(order[..i + 1])) {
          assert order[i] in order[..i + 1];
          OwnRefsAllow(start, order[i], ToSet(order[..i + 1]));
        }
        GoneKeepsOwnRefs(start, FeedsOf(start, c));
        ClientGoneKeepsOwnRefs(Gone(start, FeedsOf(start, c)), c);
      }
      for i := 0 to |order|
        invariant db == Gone(start, ToSet(order[..i])) && (Sound(start) ==> Sound(db))
        invariant forall k :: 0 <= k < i ==> Unreferenced(start, order[k], ToSet(order[..k + 1]))
      {
        var f := order[i];
        assert order[..i + 1] == order[..i] + [f];
        assert ToSet(order[..i + 1]) == ToSet(order[..i]) + {f};
        assert f !in ToSet(order[..i]);
        GoneOneMore(start, ToSet(order[..i]), f);
        ok := DeleteFeedSource(f);
        if !ok { db := start; return; }
      }
      assert order[..|order|] == order;
      forall f ensures f in ToSet(order) <==> f in FeedsOf(start, c) { assert f in order <==> f in FeedsOf(start, c); }
      assert ToSet(order) == FeedsOf(start, c);
      db := db.(configs := db.configs - OfClient(db.configs, c));
      db := db.(data := db.data - OfClient(db.data, c));
      db := db.(templates := map i | i in db.templates && db.templates[i] != Some(c) :: db.templates[i]);
      ClientIsFree(start, c);
      ok := ClientUnpointed(db, c);
      if ok { db := db.(clients := db.clients - {c}); }
      ClientGoneIsSound(Gone(start, FeedsOf(start, c)), c);
    }

    /** Purges old ingestion runs that no staged product came from, and counts what that took. */
    method PurgeRuns(cutoff: int) returns (ok: bool, runs: nat, detached: nat, findings: nat)
      modifies this
      ensures ok
      ensures db == Purged(old(db), Expired(old(db), cutoff))
      ensures Sound(old(db)) ==> Sound(db)
      ensures OwnRefs(old(db)) ==> OwnRefs(db)
      ensures runs == |Expired(old(db), cutoff)| && findings == |old(db).findings| - |db.findings|
      ensures detached == |Changed(old(db).exportRuns, db.exportRuns)|
    {
      hide OwnRefs, Sound, Expired, Changed, Pointing, DetachedFrom, Without, FoundIn, Unpointed;
      var purged := Expired(db, cutoff);
      PurgedIsSound(db, cutoff);
      PurgedIsFree(db, cutoff);
      ChangedArePointing(db.exportRuns, purged);
      FindingsSplit(db.findings, purged);
      if OwnRefs(db) { PurgedKeepsOwnRefs(db, purged); }
      if purged == {} {
        PurgedNothing(db);
        return true, 0, 0, 0;
      }
      runs, detached, findings := |purged|, |Pointing(db.exportRuns, purged)|, |FoundIn(db.findings, purged)|;
      db := db.(exportRuns := DetachedFrom(db.exportRuns, purged));
      db := db.(findings := Without(db.findings, purged));
      ok := DeleteRuns(purged);
    }
  }

  function Without(findings: map<int, Finding>, gone: set<int>): map<int, Finding> {
    map i | i in findings && findings[i].run !in gone :: findings[i]
  }

  function DetachedFrom(runs: map<int, ExportRun>, gone: set<int>): map<int, ExportRun> {
    map i | i in runs :: runs[i].(ingestion := Cleared(runs[i].ingestion, gone))
  }

  /** The export runs that point at these ingestion runs. */
  function Pointing(runs: map<int, ExportRun>, gone: set<int>): set<int> {
    set i | i in runs && runs[i].ingestion.Some? && runs[i].ingestion.value in gone
  }

  /** The export runs whose ingestion run is another one now. */
  ghost function Changed(before: map<int, ExportRun>, after: map<int, ExportRun>): set<int> {
    set i | i in before && i in after && before[i].ingestion != after[i].ingestion
  }

  lemma ChangedArePointing(runs: map<int, ExportRun>, gone: set<int>)
    ensures Changed(runs, DetachedFrom(runs, gone)) == Pointing(runs, gone)
    ensures gone == {} ==> Pointing(runs, gone) == {}
  {
    var after := DetachedFrom(runs, gone);
    forall i ensures i in Changed(runs, after) <==> i in Pointing(runs, gone) {
      if i in runs { assert after[i].ingestion == Cleared(runs[i].ingestion, gone); }
    }
  }

  /** The findings of these ingestion runs. */
  function FoundIn(findings: map<int, Finding>, gone: set<int>): set<int> {
    set i | i in findings && findings[i].run in gone
  }

  lemma FindingsSplit(findings: map<int, Finding>, gone: set<int>)
    ensures |FoundIn(findings, gone)| == |findings| - |Without(findings, gone)|
    ensures gone == {} ==> FoundIn(findings, gone) == {}
  {
    var kept, dropped := Without(findings, gone).Keys, FoundIn(findings, gone);
    assert findings.Keys == kept + dropped && kept !! dropped;
    assert |findings| == |findings.Keys| && |Without(findings, gone)| == |kept|;
  }

  /** When their export runs are detached and their findings gone, nothing points at the runs. */
  lemma PurgedIsFree(db: Db, cutoff: int)
    ensures Unpointed(Purged(db, Expired(db, cutoff)).(runs := db.runs), Expired(db, cutoff))
  {
    var gone := Expired(db, cutoff);
    var now := Purged(db, gone).(runs := db.runs);
    forall i | i in now.exportRuns ensures Avoids(now.exportRuns[i].ingestion, gone) {}
    assert StagingAvoids(now, gone) && FindingsAvoid(now, gone);
  }

  lemma ClientGoneKeepsOwnRefs(db: Db, c: int)
    requires OwnRefs(db)
    ensures OwnRefs(ClientGone(db, c))
  {
  }

  function ToSet(s: seq<int>): set<int> {
    set f | f in s
  }

  function FeedsOf(db: Db, c: int): set<int> {
    set f | f in db.feeds && db.feeds[f].client == c
  }

  function OfClient(rows: map<int, Scoped>, c: int): set<int> {
    set i | i in rows && rows[i].client == Some(c)
  }

  function ClientGone(db: Db, c: int): Db {
    db.(
      configs := db.configs - OfClient(db.configs, c),
      data := db.data - OfClient(db.data, c),
      templates := map i | i in db.templates && db.templates[i] != Some(c) :: db.templates[i],
      clients := db.clients - {c})
  }

  predicate ClientUnpointed(db: Db, c: int) {
    FeedsOf(db, c) == {} && OfClient(db.configs, c) == {} && OfClient(db.data, c) == {}
  }

  /** Old runs, except those a staged product still points at. */
  function Expired(db: Db, cutoff: int): set<int> {
    set i | i in db.runs && db.runs[i].started < cutoff && i !in (set k | k in db.staging :: db.staging[k].run)
  }

  function Purged(db: Db, gone: set<int>): Db {
    db.(
      exportRuns := DetachedFrom(db.exportRuns, gone),
      findings := Without(db.findings, gone),
      runs := db.runs - gone)
  }

  lemma PurgedNothing(db: Db)
    ensures Purged(db, {}) == db
  {
    var now := Purged(db, {});
    forall i | i in db.exportRuns ensures now.exportRuns[i] == db.exportRuns[i] {}
    assert now.exportRuns == db.exportRuns && now.findings == db.findings && now.runs == db.runs;
  }

  lemma NothingGone(db: Db)
    ensures Gone(db, ToSet([])) == db
  {
    assert ToSet([]) == {};
    NoVersionsGone(db);
    NoRowsGone(db);
  }

  lemma NoVersionsGone(db: Db)
    ensures Gone(db, {}).exportRuns == db.exportRuns && Gone(db, {}).versions == db.versions
  {
    var now := Gone(db, {});
    forall i | i in db.exportRuns ensures i in now.exportRuns && now.exportRuns[i] == db.exportRuns[i] {}
    forall i | i in db.versions ensures i in now.versions && now.versions[i] == db.versions[i] {}
  }

  lemma NoRowsGone(db: Db)
    ensures
      var now := Gone(db, {});
      && now.feeds == db.feeds && now.runs == db.runs && now.staging == db.staging && now.history == db.history
      && now.findings == db.findings && now.pipelines == db.pipelines && now.instances == db.instances
      && now.configs == db.configs && now.data == db.data
  {
  }

  lemma ClientIsFree(db: Db, c: int)
    ensures FeedsOf(Gone(db, FeedsOf(db, c)), c) == {}
  {
  }

  /** Deleting one feed after others is deleting them all, and is refused only for rows of feeds
      that are still there. */
  lemma GoneOneMore(db: Db, fs: set<int>, f: int)
    requires f !in fs
    ensures Gone(Gone(db, fs), {f}) == Gone(db, fs + {f})
    ensures Unreferenced(Gone(db, fs), f, {f}) <==> Unreferenced(db, f, fs + {f})
  {
    hide RunsOf, VersionsOf, ExportRunsOf, StagingOf, PipelinesOf, InScope, Unreferenced;
    OwnedAfter(db, fs, f);
    ExportsGoneOneMore(db, fs, f);
    FeedsGoneOneMore(db, fs, f);
    ScopesGoneOneMore(db, fs, f);
    RowsGoneOneMore(db, fs, f);
    PipelinesGoneOneMore(db, fs, f);
    ElsewhereAfter(db, fs, f);
  }

  lemma OwnedAfter(db: Db, fs: set<int>, f: int)
    requires f !in fs
    ensures
      var now := Gone(db, fs);
      && RunsOf(now, {f}) == RunsOf(db, {f}) && StagingOf(now, {f}) == StagingOf(db, {f})
      && PipelinesOf(now, {f}) == PipelinesOf(db, {f})
      && VersionsOf(now, {f}) == VersionsOf(db, {f}) && ExportRunsOf(now, {f}) == ExportRunsOf(db, {f})
  {
    var now := Gone(db, fs);
    forall i ensures i in VersionsOf(now, {f}) <==> i in VersionsOf(db, {f}) {
      if i in db.versions && db.versions[i].feed !in fs { assert now.versions[i].feed == db.versions[i].feed; }
    }
    forall i ensures i in ExportRunsOf(now, {f}) <==> i in ExportRunsOf(db, {f}) {
      if i in db.exportRuns && db.exportRuns[i].feed !in fs { assert now.exportRuns[i].feed == db.exportRuns[i].feed; }
    }
  }

  lemma ExportsGoneOneMore(db: Db, fs: set<int>, f: int)
    requires f !in fs && VersionsOf(Gone(db, fs), {f}) == VersionsOf(db, {f})
    ensures Gone(Gone(db, fs), {f}).exportRuns == Gone(db, fs + {f}).exportRuns
    ensures Gone(Gone(db, fs), {f}).versions == Gone(db, fs + {f}).versions
  {
    assert VersionsOf(db, fs + {f}) == VersionsOf(db, fs) + VersionsOf(db, {f});
    ExportRunsGoneOneMore(db, fs, f);
    VersionsGoneOneMore(db, fs, f);
  }

  lemma ClearedTwice(o: Option<int>, a: set<int>, b: set<int>)
    ensures Cleared(Cleared(o, a), b) == Cleared(o, a + b)
  {
  }

  lemma ExportRunsGoneOneMore(db: Db, fs: set<int>, f: int)
    requires f !in fs && VersionsOf(Gone(db, fs), {f}) == VersionsOf(db, {f})
    requires VersionsOf(db, fs + {f}) == VersionsOf(db, fs) + VersionsOf(db, {f})
    ensures Gone(Gone(db, fs), {f}).exportRuns == Gone(db, fs + {f}).exportRuns
  {
    hide RunsOf, VersionsOf, ExportRunsOf, StagingOf, PipelinesOf, InScope, Cleared;
    var twice, once := Gone(Gone(db, fs), {f}).exportRuns, Gone(db, fs + {f}).exportRuns;
    forall i ensures i in twice <==> i in once {}
    forall i | i in once ensures twice[i] == once[i] {
      ClearedTwice(db.exportRuns[i].version, VersionsOf(db, fs), VersionsOf(db, {f}));
    }
  }

  lemma VersionsGoneOneMore(db: Db, fs: set<int>, f: int)
    requires f !in fs && VersionsOf(Gone(db, fs), {f}) == VersionsOf(db, {f})
    requires VersionsOf(db, fs + {f}) == VersionsOf(db, fs) + VersionsOf(db, {f})
    ensures Gone(Gone(db, fs), {f}).versions == Gone(db, fs + {f}).versions
  {
    hide RunsOf, VersionsOf, ExportRunsOf, StagingOf, PipelinesOf, InScope, Cleared;
    var twice, once := Gone(Gone(db, fs), {f}).versions, Gone(db, fs + {f}).versions;
    forall i ensures i in twice <==> i in once {}
    forall i | i in once ensures twice[i] == once[i] {
      ClearedTwice(db.versions[i].source, VersionsOf(db, fs), VersionsOf(db, {f}));
    }
  }

  lemma FeedsGoneOneMore(db: Db, fs: set<int>, f: int)
    ensures
      var twice, once := Gone(Gone(db, fs), {f}), Gone(db, fs + {f});
      twice.feeds == once.feeds && twice.findings == once.findings
  {
    hide RunsOf, VersionsOf, ExportRunsOf, StagingOf, PipelinesOf, InScope;
  }

  lemma ScopesGoneOneMore(db: Db, fs: set<int>, f: int)
    ensures
      var twice, once := Gone(Gone(db, fs), {f}), Gone(db, fs + {f});
      twice.configs == once.configs && twice.data == once.data
  {
    hide RunsOf, VersionsOf, ExportRunsOf, StagingOf, PipelinesOf;
    ScopedOneMore(db.configs, fs, f);
    ScopedOneMore(db.data, fs, f);
  }

  lemma ScopedOneMore(rows: map<int, Scoped>, fs: set<int>, f: int)
    ensures rows - InScope(rows, fs) - InScope(rows - InScope(rows, fs), {f}) == rows - InScope(rows, fs + {f})
  {
  }

  lemma RowsGoneOneMore(db: Db, fs: set<int>, f: int)
    requires f !in fs
    requires RunsOf(Gone(db, fs), {f}) == RunsOf(db, {f}) && StagingOf(Gone(db, fs), {f}) == StagingOf(db, {f})
    ensures
      var twice, once := Gone(Gone(db, fs), {f}), Gone(db, fs + {f});
      twice.runs == once.runs && twice.staging == once.staging && twice.history == once.history
  {
    assert RunsOf(db, fs + {f}) == RunsOf(db, fs) + RunsOf(db, {f});
    assert StagingOf(db, fs + {f}) == StagingOf(db, fs) + StagingOf(db, {f});
  }

  lemma PipelinesGoneOneMore(db: Db, fs: set<int>, f: int)
    requires f !in fs && PipelinesOf(Gone(db, fs), {f}) == PipelinesOf(db, {f})
    ensures
      var twice, once := Gone(Gone(db, fs), {f}), Gone(db, fs + {f});
      twice.pipelines == once.pipelines && twice.instances == once.instances
  {
    assert PipelinesOf(db, fs + {f}) == PipelinesOf(db, fs) + PipelinesOf(db, {f});
  }

  lemma ElsewhereAfter(db: Db, fs: set<int>, f: int)
    requires f !in fs
    ensures Unreferenced(Gone(db, fs), f, {f}) <==> Unreferenced(db, f, fs + {f})
  {
    hide RunsOf, ExportRunsOf, PipelinesOf, StagingOf, VersionsOf;
    OwnedAfter(db, fs, f);
    VersionsElsewhereAfter(db, fs, f);
    UsersElsewhereAfter(db, fs, f);
    var now := Gone(db, fs);
    forall i | i in db.feeds && i !in fs ensures i in now.feeds && now.feeds[i] == db.feeds[i] {}
    assert FeedsElsewhere(now, f, {f}) <==> FeedsElsewhere(db, f, fs + {f});
  }

  lemma VersionsElsewhereAfter(db: Db, fs: set<int>, f: int)
    requires ExportRunsOf(Gone(db, fs), {f}) == ExportRunsOf(db, {f}) && RunsOf(Gone(db, fs), {f}) == RunsOf(db, {f})
    ensures VersionsElsewhere(Gone(db, fs), f, {f}) <==> VersionsElsewhere(db, f, fs + {f})
    ensures ExportsElsewhere(Gone(db, fs), f, {f}) <==> ExportsElsewhere(db, f, fs + {f})
  {
    hide RunsOf, ExportRunsOf, VersionsOf;
    var now := Gone(db, fs);
    forall i | i in db.versions && db.versions[i].feed !in fs
      ensures i in now.versions && now.versions[i].feed == db.versions[i].feed
        && now.versions[i].run == db.versions[i].run
      {}
    forall i | i in db.exportRuns && db.exportRuns[i].feed !in fs
      ensures i in now.exportRuns && now.exportRuns[i].feed == db.exportRuns[i].feed
      ensures now.exportRuns[i].ingestion == db.exportRuns[i].ingestion {}
  }

  lemma UsersElsewhereAfter(db: Db, fs: set<int>, f: int)
    requires RunsOf(Gone(db, fs), {f}) == RunsOf(db, {f})
    ensures StagingElsewhere(Gone(db, fs), f, {f}) <==> StagingElsewhere(db, f, fs + {f})
    ensures FindingsElsewhere(Gone(db, fs), f, {f}) <==> FindingsElsewhere(db, f, fs + {f})
  {
    hide RunsOf;
    var now := Gone(db, fs);
    forall i | i in db.staging && db.staging[i].feed !in fs
      ensures i in now.staging && now.staging[i] == db.staging[i]
    {}
    forall i | i in db.findings && db.findings[i].feed !in fs
      ensures i in now.findings && now.findings[i] == db.findings[i]
    {}
  }

  // ----- Nothing is left dangling -----

  lemma GoneIsSound(db: Db, f: int)
    requires Sound(db) && Unreferenced(db, f, {f})
    ensures Sound(Gone(db, {f}))
  {
    hide FeedRefs, RowRefs, ExportRefs, ScopeRefs, Unreferenced;
    FeedRefsKept(db, f);
    RowRefsKept(db, f);
    ExportRefsKept(db, f);
    ScopeRefsKept(db, f);
  }

  lemma FeedRefsKept(db: Db, f: int)
    requires FeedRefs(db) && Unreferenced(db, f, {f})
    ensures FeedRefs(Gone(db, {f}))
  {
    hide VersionsOf, ExportRunsOf, StagingOf, InScope;
  }

  lemma RowRefsKept(db: Db, f: int)
    requires RowRefs(db) && Unreferenced(db, f, {f})
    ensures RowRefs(Gone(db, {f}))
  {
    hide VersionsOf, ExportRunsOf, PipelinesOf, InScope;
  }

  lemma ExportRefsKept(db: Db, f: int)
    requires ExportRefs(db) && Unreferenced(db, f, {f})
    ensures ExportRefs(Gone(db, {f}))
  {
    hide StagingOf, PipelinesOf, InScope;
    var now := Gone(db, {f});
    forall i | i in db.versions && db.versions[i].feed != f ensures i in now.versions {}
    forall i | i in db.exportRuns && db.exportRuns[i].feed != f ensures i in now.exportRuns {}
  }

  lemma ScopeRefsKept(db: Db, f: int)
    requires ScopeRefs(db)
    ensures ScopeRefs(Gone(db, {f}))
  {
    hide RunsOf, VersionsOf, ExportRunsOf, StagingOf, PipelinesOf;
  }

  lemma ClientGoneIsSound(db: Db, c: int)
    ensures Sound(db) && FeedsOf(db, c) == {} ==> Sound(ClientGone(db, c))
  {
    if Sound(db) && FeedsOf(db, c) == {} {
      var now := ClientGone(db, c);
      forall i | i in db.feeds ensures db.feeds[i].client != c { assert i !in FeedsOf(db, c); }
      assert FeedRefs(now) && RowRefs(now) && ExportRefs(now);
    }
  }

  lemma PurgedIsSound(db: Db, cutoff: int)
    ensures Sound(db) ==> Sound(Purged(db, Expired(db, cutoff)))
  {
    if Sound(db) {
      var now := Purged(db, Expired(db, cutoff));
      assert FeedRefs(now) && ScopeRefs(now) && RowRefs(now) && ExportRefs(now);
    }
  }

  // ----- The state between the statements -----

  function AfterVersions(db: Db, f: int): Db {
    WithoutVersions(
      db.(findings := map i | i in db.findings && db.findings[i].feed != f :: db.findings[i]), VersionsOf(db, {f}))
  }

  function AfterExportRuns(db: Db, f: int): Db {
    AfterVersions(db, f).(exportRuns := AfterVersions(db, f).exportRuns - ExportRunsOf(db, {f}))
  }

  function BeforePipelines(db: Db, f: int): Db {
    AfterExportRuns(db, f).(
      staging := db.staging - StagingOf(db, {f}),
      history := map i | i in db.history && db.history[i] !in StagingOf(db, {f}) :: db.history[i],
      instances := map i | i in db.instances && db.instances[i] !in PipelinesOf(db, {f}) :: db.instances[i],
      feeds := if f in db.feeds then db.feeds[f := db.feeds[f].(active := None)] else db.feeds)
  }

  function BeforeRuns(db: Db, f: int): Db {
    BeforePipelines(db, f).(pipelines := db.pipelines - PipelinesOf(db, {f}))
  }

  function BeforeFeed(db: Db, f: int): Db {
    BeforeRuns(db, f).(
      runs := db.runs - RunsOf(db, {f}),
      configs := db.configs - InScope(db.configs, {f}), data := db.data - InScope(db.data, {f}))
  }

  lemma AfterVersionsStatus(db: Db, f: int)
    ensures VersionsOf(db.(findings := AfterVersions(db, f).findings), {f}) == VersionsOf(db, {f})
    ensures ExportRunsOf(AfterVersions(db, f), {f}) == ExportRunsOf(db, {f})
    ensures RunsUnversioned(AfterVersions(db, f), ExportRunsOf(db, {f})) <==> VersionsElsewhere(db, f, {f})
  {
    var now := AfterVersions(db, f);
    forall i ensures i in ExportRunsOf(now, {f}) <==> i in ExportRunsOf(db, {f}) {
      if i in db.exportRuns { assert now.exportRuns[i].feed == db.exportRuns[i].feed; }
    }
    forall i | i in db.versions && db.versions[i].feed != f
      ensures i in now.versions && now.versions[i].run == db.versions[i].run
    {}
  }

  lemma BeforePipelinesStatus(db: Db, f: int)
    ensures PipelinesOf(BeforePipelines(db, f), {f}) == PipelinesOf(db, {f})
    ensures PipelinesUnused(BeforePipelines(db, f), PipelinesOf(db, {f})) <==> FeedsElsewhere(db, f, {f})
  {
    var now := BeforePipelines(db, f);
    forall i | i in db.feeds ensures i in now.feeds && (i != f ==> now.feeds[i] == db.feeds[i]) {}
  }

  lemma BeforeRunsStatus(db: Db, f: int)
    ensures RunsOf(BeforeRuns(db, f), {f}) == RunsOf(db, {f})
    ensures Unpointed(BeforeRuns(db, f), RunsOf(db, {f})) <==>
      StagingElsewhere(db, f, {f}) && ExportsElsewhere(db, f, {f}) && FindingsElsewhere(db, f, {f})
  {
    hide BeforeRuns, StagingElsewhere, ExportsElsewhere, FindingsElsewhere, StagingAvoids, ExportsAvoid, FindingsAvoid;
    StagingStatus(db, f);
    ExportsStatus(db, f);
    FindingsStatus(db, f);
  }

  lemma StagingStatus(db: Db, f: int)
    ensures RunsOf(BeforeRuns(db, f), {f}) == RunsOf(db, {f})
    ensures StagingAvoids(BeforeRuns(db, f), RunsOf(db, {f})) <==> StagingElsewhere(db, f, {f})
  {
    var now := BeforeRuns(db, f);
    forall i | i in db.staging && db.staging[i].feed != f ensures i in now.staging && now.staging[i] == db.staging[i] {}
  }

  lemma ExportsStatus(db: Db, f: int)
    ensures ExportsAvoid(BeforeRuns(db, f), RunsOf(db, {f})) <==> ExportsElsewhere(db, f, {f})
  {
    var now := BeforeRuns(db, f);
    forall i | i in db.exportRuns && db.exportRuns[i].feed != f
      ensures i in now.exportRuns && now.exportRuns[i].ingestion == db.exportRuns[i].ingestion {}
  }

  lemma FindingsStatus(db: Db, f: int)
    ensures FindingsAvoid(BeforeRuns(db, f), RunsOf(db, {f})) <==> FindingsElsewhere(db, f, {f})
  {
    var now := BeforeRuns(db, f);
    forall i | i in db.findings && db.findings[i].feed != f
      ensures i in now.findings && now.findings[i] == db.findings[i]
    {}
  }

  lemma BeforeFeedStatus(db: Db, f: int)
    ensures FeedUnpointed(BeforeFeed(db, f), f)
  {
    hide ExportRunsOf, VersionsOf;
    ExportsBeforeFeed(db, f);
  }

  lemma ExportsBeforeFeed(db: Db, f: int)
    ensures ExportRunsOf(BeforeFeed(db, f), {f}) == {} && VersionsOf(BeforeFeed(db, f), {f}) == {}
  {
    hide RunsOf, StagingOf, PipelinesOf, InScope;
    var now := BeforeFeed(db, f);
    forall i ensures i !in ExportRunsOf(now, {f}) {
      if i in now.exportRuns { assert now.exportRuns[i].feed == db.exportRuns[i].feed && i !in ExportRunsOf(db, {f}); }
    }
    forall i ensures i !in VersionsOf(now, {f}) {
      if i in now.versions { assert now.versions[i].feed == db.versions[i].feed && i !in VersionsOf(db, {f}); }
    }
  }

  function FeedDeleted(db: Db, f: int): Db {
    db.(feeds := db.feeds - {f}, findings := map i | i in db.findings && db.findings[i].feed != f :: db.findings[i])
  }

  lemma ExportsThenGone(db: Db, f: int)
    ensures BeforeFeed(db, f).exportRuns == Gone(db, {f}).exportRuns
    ensures BeforeFeed(db, f).versions == Gone(db, {f}).versions
  {
  }

  lemma FeedsThenGone(db: Db, f: int)
    ensures BeforeFeed(db, f).feeds - {f} == Gone(db, {f}).feeds
  {
    hide RunsOf, VersionsOf, ExportRunsOf, StagingOf, PipelinesOf, InScope;
    var inactive := if f in db.feeds then db.feeds[f := db.feeds[f].(active := None)] else db.feeds;
    assert BeforeFeed(db, f).feeds == inactive && Gone(db, {f}).feeds == db.feeds - {f};
    ActiveGoesToo(db.feeds, inactive, f);
  }

  lemma ActiveGoesToo(feeds: map<int, Feed>, inactive: map<int, Feed>, f: int)
    requires inactive == if f in feeds then feeds[f := feeds[f].(active := None)] else feeds
    ensures inactive - {f} == feeds - {f}
  {
  }

  lemma FindingsThenGone(db: Db, f: int)
    ensures FeedDeleted(BeforeFeed(db, f), f).findings == Gone(db, {f}).findings
  {
    hide RunsOf, VersionsOf, ExportRunsOf, StagingOf, PipelinesOf, InScope;
  }

  lemma ThenGone(db: Db, f: int)
    ensures FeedDeleted(BeforeFeed(db, f), f) == Gone(db, {f})
  {
    hide VersionsOf, ExportRunsOf, StagingOf, PipelinesOf, RunsOf, InScope;
    ExportsThenGone(db, f);
    FeedsThenGone(db, f);
    FindingsThenGone(db, f);
  }

  predicate RunsUnversioned(db: Db, gone: set<int>) {
    forall i :: i in db.versions ==> db.versions[i].run !in gone
  }

  predicate PipelinesUnused(db: Db, gone: set<int>) {
    && (forall i :: i in db.instances ==> db.instances[i] !in gone)
    && (forall i :: i in db.feeds ==> Avoids(db.feeds[i].active, gone))
  }

  function WithoutVersions(db: Db, gone: set<int>): Db {
    db.(
      exportRuns := map i | i in db.exportRuns :: ClearVersion(db.exportRuns[i], gone),
      versions := map i | i in db.versions && i !in gone :: ClearSource(db.versions[i], gone))
  }

  /** No row points at these ingestion runs. */
  predicate Unpointed(db: Db, gone: set<int>) {
    StagingAvoids(db, gone) && ExportsAvoid(db, gone) && FindingsAvoid(db, gone)
  }

  predicate StagingAvoids(db: Db, gone: set<int>) {
    forall i :: i in db.staging ==> db.staging[i].run !in gone
  }

  predicate ExportsAvoid(db: Db, gone: set<int>) {
    forall i :: i in db.exportRuns ==> Avoids(db.exportRuns[i].ingestion, gone)
  }

  predicate FindingsAvoid(db: Db, gone: set<int>) {
    forall i :: i in db.findings ==> db.findings[i].run !in gone
  }

  predicate FeedUnpointed(db: Db, f: int) {
    && ExportRunsOf(db, {f}) == {} && VersionsOf(db, {f}) == {} && StagingOf(db, {f}) == {}
    && RunsOf(db, {f}) == {} && PipelinesOf(db, {f}) == {}
    && InScope(db.configs, {f}) == {} && InScope(db.data, {f}) == {}
  }
}
