/** Which rows go and which stay, and what changes in those that stay, when feeds or a client are
    deleted or old runs are purged. */
module CascadeRows {
  import opened Cascade
  import opened Wrappers

  ghost predicate FeedScoped(row: Scoped, fs: set<int>) {
    row.feed.Some? && row.feed.value in fs
  }

  /** A reference to a version of one of the feeds. */
  ghost predicate ToVersionOf(db: Db, o: Option<int>, fs: set<int>) {
    o.Some? && o.value in db.versions && db.versions[o.value].feed in fs
  }

  /** Everything that belongs to the feeds goes, through pipelines and staged products too; nothing
      else does. Other rows are as they were, but for references to the versions that are gone. */
  lemma GoneRows(db: Db, fs: set<int>)
    ensures
      var now := Gone(db, fs);
      && now.clients == db.clients && now.templates == db.templates
      && (forall i :: i in now.feeds <==> i in db.feeds && i !in fs)
      && (forall i :: i in now.feeds ==> now.feeds[i] == db.feeds[i])
      && (forall i :: i in now.findings <==> i in db.findings && db.findings[i].feed !in fs)
      && (forall i :: i in now.findings ==> now.findings[i] == db.findings[i])
  {
    hide RunsOf, VersionsOf, ExportRunsOf, StagingOf, PipelinesOf, InScope;
  }

  lemma GoneRuns(db: Db, fs: set<int>)
    ensures
      var now := Gone(db, fs);
      && (forall i :: i in now.runs <==> i in db.runs && db.runs[i].feed !in fs)
      && (forall i :: i in now.runs ==> now.runs[i] == db.runs[i])
      && (forall i :: i in now.staging <==> i in db.staging && db.staging[i].feed !in fs)
      && (forall i :: i in now.staging ==> now.staging[i] == db.staging[i])
      && (forall i :: i in now.history <==>
           i in db.history && !(db.history[i] in db.staging && db.staging[db.history[i]].feed in fs))
      && (forall i :: i in now.history ==> now.history[i] == db.history[i])
  {
    hide VersionsOf, ExportRunsOf, PipelinesOf, InScope;
  }

  lemma GonePipelines(db: Db, fs: set<int>)
    ensures
      var now := Gone(db, fs);
      && (forall i :: i in now.pipelines <==> i in db.pipelines && db.pipelines[i] !in fs)
      && (forall i :: i in now.pipelines ==> now.pipelines[i] == db.pipelines[i])
      && (forall i :: i in now.instances <==>
           i in db.instances && !(db.instances[i] in db.pipelines && db.pipelines[db.instances[i]] in fs))
      && (forall i :: i in now.instances ==> now.instances[i] == db.instances[i])
  {
    hide RunsOf, VersionsOf, ExportRunsOf, StagingOf, InScope;
  }

  lemma GoneScoped(db: Db, fs: set<int>)
    ensures
      var now := Gone(db, fs);
      && (forall i :: i in now.configs <==> i in db.configs && !FeedScoped(db.configs[i], fs))
      && (forall i :: i in now.configs ==> now.configs[i] == db.configs[i])
      && (forall i :: i in now.data <==> i in db.data && !FeedScoped(db.data[i], fs))
      && (forall i :: i in now.data ==> now.data[i] == db.data[i])
  {
    hide RunsOf, VersionsOf, ExportRunsOf, StagingOf, PipelinesOf;
  }

  lemma GoneExports(db: Db, fs: set<int>)
    ensures
      var now := Gone(db, fs);
      && (forall i :: i in now.exportRuns <==> i in db.exportRuns && db.exportRuns[i].feed !in fs)
      && (forall i :: i in now.exportRuns ==>
           now.exportRuns[i] == if ToVersionOf(db, db.exportRuns[i].version, fs)
                                then db.exportRuns[i].(version := None) else db.exportRuns[i])
      && (forall i :: i in now.versions <==> i in db.versions && db.versions[i].feed !in fs)
      && (forall i :: i in now.versions ==>
           now.versions[i] == if ToVersionOf(db, db.versions[i].source, fs)
                              then db.versions[i].(source := None) else db.versions[i])
  {
    forall o: Option<int> ensures Cleared(o, VersionsOf(db, fs)) == if ToVersionOf(db, o, fs) then None else o {}
    var now := Gone(db, fs);
    forall i | i in now.exportRuns
      ensures now.exportRuns[i].version ==
        if ToVersionOf(db, db.exportRuns[i].version, fs) then None else db.exportRuns[i].version
    {}
    forall i | i in now.versions
      ensures now.versions[i].source ==
        if ToVersionOf(db, db.versions[i].source, fs) then None else db.versions[i].source
    {}
  }

  /** A client's own rows go with it; rows of other clients, or of none, stay. */
  lemma ClientGoneRows(db: Db, c: int)
    ensures
      var now := ClientGone(db, c);
      && (forall k :: k in now.clients <==> k in db.clients && k != c)
      && (forall i :: i in now.configs <==> i in db.configs && db.configs[i].client != Some(c))
      && (forall i :: i in now.configs ==> now.configs[i] == db.configs[i])
      && (forall i :: i in now.data <==> i in db.data && db.data[i].client != Some(c))
      && (forall i :: i in now.data ==> now.data[i] == db.data[i])
      && (forall i :: i in now.templates <==> i in db.templates && db.templates[i] != Some(c))
      && (forall i :: i in now.templates ==> now.templates[i] == db.templates[i])
      && now == db.(clients := now.clients, configs := now.configs, data := now.data, templates := now.templates)
  {
  }

  ghost predicate StagedFrom(db: Db, run: int) {
    exists k :: k in db.staging && db.staging[k].run == run
  }

  ghost predicate Purgeable(db: Db, cutoff: int, run: int) {
    run in db.runs && db.runs[run].started < cutoff && !StagedFrom(db, run)
  }

  /** A purge takes exactly the runs before the cutoff from which no product is staged, with their
      findings, and detaches their exports. */
  lemma PurgedRows(db: Db, cutoff: int)
    ensures
      var now := Purged(db, Expired(db, cutoff));
      && (forall i :: i in now.runs <==> i in db.runs && !Purgeable(db, cutoff, i))
      && (forall i :: i in now.runs ==> now.runs[i] == db.runs[i])
      && (forall i :: i in now.findings <==> i in db.findings && !Purgeable(db, cutoff, db.findings[i].run))
      && (forall i :: i in now.findings ==> now.findings[i] == db.findings[i])
      && now == db.(runs := now.runs, findings := now.findings, exportRuns := now.exportRuns)
    ensures
      var now := Purged(db, Expired(db, cutoff));
      && now.exportRuns.Keys == db.exportRuns.Keys
      && forall i :: i in now.exportRuns ==>
           var r := db.exportRuns[i];
           now.exportRuns[i] == if r.ingestion.Some? && Purgeable(db, cutoff, r.ingestion.value)
                                then r.(ingestion := None) else r
  {
    forall run ensures run in Expired(db, cutoff) <==> Purgeable(db, cutoff, run) {
      var used := set k | k in db.staging :: db.staging[k].run;
      if StagedFrom(db, run) {
        var k :| k in db.staging && db.staging[k].run == run;
        assert db.staging[k].run in used;
      }
    }
    hide Expired, Purgeable;
    var gone := Expired(db, cutoff);
    var now := Purged(db, gone);
    forall i | i in now.exportRuns
      ensures now.exportRuns[i].ingestion ==
        if db.exportRuns[i].ingestion.Some? && Purgeable(db, cutoff, db.exportRuns[i].ingestion.value) then None
        else db.exportRuns[i].ingestion
    {}
  }
}
