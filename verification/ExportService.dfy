/** The export service run one operation after another: exporting a run, rolling back to a
    version, pruning. Every fault the code guards against is a parameter of the call. */
module ExportService {
  import opened ExportShelf
  import opened ExportProtocol
  import opened Wrappers

  /** Which fallible actions succeed, and at which stale file, if any, a removal fails. Marking a
      run failed is a transaction of its own; its errors are logged only. */
  datatype Faults = Faults(
    write: bool, commit: bool, publish: bool, pruneCommits: bool, unlinkFails: Option<nat>, marks: bool)

  const NO_FAULTS := Faults(true, true, true, true, None, true)

  datatype RunStatus = Pending | Completed | Failed | RolledBack

  datatype Outcome =
    | Exported(number: nat, deduplicated: bool)
    | Raised

  // ----- The specification -----

  function Commits(f: Faults): bool {
    f.write && f.commit
  }

  function PruneEffect(s: Shelf, retention: int, f: Faults): Shelf {
    var stale := StaleNumbers(s.rows, retention);
    if !f.pruneCommits then s
    else
      DeleteFiles(DeleteRows(s, stale), Unlinked(stale, f))
  }

  /** The stale files removed before a removal fails. */
  function Unlinked(stale: seq<nat>, f: Faults): seq<nat> {
    if f.unlinkFails.Some? && f.unlinkFails.value < |stale| then stale[..f.unlinkFails.value] else stale
  }

  /** The stored state after a new version is written, committed, published and pruned. */
  function VersionEffect(s: Shelf, data: Content, retention: int, f: Faults): Shelf {
    var n := NextNumber(s.rows);
    if !Commits(f) then DeleteVersionFile(s, n)
    else
      var committed := CommitVersion(WriteVersion(s, n, data), n, data);
      if !f.publish then committed else PruneEffect(Publish(committed, data), retention, f)
  }

  /** Parsing a file and rendering what was parsed; None where either raises. */
  type Render = Content -> Option<Content>

  predicate Renders(s: Shelf, source: nat, render: Render) {
    source in s.rows && source in s.files && render(s.files[source]).Some?
  }

  function RollbackEffect(s: Shelf, source: nat, render: Render, retention: int, f: Faults): Shelf {
    if Renders(s, source, render) then VersionEffect(s, render(s.files[source]).value, retention, f) else s
  }

  /** A deduplicated export still commits its run, and publishes only where no file is. */
  function ExportEffect(s: Shelf, data: Content, retention: int, f: Faults): Shelf {
    if Duplicates(s, data) then
      (if f.commit && f.publish && s.published.None? then Publish(s, data) else s)
    else VersionEffect(s, data, retention, f)
  }

  /** Whether the transaction of an export commits. */
  predicate ExportCommits(s: Shelf, data: Content, f: Faults) {
    if Duplicates(s, data) then f.commit else Commits(f)
  }

  /** Whether an export gets as far as its outcome. */
  predicate ExportSucceeds(s: Shelf, data: Content, f: Faults) {
    ExportCommits(s, data, f) && (f.publish || (Duplicates(s, data) && s.published.Some?))
  }

  class Service {
    var rows: map<nat, FileHash>
    var files: map<nat, Content>
    var published: Option<Content>
    var runs: map<int, RunStatus>
    var rollbackRuns: seq<RunStatus>
    ghost var issued: seq<nat>

    ghost function Stored(): Shelf
      reads this
    {
      Shelf(rows, files, published, issued)
    }

    constructor (runs: map<int, RunStatus>)
      ensures Stored() == EMPTY && this.runs == runs && rollbackRuns == []
    {
      rows, files, published, issued := map[], map[], None, [];
      this.runs, rollbackRuns := runs, [];
    }

    method MarkRunFailed(run: int, f: Faults)
      modifies this`runs
      ensures runs == if f.marks && run in old(runs) then old(runs)[run := Failed] else old(runs)
    {
      if f.marks && run in runs { runs := runs[run := Failed]; }
    }

    /** Deletes all but the newest max(retention, 1) version rows, then their files. Errors are logged only. */
    method PruneRetention(retention: int, f: Faults)
      modifies this`rows, this`files
      ensures Stored() == PruneEffect(old(Stored()), retention, f)
      ensures if f.pruneCommits then NewestLeft(old(rows), rows, retention) else rows == old(rows)
    {
      NewestAreLeft(rows, retention);
      var numbers := StaleNumbers(rows, retention);
      if !f.pruneCommits { return; }
      rows := rows - ToSet(numbers);
      var i := 0;
      while i < |numbers| && f.unlinkFails != Some(i)
        invariant i <= |numbers| && (f.unlinkFails.Some? ==> i <= f.unlinkFails.value)
        invariant files == old(files) - ToSet(numbers[..i])
        invariant rows == old(rows) - ToSet(numbers)
      {
        files := files - {numbers[i]};
        i := i + 1;
      }
      assert numbers[..|numbers|] == numbers;
    }

    /** `data` is None when rendering the feed raises. */
    method ExportForRun(run: int, data: Option<Content>, retention: int, f: Faults) returns (outcome: Outcome)
      modifies this
      ensures rollbackRuns == old(rollbackRuns)
      ensures data.None? || run !in old(runs) ==> Stored() == old(Stored()) && outcome == Raised
      ensures data.Some? && run in old(runs) ==> Stored() == ExportEffect(old(Stored()), data.value, retention, f)
      ensures outcome.Exported? ==> outcome.deduplicated == Duplicates(old(Stored()), data.value)
      ensures outcome.Exported? && outcome.deduplicated ==> outcome.number == Greatest(old(rows).Keys)
      ensures outcome.Exported? && !outcome.deduplicated ==>
        var all := old(rows)[outcome.number := Digest(data.value)];
        && outcome.number == NextNumber(old(rows)) && published == data
        && if f.pruneCommits then NewestLeft(all, rows, retention) else rows == all
      ensures forall r :: r in runs <==> r in old(runs)
      ensures forall r :: r in runs && r != run ==> runs[r] == old(runs)[r]
      ensures run in runs ==> (runs[run] ==
        if outcome.Exported? then Completed
        else if f.marks then Failed
        else if data.Some? && ExportCommits(old(Stored()), data.value, f) then Completed
        else old(runs)[run])
      ensures outcome.Exported? <==> data.Some? && run in old(runs) && ExportSucceeds(old(Stored()), data.value, f)
    {
      if data.None? {
        MarkRunFailed(run, f);
        return Raised;
      }
      if run !in runs {
        MarkRunFailed(run, f);
        return Raised;
      }
      var number: nat;
      var deduplicated := rows != map[] && rows[Greatest(rows.Keys)] == Digest(data.value);
      if deduplicated {
        number := Greatest(rows.Keys);
        if !f.commit {
          MarkRunFailed(run, f);
          return Raised;
        }
      } else {
        number := NextNumber(rows);
        if f.write { files := files[number := data.value]; }
        if !f.write || !f.commit {
          files := files - {number};
          MarkRunFailed(run, f);
          return Raised;
        }
        rows := rows[number := Digest(data.value)];
        issued := issued + [number];
      }
      runs := runs[run := Completed];

      if !(deduplicated && published.Some?) {
        if !f.publish {
          MarkRunFailed(run, f);
          return Raised;
        }
        published := Some(data.value);
      }
      if !deduplicated {
        PruneRetention(retention, f);
      }
      outcome := Exported(number, deduplicated);
    }

    /** Publishes again what version `source` contains, as a new version. `render` is parsing the
        stored file and rendering it under the current channel metadata; None where that raises. */
    method Rollback(source: nat, render: Render, retention: int, f: Faults) returns (outcome: Outcome)
      modifies this
      ensures runs == old(runs)
      ensures rollbackRuns ==
        if !Renders(old(Stored()), source, render) || !Commits(f) then old(rollbackRuns)
        else old(rollbackRuns) + [if f.publish || !f.marks then RunStatus.RolledBack else Failed]
      ensures Stored() == RollbackEffect(old(Stored()), source, render, retention, f)
      ensures outcome.Exported? <==>
        && source in old(rows) && source in old(files) && render(old(files)[source]).Some?
        && f.write && f.commit && f.publish
      ensures outcome.Exported? ==> outcome == Exported(NextNumber(old(rows)), false)
      ensures outcome.Exported? ==>
        var data := render(old(files)[source]);
        var all := old(rows)[outcome.number := Digest(data.value)];
        published == data && if f.pruneCommits then NewestLeft(all, rows, retention) else rows == all
    {
      if source !in rows || source !in files { return Raised; }
      if render(files[source]).None? { return Raised; }
      var rendered := render(files[source]).value;
      var number := NextNumber(rows);
      if f.write { files := files[number := rendered]; }
      if !f.write || !f.commit {
        files := files - {number};
        return Raised;
      }
      rows := rows[number := Digest(rendered)];
      issued := issued + [number];
      rollbackRuns := rollbackRuns + [RunStatus.RolledBack];
      if !f.publish {
        if f.marks { rollbackRuns := rollbackRuns[|rollbackRuns| - 1 := Failed]; }
        return Raised;
      }
      published := Some(rendered);
      PruneRetention(retention, f);
      outcome := Exported(number, false);
    }
  }

  // ----- What pruning leaves -----

  /** The newest rows are left, and the files of the others go, up to a removal that fails: then
      those of the newest among them. */
  lemma PruneLeavesNewest(s: Shelf, retention: int, f: Faults)
    ensures
      var t, keep := PruneEffect(s, retention, f), if retention >= 1 then retention else 1;
      && t.published == s.published && t.issued == s.issued
      && (if f.pruneCommits then NewestLeft(s.rows, t.rows, retention) else t == s)
      && (forall n :: n in t.files ==> n in s.files && t.files[n] == s.files[n])
      && (forall n :: n in s.files ==>
        (n !in t.files <==>
          && n in s.rows && n !in t.rows
          && (f.unlinkFails.Some? ==> |Above(s.rows.Keys, n)| < keep + f.unlinkFails.value)))
  {
    hide StaleNumbers, Above;
    NewestAreLeft(s.rows, retention);
    StaleAreRows(s.rows, retention);
    var t, stale := PruneEffect(s, retention, f), StaleNumbers(s.rows, retention);
    var keep := if retention >= 1 then retention else 1;
    if f.pruneCommits {
      forall n | n in s.rows && n !in t.rows
        ensures n in Unlinked(stale, f) <==>
          (f.unlinkFails.Some? ==> |Above(s.rows.Keys, n)| < keep + f.unlinkFails.value)
      {
        StaleInOrder(s.rows, retention, n, |Unlinked(stale, f)|);
        assert stale[..|stale|] == stale && Unlinked(stale, f) == stale[..|Unlinked(stale, f)|];
      }
    }
  }

  // ----- What serialized operations keep -----

  lemma VersionEffectKeepsInv(s: Shelf, data: Content, retention: int, f: Faults)
    requires ShelfInv(s)
    ensures ShelfInv(VersionEffect(s, data, retention, f))
    ensures Latest(VersionEffect(s, data, retention, f).rows) ==
      if Commits(f) then Some(NextNumber(s.rows)) else Latest(s.rows)
    ensures Commits(f) ==>
      var t := VersionEffect(s, data, retention, f);
      NextNumber(s.rows) in t.rows && t.rows[NextNumber(s.rows)] == Digest(data)
    ensures VersionEffect(s, data, retention, f).published ==
      if Commits(f) && f.publish then Some(data) else s.published
  {
    var n := NextNumber(s.rows);
    NextIsUnused(s);
    if Commits(f) {
      hide PruneEffect, StaleNumbers, ShelfInv;
      CommittedVersion(s, data);
      PruneEffectKeepsInv(Publish(CommitVersion(WriteVersion(s, n, data), n, data), data), retention, f);
    }
  }

  lemma CommittedVersion(s: Shelf, data: Content)
    requires ShelfInv(s)
    ensures
      var n := NextNumber(s.rows);
      var committed := CommitVersion(WriteVersion(s, n, data), n, data);
      && ShelfInv(committed) && ShelfInv(Publish(committed, data))
      && n in committed.rows && committed.rows[n] == Digest(data) && Greatest(committed.rows.Keys) == n
  {
    var n := NextNumber(s.rows);
    NextIsUnused(s);
    assert n !in s.rows;
    CommitKeepsInv(WriteVersion(s, n, data), n, data);
  }

  lemma PruneEffectKeepsInv(s: Shelf, retention: int, f: Faults)
    requires ShelfInv(s) && s.rows != map[]
    ensures ShelfInv(PruneEffect(s, retention, f)) && PruneEffect(s, retention, f).published == s.published
    ensures Latest(PruneEffect(s, retention, f).rows) == Latest(s.rows)
    ensures
      var t := PruneEffect(s, retention, f).rows;
      Greatest(s.rows.Keys) in t && t[Greatest(s.rows.Keys)] == s.rows[Greatest(s.rows.Keys)]
  {
    var stale := StaleNumbers(s.rows, retention);
    DeleteRowsKeepsInv(s, retention);
    LatestIsNotStale(s.rows, retention);
    assert forall n :: n in Unlinked(stale, f) ==> n in stale;
    FilesOfDeletedRows(DeleteRows(s, stale), Unlinked(stale, f));
  }

  /** Exactly when an export leaves the published file current: a new version needs its publish
      to succeed, unless the file already had this content; a duplicate publishes where there is
      no file, and otherwise neither breaks nor repairs what is published. */
  lemma ExportIsCurrentIff(s: Shelf, data: Content, retention: int, f: Faults)
    requires ShelfInv(s)
    ensures ShelfInv(ExportEffect(s, data, retention, f))
    ensures Current(ExportEffect(s, data, retention, f)) <==>
      if Duplicates(s, data) then Current(s) || (s.published.None? && f.commit && f.publish)
      else if Commits(f) then f.publish || s.published == Some(data)
      else Current(s)
  {
    if !Duplicates(s, data) { VersionEffectKeepsInv(s, data, retention, f); }
  }

  /** Exactly when a rollback does: one that cannot read, render or commit changes nothing that
      is published, and one that can needs its publish to succeed. */
  lemma RollbackIsCurrentIff(s: Shelf, source: nat, render: Render, retention: int, f: Faults)
    requires ShelfInv(s)
    ensures ShelfInv(RollbackEffect(s, source, render, retention, f))
    ensures Current(RollbackEffect(s, source, render, retention, f)) <==>
      if Renders(s, source, render) && Commits(f) then f.publish || s.published == render(s.files[source])
      else Current(s)
  {
    if Renders(s, source, render) { VersionEffectKeepsInv(s, render(s.files[source]).value, retention, f); }
  }

  datatype Operation =
    | Export(data: Content, retention: int, faults: Faults)
    | RollbackTo(source: nat, render: Render, retention: int, faults: Faults)

  function Effect(s: Shelf, o: Operation): Shelf {
    match o
    case Export(data, retention, f) => ExportEffect(s, data, retention, f)
    case RollbackTo(source, render, retention, f) => RollbackEffect(s, source, render, retention, f)
  }

  function Effects(s: Shelf, os: seq<Operation>): Shelf {
    if os == [] then s else Effect(Effects(s, os[..|os| - 1]), os[|os| - 1])
  }

  /** Serialized exports and rollbacks whose publishes succeed keep the published file equal to
      the highest version, whatever writes, commits and prunes fail, deduplicated or not. */
  lemma {:induction false} PublishedIsHighest(os: seq<Operation>)
    requires forall o :: o in os ==> o.faults.publish
    ensures ShelfInv(Effects(EMPTY, os)) && Current(Effects(EMPTY, os))
  {
    if os != [] {
      var o, s := os[|os| - 1], Effects(EMPTY, os[..|os| - 1]);
      assert o in os;
      PublishedIsHighest(os[..|os| - 1]);
      match o
      case Export(data, retention, f) => ExportIsCurrentIff(s, data, retention, f);
      case RollbackTo(source, render, retention, f) => RollbackIsCurrentIff(s, source, render, retention, f);
    }
  }

  /** After a failed publish, exporting the same content again, any number of times and without
      any fault, is deduplicated and leaves the old file published. */
  lemma {:induction false} IdenticalExportsStayStale(s: Shelf, data: Content, retention: int, f: Faults, times: nat)
    requires ShelfInv(s) && s.published.Some? && s.published != Some(data) && !Duplicates(s, data)
    requires Commits(f) && !f.publish
    ensures
      var failed := ExportEffect(s, data, retention, f);
      var again := Effects(failed, seq(times, _ => Export(data, retention, NO_FAULTS)));
      again == failed && again.published == s.published && !Current(again)
  {
    var failed := ExportEffect(s, data, retention, f);
    var os := seq(times, _ => Export(data, retention, NO_FAULTS));
    ExportIsCurrentIff(s, data, retention, f);
    VersionEffectKeepsInv(s, data, retention, f);
    if times > 0 {
      assert os[..times - 1] == seq(times - 1, _ => Export(data, retention, NO_FAULTS));
      IdenticalExportsStayStale(s, data, retention, f, times - 1);
    }
  }

  // ----- A serialized operation is one run of the interleaved protocol -----

  function Unlinks(op: nat, count: nat): seq<Event> {
    seq(count, _ => Unlink(op))
  }

  lemma {:induction false} UnlinksRun(s: System, op: nat, count: nat, rest: seq<Event>)
    requires op in s.ops && s.ops[op].Unlinking? && count <= |s.ops[op].numbers|
    ensures
      var numbers := s.ops[op].numbers;
      Run(s, Unlinks(op, count) + rest) ==
        Run(System(DeleteFiles(s.shelf, numbers[..count]), s.ops[op := Unlinking(numbers[count..])]), rest)
    decreases count
  {
    var numbers := s.ops[op].numbers;
    if count == 0 {
      assert s == System(DeleteFiles(s.shelf, numbers[..0]), s.ops[op := Unlinking(numbers[0..])]);
      assert Unlinks(op, 0) + rest == rest;
    } else {
      var t := Next(s, Unlink(op));
      UnlinksRun(t, op, count - 1, rest);
      RunStep(s, Unlink(op), Unlinks(op, count - 1) + rest);
      assert Unlinks(op, count) + rest == [Unlink(op)] + (Unlinks(op, count - 1) + rest);
      assert numbers[..count] == [numbers[0]] + numbers[1..][..count - 1];
      assert DeleteFiles(t.shelf, numbers[1..][..count - 1]) == DeleteFiles(s.shelf, numbers[..count]);
      assert numbers[1..][count - 1..] == numbers[count..];
      assert t.ops[op := Unlinking(numbers[count..])] == s.ops[op := Unlinking(numbers[count..])];
    }
  }

  /** The tail of an operation after its new version is published: prune, remove files, end. */
  function PruneEvents(op: nat, s: Shelf, retention: int, f: Faults): seq<Event> {
    if f.pruneCommits
    then [PruneRows(op, retention)] + (Unlinks(op, |Unlinked(StaleNumbers(s.rows, retention), f)|) + [Stop(op)])
    else [Stop(op)]
  }

  lemma PruneRun(s: System, op: nat, retention: int, f: Faults)
    requires s.ops == map[op := Published]
    ensures Run(s, PruneEvents(op, s.shelf, retention, f)) == Some(System(PruneEffect(s.shelf, retention, f), map[]))
  {
    hide StaleNumbers, Run;
    var stale := StaleNumbers(s.shelf.rows, retention);
    if f.pruneCommits {
      var count := |Unlinked(stale, f)|;
      var pruned := Next(s, PruneRows(op, retention));
      assert Unlinked(stale, f) == stale[..count];
      RunStep(s, PruneRows(op, retention), Unlinks(op, count) + [Stop(op)]);
      UnlinksRun(pruned, op, count, [Stop(op)]);
      var done := System(DeleteFiles(pruned.shelf, stale[..count]), pruned.ops[op := Unlinking(stale[count..])]);
      OneStep(done, Stop(op));
      assert Next(done, Stop(op)) == System(PruneEffect(s.shelf, retention, f), map[]);
    } else {
      OneStep(s, Stop(op));
      assert Next(s, Stop(op)).ops == map[];
    }
  }

  /** The events of one serialized operation that gets a new version. */
  function VersionEvents(op: nat, s: Shelf, data: Content, dedupes: bool, retention: int, f: Faults): seq<Event> {
    var n := NextNumber(s.rows);
    var committed := CommitVersion(WriteVersion(s, n, data), n, data);
    if !Commits(f) then
      [Begin(op, data, dedupes), Lock(op), WriteFile(op), Abort(op)] + []
    else if !f.publish then
      NewVersionEvents(op, data, dedupes) + [Stop(op)]
    else
      NewVersionEvents(op, data, dedupes) +
      ([PublishFile(op)] + PruneEvents(op, Publish(committed, data), retention, f))
  }

  /** What the service does in one call is what the protocol does in one uninterrupted run. */
  lemma VersionEffectIsARun(s: Shelf, op: nat, data: Content, dedupes: bool, retention: int, f: Faults)
    requires dedupes ==> !Duplicates(s, data)
    ensures Run(System(s, map[]), VersionEvents(op, s, data, dedupes, retention, f)) ==
      Some(System(VersionEffect(s, data, retention, f), map[]))
  {
    hide Run, PruneEffect, PruneEvents;
    var start := System(s, map[]);
    if !Commits(f) {
      AbortedRun(start, op, data, dedupes, Abort(op), []);
      EmptyRun(System(DeleteVersionFile(s, NextNumber(s.rows)), map[]));
    } else {
      var committed := NewVersion(start, op, data);
      assert committed.ops == map[op := Committed(data, NextNumber(s.rows), true)];
      if !f.publish {
        NewVersionRun(start, op, data, dedupes, [Stop(op)]);
        OneStep(committed, Stop(op));
        assert Next(committed, Stop(op)).ops == map[];
      } else {
        var published := Next(committed, PublishFile(op));
        var tail := PruneEvents(op, published.shelf, retention, f);
        NewVersionRun(start, op, data, dedupes, [PublishFile(op)] + tail);
        RunStep(committed, PublishFile(op), tail);
        assert published.ops == map[op := Published];
        PruneRun(published, op, retention, f);
      }
    }
  }

  /** The events of one serialized export, deduplicated or not. */
  function ExportEvents(op: nat, s: Shelf, data: Content, retention: int, f: Faults): seq<Event> {
    if !Duplicates(s, data) then VersionEvents(op, s, data, true, retention, f)
    else [Begin(op, data, true), Lock(op), if ExportSucceeds(s, data, f) then PublishFile(op) else Stop(op)]
  }

  lemma ExportEffectIsARun(s: Shelf, op: nat, data: Content, retention: int, f: Faults)
    ensures Run(System(s, map[]), ExportEvents(op, s, data, retention, f)) ==
      Some(System(ExportEffect(s, data, retention, f), map[]))
  {
    hide Run, VersionEvents, VersionEffect;
    if !Duplicates(s, data) {
      VersionEffectIsARun(s, op, data, true, retention, f);
    } else {
      var end := if ExportSucceeds(s, data, f) then PublishFile(op) else Stop(op);
      var start := System(s, map[]);
      var begun := Next(start, Begin(op, data, true));
      var locked := Next(begun, Lock(op));
      assert begun.ops == map[op := Rendered(data, true)];
      assert locked == System(s, map[op := Committed(data, Greatest(s.rows.Keys), false)]);
      RunStep(start, Begin(op, data, true), [Lock(op)] + [end]);
      RunStep(begun, Lock(op), [end]);
      OneStep(locked, end);
      assert Next(locked, end).ops == map[];
      assert ExportEvents(op, s, data, retention, f) == [Begin(op, data, true)] + ([Lock(op)] + [end]);
    }
  }

  lemma EmptyRun(s: System)
    ensures Run(s, []) == Some(s)
  {
  }
}
