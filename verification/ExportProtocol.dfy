/** Exports and rollbacks of one feed source as interleaved steps. The feed source row is
    locked from reading the latest version until commit or rollback; publishing, pruning and
    file deletion happen outside the lock, and any operation can stop at any point. */
module ExportProtocol {
  import opened ExportShelf
  import opened Wrappers

  datatype Phase =
    | Rendered(data: Content, dedupes: bool)
    | Locked(data: Content, number: nat)
    | Written(data: Content, number: nat)
    | RolledBack(number: nat)
    | Committed(data: Content, number: nat, isNew: bool)
    | Published
    | Unlinking(numbers: seq<nat>)

  datatype System = System(shelf: Shelf, ops: map<nat, Phase>)

  datatype Event =
    | Begin(op: nat, data: Content, dedupes: bool)
    | Lock(op: nat)
    | WriteFile(op: nat)
    | Commit(op: nat)
    | Abort(op: nat)                    // rollback and removal of the version file, together
    | Rollback(op: nat)                 // the transaction only: the file is still to be removed
    | Cleanup(op: nat)
    | PublishFile(op: nat)
    | PruneRows(op: nat, retention: int)
    | Unlink(op: nat)
    | Stop(op: nat)

  predicate Holds(p: Phase) {
    p.Locked? || p.Written?
  }

  predicate LockFree(ops: map<nat, Phase>) {
    forall op :: op in ops ==> !Holds(ops[op])
  }

  predicate Enabled(s: System, e: Event) {
    match e
    case Begin(op, _, _) => op !in s.ops
    case Lock(op) => op in s.ops && s.ops[op].Rendered? && LockFree(s.ops)
    case WriteFile(op) => op in s.ops && s.ops[op].Locked?
    case Commit(op) => op in s.ops && s.ops[op].Written?
    case Abort(op) => op in s.ops && Holds(s.ops[op])
    case Rollback(op) => op in s.ops && Holds(s.ops[op])
    case Cleanup(op) => op in s.ops && s.ops[op].RolledBack?
    case PublishFile(op) => op in s.ops && s.ops[op].Committed?
    case PruneRows(op, _) => op in s.ops && s.ops[op].Published?
    case Unlink(op) => op in s.ops && s.ops[op].Unlinking? && s.ops[op].numbers != []
    case Stop(op) => op in s.ops
  }

  /** The latest version carries this very content, so an export adds no new one. */
  predicate Duplicates(s: Shelf, data: Content) {
    s.rows != map[] && s.rows[Greatest(s.rows.Keys)] == Digest(data)
  }

  function Next(s: System, e: Event): System
    requires Enabled(s, e)
  {
    match e
    case Begin(op, data, dedupes) => s.(ops := s.ops[op := Rendered(data, dedupes)])
    case Lock(op) =>
      var p := s.ops[op];
      if p.dedupes && Duplicates(s.shelf, p.data)
      then s.(ops := s.ops[op := Committed(p.data, Greatest(s.shelf.rows.Keys), false)])
      else s.(ops := s.ops[op := Locked(p.data, NextNumber(s.shelf.rows))])
    case WriteFile(op) =>
      var p := s.ops[op];
      System(WriteVersion(s.shelf, p.number, p.data), s.ops[op := Written(p.data, p.number)])
    case Commit(op) =>
      var p := s.ops[op];
      System(CommitVersion(s.shelf, p.number, p.data), s.ops[op := Committed(p.data, p.number, true)])
    case Abort(op) => System(DeleteVersionFile(s.shelf, s.ops[op].number), s.ops - {op})
    case Rollback(op) => s.(ops := s.ops[op := RolledBack(s.ops[op].number)])
    case Cleanup(op) => System(DeleteVersionFile(s.shelf, s.ops[op].number), s.ops - {op})
    case PublishFile(op) =>
      var p := s.ops[op];
      System(
        if !p.isNew && s.shelf.published.Some? then s.shelf else Publish(s.shelf, p.data),
        if p.isNew then s.ops[op := Published] else s.ops - {op})
    case PruneRows(op, retention) =>
      var stale := StaleNumbers(s.shelf.rows, retention);
      System(DeleteRows(s.shelf, stale), s.ops[op := Unlinking(stale)])
    case Unlink(op) =>
      var numbers := s.ops[op].numbers;
      System(DeleteVersionFile(s.shelf, numbers[0]), s.ops[op := Unlinking(numbers[1..])])
    case Stop(op) => s.(ops := s.ops - {op})
  }

  function Run(s: System, events: seq<Event>): Option<System>
    decreases |events|
  {
    if events == [] then Some(s)
    else if Enabled(s, events[0]) then Run(Next(s, events[0]), events[1..])
    else None
  }

  // ----- The invariant -----

  ghost predicate PhaseInv(s: Shelf, p: Phase) {
    match p
    case Locked(_, n) => n == NextNumber(s.rows)
    case Written(data, n) => n == NextNumber(s.rows) && n in s.files && s.files[n] == data
    case Committed(_, n, _) => n in s.issued
    case Unlinking(numbers) => forall n :: n in numbers ==> n in s.issued && n !in s.rows
    case _ => true
  }

  ghost predicate OneHolder(ops: map<nat, Phase>) {
    forall a, b :: a in ops && b in ops && Holds(ops[a]) && Holds(ops[b]) ==> a == b
  }

  ghost predicate Inv(s: System) {
    && ShelfInv(s.shelf)
    && OneHolder(s.ops)
    && forall op :: op in s.ops ==> PhaseInv(s.shelf, s.ops[op])
  }

  /** Nobody else has been handed the version number an aborted operation gave up. */
  predicate Unclaimed(s: System, n: nat) {
    n !in s.shelf.rows && forall op :: op in s.ops && s.ops[op].Written? ==> s.ops[op].number != n
  }

  /** Removing the file of an aborted version in a transaction of its own keeps every
      committed version and every version being written exactly when its number is unclaimed. */
  lemma CleanupKeepsInvIff(s: System, op: nat)
    requires Inv(s) && Enabled(s, Cleanup(op))
    ensures Inv(Next(s, Cleanup(op))) <==> Unclaimed(s, s.ops[op].number)
  {
    var n, t := s.ops[op].number, Next(s, Cleanup(op));
    if Unclaimed(s, n) {
      forall o | o in t.ops ensures PhaseInv(t.shelf, t.ops[o]) {
        assert PhaseInv(s.shelf, s.ops[o]);
      }
    } else if n in s.shelf.rows {
      assert n in t.shelf.rows && n !in t.shelf.files;
    } else {
      var o :| o in s.ops && s.ops[o].Written? && s.ops[o].number == n;
      assert !PhaseInv(t.shelf, t.ops[o]);
    }
  }

  /** Every step keeps the invariant; a late cleanup does when its number is unclaimed. */
  lemma StepKeepsInv(s: System, e: Event)
    requires Inv(s) && Enabled(s, e)
    requires e.Cleanup? ==> Unclaimed(s, s.ops[e.op].number)
    ensures Inv(Next(s, e))
    ensures s.shelf.issued <= Next(s, e).shelf.issued
  {
    var t := Next(s, e);
    NextIsUnused(s.shelf);
    match e
    case Begin(_, _, _) =>
    case Lock(op) => LockKeepsInv(s, op);
    case WriteFile(op) => WriteKeepsInv(s, op);
    case Commit(op) => CommitStepKeepsInv(s, op);
    case Abort(op) => AbortKeepsInv(s, op);
    case Rollback(_) =>
    case Cleanup(op) => CleanupKeepsInvIff(s, op);
    case PublishFile(op) => PublishKeepsInv(s, op);
    case PruneRows(op, retention) => PruneKeepsInv(s, op, retention);
    case Unlink(op) => UnlinkKeepsInv(s, op);
    case Stop(_) =>
  }

  lemma LockKeepsInv(s: System, op: nat)
    requires Inv(s) && Enabled(s, Lock(op))
    ensures Inv(Next(s, Lock(op)))
  {
    var t := Next(s, Lock(op));
    forall o | o in t.ops ensures PhaseInv(t.shelf, t.ops[o]) {
      if o != op { assert PhaseInv(s.shelf, s.ops[o]); }
    }
  }

  lemma WriteKeepsInv(s: System, op: nat)
    requires Inv(s) && Enabled(s, WriteFile(op))
    ensures Inv(Next(s, WriteFile(op)))
  {
    var t := Next(s, WriteFile(op));
    NextIsUnused(s.shelf);
    assert PhaseInv(s.shelf, s.ops[op]);
    forall o | o in t.ops ensures PhaseInv(t.shelf, t.ops[o]) {
      if o != op { assert PhaseInv(s.shelf, s.ops[o]); }
    }
  }

  lemma CommitStepKeepsInv(s: System, op: nat)
    requires Inv(s) && Enabled(s, Commit(op))
    ensures Inv(Next(s, Commit(op)))
  {
    var t, p := Next(s, Commit(op)), s.ops[op];
    assert PhaseInv(s.shelf, p);
    NextIsUnused(s.shelf);
    CommitKeepsInv(s.shelf, p.number, p.data);
    assert t.shelf.issued[|t.shelf.issued| - 1] == p.number;
    forall o | o in t.ops ensures PhaseInv(t.shelf, t.ops[o]) {
      if o != op { assert PhaseInv(s.shelf, s.ops[o]); }
    }
  }

  lemma AbortKeepsInv(s: System, op: nat)
    requires Inv(s) && Enabled(s, Abort(op))
    ensures Inv(Next(s, Abort(op)))
  {
    var t := Next(s, Abort(op));
    assert PhaseInv(s.shelf, s.ops[op]);
    NextIsUnused(s.shelf);
    forall o | o in t.ops ensures PhaseInv(t.shelf, t.ops[o]) {
      assert PhaseInv(s.shelf, s.ops[o]) && !Holds(s.ops[o]);
    }
  }

  lemma PublishKeepsInv(s: System, op: nat)
    requires Inv(s) && Enabled(s, PublishFile(op))
    ensures Inv(Next(s, PublishFile(op)))
  {
    var t := Next(s, PublishFile(op));
    forall o | o in t.ops ensures PhaseInv(t.shelf, t.ops[o]) {
      if o in s.ops { assert PhaseInv(s.shelf, s.ops[o]); }
    }
  }

  lemma PruneKeepsInv(s: System, op: nat, retention: int)
    requires Inv(s) && Enabled(s, PruneRows(op, retention))
    ensures Inv(Next(s, PruneRows(op, retention)))
  {
    var t := Next(s, PruneRows(op, retention));
    DeleteRowsKeepsInv(s.shelf, retention);
    StaleWereIssued(s.shelf, retention);
    forall o | o in t.ops ensures PhaseInv(t.shelf, t.ops[o]) {
      if o != op { assert PhaseInv(s.shelf, s.ops[o]); }
    }
  }

  lemma StaleWereIssued(s: Shelf, retention: int)
    requires NumbersGrow(s)
    ensures forall n :: n in StaleNumbers(s.rows, retention) ==> n in s.issued && n in s.rows
  {
    StaleAreRows(s.rows, retention);
  }

  /** A file a prune still has to remove belongs to a number that was issued, is no longer
      stored and will never be handed out again, however late the removal comes. */
  lemma UnlinkKeepsInv(s: System, op: nat)
    requires Inv(s) && Enabled(s, Unlink(op))
    ensures Inv(Next(s, Unlink(op)))
  {
    var t := Next(s, Unlink(op));
    var numbers := s.ops[op].numbers;
    assert PhaseInv(s.shelf, s.ops[op]) && numbers[0] in numbers;
    NextIsUnused(s.shelf);
    forall o | o in t.ops ensures PhaseInv(t.shelf, t.ops[o]) {
      if o != op { assert PhaseInv(s.shelf, s.ops[o]); }
    }
  }

  // ----- Whole runs -----

  /** Every cleanup of the run comes while its number is unclaimed. */
  ghost predicate CleansInTime(s: System, events: seq<Event>)
    decreases |events|
  {
    events != [] && Enabled(s, events[0]) ==>
      && (events[0].Cleanup? ==> Unclaimed(s, s.ops[events[0].op].number))
      && CleansInTime(Next(s, events[0]), events[1..])
  }

  lemma {:induction false} RunKeepsInv(s: System, events: seq<Event>)
    requires Inv(s) && Run(s, events).Some? && CleansInTime(s, events)
    ensures Inv(Run(s, events).value)
    ensures s.shelf.issued <= Run(s, events).value.shelf.issued
    decreases |events|
  {
    if events != [] {
      StepKeepsInv(s, events[0]);
      RunKeepsInv(Next(s, events[0]), events[1..]);
    }
  }

  lemma {:induction false} AtomicAbortsCleanInTime(s: System, events: seq<Event>)
    requires Run(s, events).Some?
    requires forall e :: e in events ==> !e.Cleanup?
    ensures CleansInTime(s, events)
    decreases |events|
  {
    if events != [] {
      assert events[0] in events;
      AtomicAbortsCleanInTime(Next(s, events[0]), events[1..]);
    }
  }

  /** In every reachable state of interleaved exports, rollbacks, aborts and prunes each
      committed version has its file, with its hash, and no number was ever used twice. */
  lemma CommittedVersionsAreSafe(events: seq<Event>)
    requires Run(System(EMPTY, map[]), events).Some?
    requires CleansInTime(System(EMPTY, map[]), events)
    ensures
      var s := Run(System(EMPTY, map[]), events).value.shelf;
      && (forall n :: n in s.rows ==> n in s.files && Digest(s.files[n]) == s.rows[n])
      && (forall i, j :: 0 <= i < j < |s.issued| ==> s.issued[i] < s.issued[j])
      && (forall n :: n in s.rows ==> n in s.issued)
  {
    RunKeepsInv(System(EMPTY, map[]), events);
  }

  lemma RunStep(s: System, e: Event, rest: seq<Event>)
    requires Enabled(s, e)
    ensures Run(s, [e] + rest) == Run(Next(s, e), rest)
  {
    assert ([e] + rest)[1..] == rest;
  }

  /** The steps of an operation that gets a new version, up to its commit. */
  function NewVersionEvents(op: nat, data: Content, dedupes: bool): seq<Event> {
    [Begin(op, data, dedupes), Lock(op), WriteFile(op), Commit(op)]
  }

  function NewVersion(s: System, op: nat, data: Content): System {
    var n := NextNumber(s.shelf.rows);
    System(CommitVersion(WriteVersion(s.shelf, n, data), n, data), s.ops[op := Committed(data, n, true)])
  }

  lemma NewVersionRun(s: System, op: nat, data: Content, dedupes: bool, rest: seq<Event>)
    requires op !in s.ops && LockFree(s.ops) && (dedupes ==> !Duplicates(s.shelf, data))
    ensures Run(s, NewVersionEvents(op, data, dedupes) + rest) == Run(NewVersion(s, op, data), rest)
  {
    var s1 := Next(s, Begin(op, data, dedupes));
    var s2 := Next(s1, Lock(op));
    var s3 := Next(s2, WriteFile(op));
    assert Next(s3, Commit(op)) == NewVersion(s, op, data);
    RunStep(s3, Commit(op), rest);
    RunStep(s2, WriteFile(op), [Commit(op)] + rest);
    RunStep(s1, Lock(op), [WriteFile(op)] + ([Commit(op)] + rest));
    RunStep(s, Begin(op, data, dedupes), [Lock(op)] + ([WriteFile(op)] + ([Commit(op)] + rest)));
    assert NewVersionEvents(op, data, dedupes) + rest ==
      [Begin(op, data, dedupes)] + ([Lock(op)] + ([WriteFile(op)] + ([Commit(op)] + rest)));
  }

  /** The steps of an operation that aborts after writing its file. */
  lemma AbortedRun(s: System, op: nat, data: Content, dedupes: bool, end: Event, rest: seq<Event>)
    requires op !in s.ops && LockFree(s.ops) && (dedupes ==> !Duplicates(s.shelf, data))
    requires end == Abort(op) || end == Rollback(op)
    ensures
      var n := NextNumber(s.shelf.rows);
      Run(s, [Begin(op, data, dedupes), Lock(op), WriteFile(op), end] + rest) ==
        if end.Abort? then Run(System(DeleteVersionFile(s.shelf, n), s.ops), rest)
        else Run(System(WriteVersion(s.shelf, n, data), s.ops[op := RolledBack(n)]), rest)
  {
    hide Run;
    var s1 := Next(s, Begin(op, data, dedupes));
    var s2 := Next(s1, Lock(op));
    var s3 := Next(s2, WriteFile(op));
    var n := NextNumber(s.shelf.rows);
    assert s3 == System(WriteVersion(s.shelf, n, data), s.ops[op := Written(data, n)]);
    assert Next(s3, end) ==
      (if end.Abort? then System(DeleteVersionFile(s.shelf, n), s.ops)
       else System(WriteVersion(s.shelf, n, data), s.ops[op := RolledBack(n)]));
    RunStep(s3, end, rest);
    RunStep(s2, WriteFile(op), [end] + rest);
    RunStep(s1, Lock(op), [WriteFile(op)] + ([end] + rest));
    RunStep(s, Begin(op, data, dedupes), [Lock(op)] + ([WriteFile(op)] + ([end] + rest)));
    assert [Begin(op, data, dedupes), Lock(op), WriteFile(op), end] + rest ==
      [Begin(op, data, dedupes)] + ([Lock(op)] + ([WriteFile(op)] + ([end] + rest)));
  }

  /** The transaction of an aborted export ends, and with it the lock, before its version file
      is removed. When another export takes the number in between, its file is lost. */
  lemma LateCleanupLosesFile()
    ensures
      var events :=
        [Begin(1, "a", true), Lock(1), WriteFile(1), Rollback(1)] + (NewVersionEvents(2, "b", true) + [Cleanup(1)]);
      var s := Run(System(EMPTY, map[]), events);
      s.Some? && 1 in s.value.shelf.rows && 1 !in s.value.shelf.files
  {
    hide Run;
    var s0 := System(EMPTY, map[]);
    AbortedRun(s0, 1, "a", true, Rollback(1), NewVersionEvents(2, "b", true) + [Cleanup(1)]);
    var s1 := System(WriteVersion(EMPTY, 1, "a"), map[1 := RolledBack(1)]);
    NewVersionRun(s1, 2, "b", true, [Cleanup(1)]);
    OneStep(NewVersion(s1, 2, "b"), Cleanup(1));
  }

  lemma OneStep(s: System, e: Event)
    requires Enabled(s, e)
    ensures Run(s, [e]) == Some(Next(s, e))
  {
    RunStep(s, e, []);
    assert [e] + [] == [e];
  }

  // ----- The published file under interleaving -----

  /** The published file is the content of the highest version. */
  ghost predicate Current(s: Shelf) {
    s.rows != map[] ==> s.published.Some? && Digest(s.published.value) == s.rows[Greatest(s.rows.Keys)]
  }

  /** The digest of the highest version. */
  function NewestHash(s: Shelf): Option<FileHash> {
    if s.rows == map[] then None else Some(s.rows[Greatest(s.rows.Keys)])
  }

  /** The content a step puts into the published file. A publish after a deduplicated export
      writes only where no file is. */
  function Puts(s: System, e: Event): Option<Content>
    requires Enabled(s, e)
  {
    if e.PublishFile? && (s.ops[e.op].isNew || s.shelf.published.None?) then Some(s.ops[e.op].data) else None
  }

  /** The content of the last publish of a run that wrote. */
  ghost function LastPut(s: System, events: seq<Event>): Option<Content>
    decreases |events|
  {
    if events == [] || !Enabled(s, events[0]) then None
    else
      var later := LastPut(Next(s, events[0]), events[1..]);
      if later.Some? then later else Puts(s, events[0])
  }

  /** The content of the last version a run commits. */
  ghost function LastCommit(s: System, events: seq<Event>): Option<Content>
    decreases |events|
  {
    if events == [] || !Enabled(s, events[0]) then None
    else
      var later := LastCommit(Next(s, events[0]), events[1..]);
      if later.Some? then later else if events[0].Commit? then Some(s.ops[events[0].op].data) else None
  }

  /** Only a commit changes what the newest version is: no prune, abort or cleanup reaches it. */
  lemma StepKeepsNewest(s: System, e: Event)
    requires Inv(s) && Enabled(s, e)
    ensures NewestHash(Next(s, e).shelf) ==
      if e.Commit? then Some(Digest(s.ops[e.op].data)) else NewestHash(s.shelf)
  {
    hide NextNumber;
    match e
    case Commit(op) =>
      assert PhaseInv(s.shelf, s.ops[op]);
      GreatestCommitted(s.shelf.rows, s.ops[op].number, Digest(s.ops[op].data));
    case PruneRows(_, retention) =>
      DeleteRowsKeepsInv(s.shelf, retention);
    case _ =>
  }

  lemma {:induction false} RunEndsWithLast(s: System, events: seq<Event>)
    requires Inv(s) && Run(s, events).Some? && CleansInTime(s, events)
    ensures
      var t := Run(s, events).value.shelf;
      && t.published == (if LastPut(s, events).Some? then LastPut(s, events) else s.shelf.published)
      && NewestHash(t) ==
        if LastCommit(s, events).Some? then Some(Digest(LastCommit(s, events).value)) else NewestHash(s.shelf)
    decreases |events|
  {
    hide Inv, Unclaimed, NewestHash;
    if events != [] {
      StepKeepsInv(s, events[0]);
      StepKeepsNewest(s, events[0]);
      RunEndsWithLast(Next(s, events[0]), events[1..]);
    }
  }

  /** However exports, rollbacks, aborts and prunes interleave, the published file ends up
      current exactly when the last publish that wrote wrote what was committed last. */
  lemma PublishedIsCurrentIff(events: seq<Event>)
    requires Run(System(EMPTY, map[]), events).Some?
    requires CleansInTime(System(EMPTY, map[]), events)
    ensures Current(Run(System(EMPTY, map[]), events).value.shelf) <==>
      LastCommit(System(EMPTY, map[]), events).None?
      || LastPut(System(EMPTY, map[]), events) == LastCommit(System(EMPTY, map[]), events)
  {
    RunEndsWithLast(System(EMPTY, map[]), events);
  }

  /** A new version that is committed and not yet published. */
  predicate Pending(p: Phase) {
    p.Committed? && p.isNew
  }

  /** Every new version is published before the next one is committed, and none is given up. */
  ghost predicate InOrder(s: System, events: seq<Event>)
    decreases |events|
  {
    events != [] && Enabled(s, events[0]) ==>
      && (events[0].Commit? ==> forall op :: op in s.ops ==> !Pending(s.ops[op]))
      && (events[0].Stop? ==> !Pending(s.ops[events[0].op]))
      && InOrder(Next(s, events[0]), events[1..])
  }

  /** One version at most is to be published, and it is the newest; without one the file is
      current; and while there is no file yet, every export to publish carries the newest content. */
  ghost predicate OrderInv(s: System) {
    && (forall op :: op in s.ops && Pending(s.ops[op]) ==> NewestHash(s.shelf) == Some(Digest(s.ops[op].data)))
    && ((forall op :: op in s.ops ==> !Pending(s.ops[op])) ==> Current(s.shelf))
    && (s.shelf.published.None? ==>
      forall op :: op in s.ops && s.ops[op].Committed? ==> NewestHash(s.shelf) == Some(Digest(s.ops[op].data)))
  }

  lemma StepKeepsOrder(s: System, e: Event)
    requires Inv(s) && Enabled(s, e) && OrderInv(s)
    requires e.Commit? ==> forall op :: op in s.ops ==> !Pending(s.ops[op])
    requires e.Stop? ==> !Pending(s.ops[e.op])
    ensures OrderInv(Next(s, e))
  {
    hide Inv, NextNumber, StaleNumbers;
    var t := Next(s, e);
    StepKeepsNewest(s, e);
    forall op | op in t.ops && t.ops[op].Committed? && !(e.Commit? && op == e.op)
      ensures
        (op in s.ops && s.ops[op] == t.ops[op])
        || (!t.ops[op].isNew && NewestHash(s.shelf) == Some(Digest(t.ops[op].data))) {}
    if e.Commit? {
      assert Pending(t.ops[e.op]);
    } else if !e.PublishFile? && forall op :: op in t.ops ==> !Pending(t.ops[op]) {
      forall op | op in s.ops ensures !Pending(s.ops[op]) {
        if op in t.ops { assert !Pending(t.ops[op]); }
      }
    }
  }

  lemma {:induction false} RunKeepsOrder(s: System, events: seq<Event>)
    requires Inv(s) && OrderInv(s) && Run(s, events).Some? && CleansInTime(s, events) && InOrder(s, events)
    ensures OrderInv(Run(s, events).value)
    decreases |events|
  {
    hide Inv, OrderInv, Unclaimed;
    if events != [] {
      StepKeepsInv(s, events[0]);
      StepKeepsOrder(s, events[0]);
      RunKeepsOrder(Next(s, events[0]), events[1..]);
    }
  }

  /** Any interleaving that publishes every version before it commits the next ends with a
      current file as soon as nothing is left to publish. */
  lemma InOrderEndsCurrent(events: seq<Event>)
    requires Run(System(EMPTY, map[]), events).Some?
    requires CleansInTime(System(EMPTY, map[]), events) && InOrder(System(EMPTY, map[]), events)
    requires
      var ops := Run(System(EMPTY, map[]), events).value.ops;
      forall op :: op in ops ==> !Pending(ops[op])
    ensures Current(Run(System(EMPTY, map[]), events).value.shelf)
  {
    RunKeepsOrder(System(EMPTY, map[]), events);
  }

  /** Two exports that commit in one order and publish in the other leave the older content
      published. */
  lemma PublishesOutOfOrder()
    ensures
      var events :=
        NewVersionEvents(1, "a", true) + (NewVersionEvents(2, "b", true) + ([PublishFile(2)] + [PublishFile(1)]));
      var s := Run(System(EMPTY, map[]), events);
      s.Some? && !Current(s.value.shelf)
  {
    hide Run;
    var s0 := System(EMPTY, map[]);
    var s1 := NewVersion(s0, 1, "a");
    var s2 := NewVersion(s1, 2, "b");
    var s3 := Next(s2, PublishFile(2));
    NewVersionRun(s0, 1, "a", true, NewVersionEvents(2, "b", true) + ([PublishFile(2)] + [PublishFile(1)]));
    NewVersionRun(s1, 2, "b", true, [PublishFile(2)] + [PublishFile(1)]);
    RunStep(s2, PublishFile(2), [PublishFile(1)]);
    OneStep(s3, PublishFile(1));
    assert s2.shelf.rows == map[1 := Digest("a"), 2 := Digest("b")];
    GreatestOfTwo(s2.shelf.rows);
  }

  lemma GreatestOfTwo(rows: map<nat, FileHash>)
    requires rows == map[1 := Digest("a"), 2 := Digest("b")]
    ensures rows.Keys == {1, 2} && Greatest(rows.Keys) == 2
  {
    assert rows.Keys == {1, 2};
  }
}
