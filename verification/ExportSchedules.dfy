/** Which schedules of interleaved operations publish the right file, whatever the files contain. */
module ExportSchedules {
  import opened ExportShelf
  import opened ExportProtocol
  import opened Wrappers

  const START := System(EMPTY, map[])

  predicate SameStep(e: Event, o: Event) {
    if e.Begin? then o.Begin? && o.op == e.op && o.dedupes == e.dedupes else o == e
  }

  /** The same steps of the same operations, with any contents. */
  ghost predicate SameSchedule(events: seq<Event>, others: seq<Event>) {
    |events| == |others| && forall i :: 0 <= i < |events| ==> SameStep(events[i], others[i])
  }

  /** The version number whose content a step puts into the published file. */
  function PutsNumber(s: System, e: Event): Option<nat>
    requires Enabled(s, e)
  {
    if e.PublishFile? && (s.ops[e.op].isNew || s.shelf.published.None?) then Some(s.ops[e.op].number) else None
  }

  function Latter(later: Option<nat>, earlier: Option<nat>): Option<nat> {
    if later.Some? then later else earlier
  }

  /** The version number of the last publish of a run that wrote. */
  ghost function LastPutNumber(s: System, events: seq<Event>): Option<nat>
    decreases |events|
  {
    if events == [] || !Enabled(s, events[0]) then None
    else Latter(LastPutNumber(Next(s, events[0]), events[1..]), PutsNumber(s, events[0]))
  }

  // ----- The published file has the content of the version whose number was put last -----

  /** Contents by the number they were committed under, and the number put last. */
  ghost predicate Tagged(tags: map<nat, Content>, s: System, put: Option<nat>) {
    && (forall n :: n in tags ==> n in s.shelf.issued)
    && (forall n :: n in s.shelf.rows ==> n in tags && s.shelf.rows[n] == Digest(tags[n]))
    && (forall op :: op in s.ops && s.ops[op].Committed? ==>
      s.ops[op].number in tags && tags[s.ops[op].number] == s.ops[op].data)
    && (if put.Some? then put.value in tags && s.shelf.published == Some(tags[put.value]) else s.shelf.published.None?)
  }

  function TagsAfter(tags: map<nat, Content>, s: System, e: Event): map<nat, Content>
    requires Enabled(s, e)
  {
    if e.Commit? then tags[s.ops[e.op].number := s.ops[e.op].data] else tags
  }

  lemma StepKeepsTags(tags: map<nat, Content>, s: System, e: Event, put: Option<nat>)
    requires Inv(s) && Enabled(s, e) && Tagged(tags, s, put)
    ensures Tagged(TagsAfter(tags, s, e), Next(s, e), Latter(PutsNumber(s, e), put))
  {
    hide Inv, Tagged, Next, ShelfInv;
    match e
    case Commit(op) => CommitKeepsTags(tags, s, op, put);
    case Lock(op) => LockKeepsTags(tags, s, op, put);
    case PublishFile(op) => PublishKeepsTags(tags, s, op, put);
    case _ => QuietStepKeepsTags(tags, s, e, put);
  }

  lemma CommitKeepsTags(tags: map<nat, Content>, s: System, op: nat, put: Option<nat>)
    requires Inv(s) && Enabled(s, Commit(op)) && Tagged(tags, s, put)
    ensures Tagged(TagsAfter(tags, s, Commit(op)), Next(s, Commit(op)), put)
  {
    hide Tagged, Next;
    assert s.ops[op].number !in s.shelf.issued by {
      NextIsUnused(s.shelf);
      assert PhaseInv(s.shelf, s.ops[op]);
    }
    UnusedNumberKeepsTags(tags, s, op, put);
  }

  lemma UnusedNumberKeepsTags(tags: map<nat, Content>, s: System, op: nat, put: Option<nat>)
    requires Enabled(s, Commit(op)) && s.ops[op].number !in s.shelf.issued && Tagged(tags, s, put)
    ensures Tagged(TagsAfter(tags, s, Commit(op)), Next(s, Commit(op)), put)
  {
    var p, t, later := s.ops[op], Next(s, Commit(op)), TagsAfter(tags, s, Commit(op));
    assert p.number !in tags;
    forall n | n in later ensures n in t.shelf.issued {
      if n == p.number { assert t.shelf.issued[|t.shelf.issued| - 1] == n; }
    }
    forall o | o in t.ops && t.ops[o].Committed?
      ensures t.ops[o].number in later && later[t.ops[o].number] == t.ops[o].data
    {
      if o != op { assert t.ops[o] == s.ops[o]; }
    }
  }

  lemma LockKeepsTags(tags: map<nat, Content>, s: System, op: nat, put: Option<nat>)
    requires Enabled(s, Lock(op)) && Tagged(tags, s, put)
    ensures Tagged(tags, Next(s, Lock(op)), put)
  {
    hide NextNumber;
  }

  lemma PublishKeepsTags(tags: map<nat, Content>, s: System, op: nat, put: Option<nat>)
    requires Enabled(s, PublishFile(op)) && Tagged(tags, s, put)
    ensures Tagged(tags, Next(s, PublishFile(op)), Latter(PutsNumber(s, PublishFile(op)), put))
  {
  }

  lemma QuietStepKeepsTags(tags: map<nat, Content>, s: System, e: Event, put: Option<nat>)
    requires Enabled(s, e) && !e.Commit? && !e.Lock? && !e.PublishFile? && Tagged(tags, s, put)
    ensures Tagged(tags, Next(s, e), put)
  {
    hide NextNumber, StaleNumbers;
  }

  lemma {:induction false} RunKeepsTags(tags: map<nat, Content>, s: System, events: seq<Event>, put: Option<nat>)
    returns (later: map<nat, Content>)
    requires Inv(s) && Tagged(tags, s, put) && Run(s, events).Some? && CleansInTime(s, events)
    ensures Tagged(later, Run(s, events).value, Latter(LastPutNumber(s, events), put))
    decreases |events|
  {
    hide Inv, Tagged, Unclaimed;
    if events == [] {
      later := tags;
    } else {
      StepKeepsInv(s, events[0]);
      StepKeepsTags(tags, s, events[0], put);
      later := RunKeepsTags(
        TagsAfter(tags, s, events[0]), Next(s, events[0]), events[1..], Latter(PutsNumber(s, events[0]), put));
    }
  }

  /** When the newest version's number was put last, the file is current. */
  lemma PutNewestIsCurrent(events: seq<Event>)
    requires Run(START, events).Some? && CleansInTime(START, events)
    requires
      var latest := Latest(Run(START, events).value.shelf.rows);
      latest.None? || LastPutNumber(START, events) == latest
    ensures Current(Run(START, events).value.shelf)
  {
    var _ := RunKeepsTags(map[], START, events, None);
  }

  // ----- Numbers do not depend on contents -----

  /** One run deduplicates where the other writes: neither gets any further than giving up. */
  predicate Parted(p: Phase, q: Phase) {
    p.Committed? && !p.isNew && q.Locked?
  }

  predicate AlikePhases(p: Phase, q: Phase) {
    match p
    case Rendered(_, dedupes) => q.Rendered? && q.dedupes == dedupes
    case Locked(_, n) => q.Locked? && q.number == n
    case Written(_, n) => q.Written? && q.number == n
    case Committed(_, n, isNew) => q.Committed? && q.number == n && q.isNew == isNew
    case _ => q == p
  }

  predicate AlikeOrParted(p: Phase, q: Phase) {
    AlikePhases(p, q) || Parted(p, q) || Parted(q, p)
  }

  ghost predicate Alike(s: System, t: System) {
    && s.shelf.rows.Keys == t.shelf.rows.Keys
    && s.shelf.published.Some? == t.shelf.published.Some?
    && s.ops.Keys == t.ops.Keys
    && forall op :: op in s.ops ==> AlikeOrParted(s.ops[op], t.ops[op])
  }

  lemma SameNumbers(a: map<nat, FileHash>, b: map<nat, FileHash>, retention: int)
    requires a.Keys == b.Keys
    ensures NextNumber(a) == NextNumber(b) && Latest(a) == Latest(b)
    ensures StaleNumbers(a, retention) == StaleNumbers(b, retention)
    ensures a == map[] <==> b == map[]
  {
    assert a == map[] <==> a.Keys == {};
    assert b == map[] <==> b.Keys == {};
  }

  /** An operation no step of which was taken keeps its phase. */
  lemma OthersStay(s: System, e: Event, op: nat)
    requires Enabled(s, e) && op != e.op
    ensures op in Next(s, e).ops <==> op in s.ops
    ensures op in s.ops ==> Next(s, e).ops[op] == s.ops[op]
  {
    hide NextNumber, StaleNumbers;
  }

  lemma StepsStayAlike(s: System, t: System, e: Event, o: Event)
    requires Alike(s, t) && SameStep(e, o) && Enabled(s, e) && Enabled(t, o)
    ensures Alike(Next(s, e), Next(t, o)) && PutsNumber(s, e) == PutsNumber(t, o)
  {
    SameNumbers(s.shelf.rows, t.shelf.rows, if e.PruneRows? then e.retention else 0);
    OwnPhaseStaysAlike(s, t, e, o);
    hide Next, Parted, AlikePhases;
    forall op
      ensures op in Next(s, e).ops <==> op in Next(t, o).ops
      ensures op in Next(s, e).ops ==> AlikeOrParted(Next(s, e).ops[op], Next(t, o).ops[op])
    {
      if op != e.op {
        OthersStay(s, e, op);
        OthersStay(t, o, op);
      }
    }
  }

  lemma OwnPhaseStaysAlike(s: System, t: System, e: Event, o: Event)
    requires Alike(s, t) && SameStep(e, o) && Enabled(s, e) && Enabled(t, o)
    ensures PutsNumber(s, e) == PutsNumber(t, o)
    ensures Next(s, e).shelf.rows.Keys == Next(t, o).shelf.rows.Keys
    ensures Next(s, e).shelf.published.Some? == Next(t, o).shelf.published.Some?
    ensures e.op in Next(s, e).ops <==> e.op in Next(t, o).ops
    ensures e.op in Next(s, e).ops ==> AlikeOrParted(Next(s, e).ops[e.op], Next(t, o).ops[e.op])
  {
    hide NextNumber, StaleNumbers;
    SameNumbers(s.shelf.rows, t.shelf.rows, if e.PruneRows? then e.retention else 0);
    if e.op in s.ops { assert AlikeOrParted(s.ops[e.op], t.ops[e.op]); }
  }

  lemma {:induction false} RunsStayAlike(s: System, t: System, events: seq<Event>, others: seq<Event>)
    requires Alike(s, t) && SameSchedule(events, others) && Run(s, events).Some? && Run(t, others).Some?
    ensures Alike(Run(s, events).value, Run(t, others).value)
    ensures LastPutNumber(s, events) == LastPutNumber(t, others)
    decreases |events|
  {
    hide Alike, SameStep, Next, Enabled, PutsNumber;
    if events != [] {
      StepsStayAlike(s, t, events[0], others[0]);
      RunsStayAlike(Next(s, events[0]), Next(t, others[0]), events[1..], others[1..]);
    }
  }

  // ----- A run of the same schedule in which no two versions have the same content -----

  /** A content for each number. */
  function Label(n: nat): Content {
    seq(n, _ => 'x')
  }

  lemma LabelsDiffer(m: nat, n: nat)
    ensures Digest(Label(m)) == Digest(Label(n)) <==> m == n
  {
    assert |Label(m)| == m && |Label(n)| == n;
  }

  function NumberOf(p: Phase): nat {
    if p.Locked? || p.Written? || p.Committed? then p.number else 0
  }

  /** The number an operation is going to be given, or to find taken by its content. */
  ghost function NumberAtLock(s: System, events: seq<Event>, op: nat): nat
    decreases |events|
  {
    if events == [] || !Enabled(s, events[0]) then 0
    else if events[0] == Lock(op) then NumberOf(Next(s, events[0]).ops[op])
    else NumberAtLock(Next(s, events[0]), events[1..], op)
  }

  ghost function RelabeledFirst(s: System, events: seq<Event>): Event
    requires events != [] && Enabled(s, events[0])
  {
    var e := events[0];
    if e.Begin? then Begin(e.op, Label(NumberAtLock(Next(s, e), events[1..], e.op)), e.dedupes) else e
  }

  ghost function Relabeled(s: System, events: seq<Event>): seq<Event>
    decreases |events|
  {
    if events == [] || !Enabled(s, events[0]) then events
    else
      [RelabeledFirst(s, events)] + Relabeled(Next(s, events[0]), events[1..])
  }

  lemma {:induction false} RelabeledIsSame(s: System, events: seq<Event>)
    ensures SameSchedule(events, Relabeled(s, events))
    decreases |events|
  {
    hide NumberAtLock, Next, Enabled;
    if events != [] && Enabled(s, events[0]) {
      RelabeledIsSame(Next(s, events[0]), events[1..]);
      var others := Relabeled(s, events);
      forall i | 0 <= i < |events| ensures SameStep(events[i], others[i]) {
        if i > 0 {
          assert others[i] == Relabeled(Next(s, events[0]), events[1..])[i - 1];
          assert events[i] == events[1..][i - 1];
        }
      }
    }
  }

  ghost predicate LabeledPhase(s: System, events: seq<Event>, op: nat, q: Phase)
    requires op in s.ops
  {
    match s.ops[op]
    case Rendered(_, dedupes) => q == Rendered(Label(NumberAtLock(s, events, op)), dedupes)
    case Locked(_, n) => q == Locked(Label(n), n)
    case Written(_, n) => q == Written(Label(n), n)
    case Committed(_, n, isNew) => q == Committed(Label(n), n, isNew)
    case _ => q == s.ops[op]
  }

  ghost predicate LabeledShelf(s: Shelf, t: Shelf, put: Option<nat>) {
    && t.rows.Keys == s.rows.Keys
    && (forall n :: n in t.rows ==> t.rows[n] == Digest(Label(n)))
    && t.published.Some? == s.published.Some?
    && t.published == if put.Some? then Some(Label(put.value)) else None
  }

  /** `t` is `s` with every content replaced by the label of its number. */
  ghost predicate Labeled(s: System, t: System, events: seq<Event>, put: Option<nat>) {
    && LabeledShelf(s.shelf, t.shelf, put)
    && t.ops.Keys == s.ops.Keys
    && forall op :: op in s.ops ==> LabeledPhase(s, events, op, t.ops[op])
  }

  lemma StepStaysLabeled(s: System, t: System, events: seq<Event>, put: Option<nat>)
    requires events != [] && Enabled(s, events[0]) && Labeled(s, t, events, put)
    ensures
      var e, o, rest := events[0], RelabeledFirst(s, events), events[1..];
      && Enabled(t, o) && Labeled(Next(s, e), Next(t, o), rest, Latter(PutsNumber(s, e), put))
      && (o.Cleanup? ==> (Unclaimed(t, t.ops[o.op].number) <==> Unclaimed(s, s.ops[e.op].number)))
  {
    hide Label, NumberAtLock, LabeledShelf, Unclaimed, Next;
    var e, o, rest := events[0], RelabeledFirst(s, events), events[1..];
    StepStaysEnabled(s, t, events, put);
    PhasesStayLabeled(s, t, events, put);
    ShelfStaysLabeled(s, t, events, put);
    if e.Cleanup? {
      assert LabeledPhase(s, events, e.op, t.ops[e.op]);
      UnclaimedAlike(s, t, events, put, s.ops[e.op].number);
    }
  }

  lemma StepStaysEnabled(s: System, t: System, events: seq<Event>, put: Option<nat>)
    requires events != [] && Enabled(s, events[0]) && Labeled(s, t, events, put)
    ensures Enabled(t, RelabeledFirst(s, events))
  {
    hide Label, NumberAtLock, LabeledShelf, Next;
    forall op | op in s.ops ensures Holds(t.ops[op]) == Holds(s.ops[op]) {
      assert LabeledPhase(s, events, op, t.ops[op]);
    }
    if events[0].op in s.ops { assert LabeledPhase(s, events, events[0].op, t.ops[events[0].op]); }
  }

  lemma PhasesStayLabeled(s: System, t: System, events: seq<Event>, put: Option<nat>)
    requires events != [] && Enabled(s, events[0]) && Labeled(s, t, events, put)
    requires Enabled(t, RelabeledFirst(s, events))
    ensures
      var s', t' := Next(s, events[0]), Next(t, RelabeledFirst(s, events));
      && t'.ops.Keys == s'.ops.Keys
      && forall op :: op in s'.ops ==> LabeledPhase(s', events[1..], op, t'.ops[op])
  {
    hide Label, NumberAtLock, LabeledShelf, Next;
    var e, o := events[0], RelabeledFirst(s, events);
    var s', t' := Next(s, e), Next(t, o);
    OwnPhaseStaysLabeled(s, t, events, put);
    forall op ensures op in t'.ops <==> op in s'.ops
      ensures op in s'.ops ==> LabeledPhase(s', events[1..], op, t'.ops[op])
    {
      if op != e.op {
        OthersStay(s, e, op);
        OthersStay(t, o, op);
        NumberStays(s, events, op);
        if op in s.ops { assert LabeledPhase(s, events, op, t.ops[op]); }
      }
    }
  }

  lemma OwnPhaseStaysLabeled(s: System, t: System, events: seq<Event>, put: Option<nat>)
    requires events != [] && Enabled(s, events[0]) && Labeled(s, t, events, put)
    requires Enabled(t, RelabeledFirst(s, events))
    ensures
      var op, s', t' := events[0].op, Next(s, events[0]), Next(t, RelabeledFirst(s, events));
      && (op in t'.ops <==> op in s'.ops)
      && (op in s'.ops ==> LabeledPhase(s', events[1..], op, t'.ops[op]))
  {
    hide NumberAtLock, LabeledPhase, LabeledShelf, Next;
    if events[0].Lock? {
      LockStaysLabeled(s, t, events, put);
    } else {
      FurtherPhaseStaysLabeled(s, t, events, put);
    }
  }

  lemma FurtherPhaseStaysLabeled(s: System, t: System, events: seq<Event>, put: Option<nat>)
    requires events != [] && !events[0].Lock? && Enabled(s, events[0]) && Labeled(s, t, events, put)
    requires Enabled(t, RelabeledFirst(s, events))
    ensures
      var op, s', t' := events[0].op, Next(s, events[0]), Next(t, RelabeledFirst(s, events));
      && (op in t'.ops <==> op in s'.ops)
      && (op in s'.ops ==> LabeledPhase(s', events[1..], op, t'.ops[op]))
  {
    hide NextNumber, StaleNumbers, Label, NumberAtLock, LabeledShelf;
    var e := events[0];
    if e.PruneRows? { PrunedAlike(s, t, events, put, e.retention); }
    if e.op in s.ops { assert LabeledPhase(s, events, e.op, t.ops[e.op]); }
  }

  lemma PrunedAlike(s: System, t: System, events: seq<Event>, put: Option<nat>, retention: int)
    requires Labeled(s, t, events, put)
    ensures StaleNumbers(t.shelf.rows, retention) == StaleNumbers(s.shelf.rows, retention)
  {
    SameNumbers(s.shelf.rows, t.shelf.rows, retention);
  }

  /** Commits and prunings change rows, and publishes the published file; no other step does. */
  lemma ShelfStays(s: System, e: Event)
    requires Enabled(s, e)
    ensures !e.Commit? && !e.PruneRows? ==> Next(s, e).shelf.rows == s.shelf.rows
    ensures !e.PublishFile? ==> Next(s, e).shelf.published == s.shelf.published && PutsNumber(s, e).None?
  {
    hide NextNumber, StaleNumbers;
  }

  lemma ShelfStaysLabeled(s: System, t: System, events: seq<Event>, put: Option<nat>)
    requires events != [] && Enabled(s, events[0]) && Labeled(s, t, events, put)
    requires Enabled(t, RelabeledFirst(s, events))
    ensures
      LabeledShelf(
        Next(s, events[0]).shelf, Next(t, RelabeledFirst(s, events)).shelf, Latter(PutsNumber(s, events[0]), put))
  {
    hide NextNumber, StaleNumbers, Label, NumberAtLock;
    var e, o := events[0], RelabeledFirst(s, events);
    if e.PruneRows? {
      hide LabeledPhase;
      PrunedAlike(s, t, events, put, e.retention);
    } else if e.Commit? || e.PublishFile? {
      assert LabeledPhase(s, events, e.op, t.ops[e.op]);
    } else {
      hide Next, LabeledPhase, PutsNumber;
      ShelfStays(s, e);
      ShelfStays(t, o);
    }
  }

  lemma UnclaimedAlike(s: System, t: System, events: seq<Event>, put: Option<nat>, n: nat)
    requires Labeled(s, t, events, put)
    ensures Unclaimed(t, n) <==> Unclaimed(s, n)
  {
    hide Label, NumberAtLock;
    forall op | op in s.ops
      ensures s.ops[op].Written? == t.ops[op].Written? && NumberOf(s.ops[op]) == NumberOf(t.ops[op])
    {
      assert LabeledPhase(s, events, op, t.ops[op]);
    }
  }

  lemma NumberStays(s: System, events: seq<Event>, op: nat)
    requires events != [] && Enabled(s, events[0]) && events[0] != Lock(op)
    ensures NumberAtLock(s, events, op) == NumberAtLock(Next(s, events[0]), events[1..], op)
  {
  }

  /** A lock finds the newest version with the label of its content exactly when it did before. */
  lemma LockStaysLabeled(s: System, t: System, events: seq<Event>, put: Option<nat>)
    requires events != [] && Enabled(s, events[0]) && Labeled(s, t, events, put) && events[0].Lock?
    requires Enabled(t, events[0])
    ensures
      var op, s', t' := events[0].op, Next(s, events[0]), Next(t, events[0]);
      op in s'.ops && op in t'.ops && LabeledPhase(s', events[1..], op, t'.ops[op])
  {
    var op, n := events[0].op, NumberAtLock(s, events, events[0].op);
    assert LabeledPhase(s, events, op, t.ops[op]);
    SameNumbers(s.shelf.rows, t.shelf.rows, 0);
    assert n == NumberOf(Next(s, events[0]).ops[op]);
    DuplicatesByNumber(t.shelf, n);
    hide StaleNumbers, Label, NextNumber, NumberAtLock, Duplicates;
    NextIsAbove(s.shelf.rows);
  }

  /** In labeled rows a content is that of the newest version exactly when its number is. */
  lemma DuplicatesByNumber(shelf: Shelf, n: nat)
    requires forall m :: m in shelf.rows ==> shelf.rows[m] == Digest(Label(m))
    ensures Duplicates(shelf, Label(n)) <==> shelf.rows != map[] && n == Greatest(shelf.rows.Keys)
  {
    if shelf.rows != map[] { LabelsDiffer(n, Greatest(shelf.rows.Keys)); }
  }

  lemma NextIsAbove(rows: map<nat, FileHash>)
    ensures rows != map[] ==> NextNumber(rows) > Greatest(rows.Keys)
  {
  }

  lemma {:induction false} RunStaysLabeled(s: System, t: System, events: seq<Event>, put: Option<nat>)
    requires Labeled(s, t, events, put) && Run(s, events).Some? && CleansInTime(s, events)
    ensures Run(t, Relabeled(s, events)).Some? && CleansInTime(t, Relabeled(s, events))
    ensures Labeled(Run(s, events).value, Run(t, Relabeled(s, events)).value, [], Latter(LastPutNumber(s, events), put))
    decreases |events|
  {
    hide Labeled, Next, Enabled, Unclaimed, PutsNumber, NumberAtLock;
    if events != [] {
      var others := Relabeled(s, events);
      StepStaysLabeled(s, t, events, put);
      RunStaysLabeled(
        Next(s, events[0]), Next(t, others[0]), events[1..], Latter(PutsNumber(s, events[0]), put));
    }
  }

  /** A schedule ends with a current file, whatever its exports and rollbacks contain, exactly when
      the last publish that wrote was that of the version committed last, or of one deduplicated
      against it. */
  lemma AlwaysCurrentIff(events: seq<Event>)
    requires Run(START, events).Some? && CleansInTime(START, events)
    ensures
      (forall others ::
        SameSchedule(events, others) && Run(START, others).Some? && CleansInTime(START, others) ==>
          Current(Run(START, others).value.shelf))
      <==>
        var latest := Latest(Run(START, events).value.shelf.rows);
        latest.None? || LastPutNumber(START, events) == latest
  {
    hide Run, CleansInTime, LastPutNumber, Labeled;
    var end := Run(START, events).value;
    var latest := Latest(end.shelf.rows);
    if latest.None? || LastPutNumber(START, events) == latest {
      forall others | SameSchedule(events, others) && Run(START, others).Some? && CleansInTime(START, others)
        ensures Current(Run(START, others).value.shelf)
      {
        RunsStayAlike(START, START, events, others);
        SameNumbers(end.shelf.rows, Run(START, others).value.shelf.rows, 0);
        PutNewestIsCurrent(others);
      }
    } else {
      var others := Relabeled(START, events);
      RelabeledIsSame(START, events);
      LabeledAtStart(events);
      RunStaysLabeled(START, START, events, None);
      LabelsShow(end, Run(START, others).value, LastPutNumber(START, events));
    }
  }

  lemma LabeledAtStart(events: seq<Event>)
    ensures Labeled(START, START, events, None)
  {
  }

  lemma LabelsShow(s: System, t: System, put: Option<nat>)
    requires Labeled(s, t, [], put) && Latest(s.shelf.rows).Some? && put != Latest(s.shelf.rows)
    ensures !Current(t.shelf)
  {
    hide Label;
    SameNumbers(s.shelf.rows, t.shelf.rows, 0);
    if put.Some? { LabelsDiffer(put.value, Greatest(t.shelf.rows.Keys)); }
  }
}
