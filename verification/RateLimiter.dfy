/** The limit on client log batches: a fixed window per user, kept in memory, with entries of
    past windows evicted now and then. */
module RateLimiter {

  const WINDOW: real := 60.0
  const MAX_PER_WINDOW := 60
  const EVICT_THRESHOLD := 256

  datatype Window = Window(start: real, count: int)

  type Hits = map<string, Window>

  datatype Call = Call(user: string, now: real)

  function Evict(hits: Hits, now: real): Hits {
    map u | u in hits && hits[u].start >= now - WINDOW :: hits[u]
  }

  function Entry(hits: Hits, call: Call): Window {
    if call.user in hits then hits[call.user] else Window(call.now, 0)
  }

  predicate Allowed(hits: Hits, call: Call) {
    call.now - Entry(hits, call).start >= WINDOW || Entry(hits, call).count < MAX_PER_WINDOW
  }

  function Record(hits: Hits, call: Call): Hits {
    var w := Entry(hits, call);
    if call.now - w.start >= WINDOW then hits[call.user := Window(call.now, 1)]
    else if w.count >= MAX_PER_WINDOW then hits
    else hits[call.user := Window(w.start, w.count + 1)]
  }

  /** What eviction leaves before a call. */
  function Swept(hits: Hits, now: real): Hits {
    if |hits| > EVICT_THRESHOLD then Evict(hits, now) else hits
  }

  class Limiter {
    var hits: Hits

    constructor ()
      ensures hits == map[]
    {
      hits := map[];
    }

    method EvictStale(now: real)
      modifies this
      ensures hits == Evict(old(hits), now)
    {
      var cutoff := now - WINDOW;
      var stale := set u | u in hits && hits[u].start < cutoff;
      ghost var before := hits;
      while stale != {}
        invariant stale <= hits.Keys && hits.Keys <= before.Keys
        invariant forall u :: u in hits ==> hits[u] == before[u]
        invariant forall u :: u in before && before[u].start >= cutoff ==> u in hits && u !in stale
        invariant forall u :: u in hits && u !in stale ==> before[u].start >= cutoff
      {
        var key :| key in stale;
        hits := hits - {key};
        stale := stale - {key};
      }
    }

    method Allow(call: Call) returns (ok: bool)
      modifies this
      ensures ok == Allowed(Swept(old(hits), call.now), call)
      ensures hits == Record(Swept(old(hits), call.now), call)
      ensures |old(hits)| <= 256 ==> old(hits).Keys <= hits.Keys
      ensures forall u :: u in old(hits) && u != call.user ==>
        (u in hits ==> hits[u] == old(hits)[u])
        && (u !in hits <==> |old(hits)| > 256 && old(hits)[u].start < call.now - 60.0)
    {
      if |hits| > EVICT_THRESHOLD { EvictStale(call.now); }
      var w := if call.user in hits then hits[call.user] else Window(call.now, 0);
      if call.now - w.start >= WINDOW {
        hits := hits[call.user := Window(call.now, 1)];
        return true;
      }
      if w.count >= MAX_PER_WINDOW { return false; }
      hits := hits[call.user := Window(w.start, w.count + 1)];
      ok := true;
    }
  }

  // ----- Whole runs -----

  predicate Monotone(calls: seq<Call>) {
    forall i, j :: 0 <= i < j < |calls| ==> calls[i].now <= calls[j].now
  }

  /** The table after a run of calls on a fresh limiter. */
  function After(calls: seq<Call>): Hits {
    if calls == [] then map[]
    else
      var last := calls[|calls| - 1];
      Record(Swept(After(calls[..|calls| - 1]), last.now), last)
  }

  /** The same run on a limiter that never evicts. */
  function Kept(calls: seq<Call>): Hits {
    if calls == [] then map[] else Record(Kept(calls[..|calls| - 1]), calls[|calls| - 1])
  }

  predicate Decision(calls: seq<Call>, i: nat)
    requires i < |calls|
  {
    Allowed(Swept(After(calls[..i]), calls[i].now), calls[i])
  }

  predicate KeptDecision(calls: seq<Call>, i: nat)
    requires i < |calls|
  {
    Allowed(Kept(calls[..i]), calls[i])
  }

  /** Two tables that agree except on entries whose window is over by `now`. */
  ghost predicate Agree(a: Hits, b: Hits, now: real) {
    && (forall u :: u in a ==> u in b && a[u] == b[u])
    && (forall u :: u in b && u !in a ==> b[u].start < now - WINDOW)
  }

  lemma AgreeingTablesDecideAlike(a: Hits, b: Hits, call: Call)
    requires Agree(a, b, call.now)
    ensures Agree(Swept(a, call.now), b, call.now)
    ensures Allowed(Swept(a, call.now), call) == Allowed(b, call)
    ensures Agree(Record(Swept(a, call.now), call), Record(b, call), call.now)
  {
  }

  lemma {:induction false} EvictionKeepsAgreement(calls: seq<Call>, now: real)
    requires Monotone(calls) && (calls != [] ==> calls[|calls| - 1].now <= now)
    ensures Agree(After(calls), Kept(calls), now)
  {
    if calls != [] {
      var rest, last := calls[..|calls| - 1], calls[|calls| - 1];
      EvictionKeepsAgreement(rest, last.now);
      AgreeingTablesDecideAlike(After(rest), Kept(rest), last);
    }
  }

  /** Evicting entries never changes a decision, on any run with a monotone clock. */
  lemma EvictionIsInvisible(calls: seq<Call>, i: nat)
    requires Monotone(calls) && i < |calls|
    ensures Decision(calls, i) == KeptDecision(calls, i)
  {
    EvictionKeepsAgreement(calls[..i], calls[i].now);
    AgreeingTablesDecideAlike(After(calls[..i]), Kept(calls[..i]), calls[i]);
  }

  // ----- How many calls get through -----

  /** The allowed calls of one user in the closed span of 60 seconds from `from`. */
  function Passed(calls: seq<Call>, user: string, from: real): nat {
    if calls == [] then 0
    else
      var n, last := |calls| - 1, calls[|calls| - 1];
      Passed(calls[..n], user, from) +
      (if last.user == user && from <= last.now <= from + 60.0 && Decision(calls, n) then 1 else 0)
  }

  /** The window a user is in, seen from a span: calls of earlier windows are over before it, or
      at most one window's worth of them is inside. */
  ghost predicate InSpan(calls: seq<Call>, user: string, from: real) {
    var passed := Passed(calls, user, from);
    if user !in Kept(calls) then passed == 0
    else
      var w := Kept(calls)[user];
      && 1 <= w.count <= MAX_PER_WINDOW && passed <= 2 * MAX_PER_WINDOW
      && (calls != [] ==> w.start <= calls[|calls| - 1].now)
      && (w.start <= from ==> passed <= w.count && (passed > 0 ==> from < w.start + WINDOW))
      && (w.start <= from + WINDOW ==> passed <= MAX_PER_WINDOW + w.count)
  }

  lemma {:induction false} SpanHolds(calls: seq<Call>, user: string, from: real)
    requires Monotone(calls)
    ensures InSpan(calls, user, from)
  {
    if calls != [] {
      var n, last := |calls| - 1, calls[|calls| - 1];
      SpanHolds(calls[..n], user, from);
      EvictionIsInvisible(calls, n);
      if n > 0 { assert calls[n - 1].now <= last.now; }
      if last.now < from { BeforeTheSpan(calls[..n], user, from, last.now); }
    }
  }

  lemma {:induction false} BeforeTheSpan(calls: seq<Call>, user: string, from: real, now: real)
    requires Monotone(calls) && (calls != [] ==> calls[|calls| - 1].now <= now) && now < from
    ensures Passed(calls, user, from) == 0
  {
    if calls != [] {
      BeforeTheSpan(calls[..|calls| - 1], user, from, now);
    }
  }

  /** No user gets more than two windows' worth of calls, 120, through in any span of 60 seconds. */
  lemma AtMostTwoWindows(calls: seq<Call>, user: string, from: real)
    requires Monotone(calls)
    ensures Passed(calls, user, from) <= 120
  {
    SpanHolds(calls, user, from);
  }

  // ----- The bound is reached -----

  function Burst(user: string, at: real, n: nat): seq<Call> {
    seq(n, _ => Call(user, at))
  }

  lemma BurstOneMore(user: string, at: real, n: nat)
    ensures Burst(user, at, n + 1) == Burst(user, at, n) + [Call(user, at)]
  {
  }

  lemma OneMorePasses(calls: seq<Call>, call: Call, from: real)
    requires Monotone(calls + [call]) && from <= call.now <= from + WINDOW && Allowed(Kept(calls), call)
    ensures Passed(calls + [call], call.user, from) == Passed(calls, call.user, from) + 1
    ensures Kept(calls + [call]) == Record(Kept(calls), call)
  {
    var longer := calls + [call];
    assert longer[..|calls|] == calls;
    EvictionIsInvisible(longer, |calls|);
  }

  lemma NoCalls(user: string, from: real)
    ensures Kept([]) == map[] && Passed([], user, from) == 0
  {
  }

  lemma {:induction false} FirstBurstPasses(user: string, at: real, n: nat)
    requires n <= MAX_PER_WINDOW
    ensures Kept(Burst(user, at, n)) == if n == 0 then map[] else map[user := Window(at, n)]
    ensures Passed(Burst(user, at, n), user, at) == n
  {
    hide Passed, Kept, Decision;
    if n == 0 {
      NoCalls(user, at);
      assert Burst(user, at, 0) == [];
    } else {
      FirstBurstPasses(user, at, n - 1);
      BurstOneMore(user, at, n - 1);
      OneMorePasses(Burst(user, at, n - 1), Call(user, at), at);
    }
  }

  lemma {:induction false} SecondBurstPasses(user: string, at: real, n: nat)
    requires n <= MAX_PER_WINDOW
    ensures
      var calls := Burst(user, at, MAX_PER_WINDOW) + Burst(user, at + WINDOW, n);
      && Kept(calls) == map[user := if n == 0 then Window(at, MAX_PER_WINDOW) else Window(at + WINDOW, n)]
      && Passed(calls, user, at) == MAX_PER_WINDOW + n
  {
    hide Passed, Kept, Decision;
    var first := Burst(user, at, MAX_PER_WINDOW);
    var calls := first + Burst(user, at + WINDOW, n);
    if n == 0 {
      FirstBurstPasses(user, at, MAX_PER_WINDOW);
      assert calls == first;
    } else {
      SecondBurstPasses(user, at, n - 1);
      BurstOneMore(user, at + WINDOW, n - 1);
      var before := first + Burst(user, at + WINDOW, n - 1);
      assert calls == before + [Call(user, at + WINDOW)];
      OneMorePasses(before, Call(user, at + WINDOW), at);
    }
  }

  /** Two full bursts one window apart all get through, so the bound cannot be lowered. */
  lemma TwoWindowsArePossible(user: string, from: real)
    ensures exists calls :: Monotone(calls) && Passed(calls, user, from) == 120
  {
    var calls := Burst(user, from, MAX_PER_WINDOW) + Burst(user, from + WINDOW, MAX_PER_WINDOW);
    SecondBurstPasses(user, from, MAX_PER_WINDOW);
    assert Monotone(calls);
  }
}
