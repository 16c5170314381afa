/** The mutable staging table and the transactions that write a delta into it. */
module StagingTable {
  import opened Hashing
  import opened Delta
  import opened Persistence
  import opened Wrappers

  // ----- The lists of a delta, read back by index -----

  lemma {:induction false} UpsertsByIndex(c: Comparison, ids: seq<string>)
    requires forall id :: id in ids ==> id in c.feed
    ensures |c.Upserts(ids)| == |ids|
    ensures forall i :: 0 <= i < |ids| ==> c.Upserts(ids)[i] == c.UpsertFor(ids[i])
  {
    if ids != [] { UpsertsByIndex(c, ids[..|ids| - 1]); }
  }

  lemma {:induction false} ProductsByIndex(c: Comparison, ids: seq<string>)
    requires forall id :: id in ids ==> id in c.feed
    ensures |c.Products(ids)| == |ids|
    ensures forall i :: 0 <= i < |ids| ==> c.Products(ids)[i] == c.feed[ids[i]]
  {
    if ids != [] { ProductsByIndex(c, ids[..|ids| - 1]); }
  }

  lemma {:induction false} PksByIndex(c: Comparison, ids: seq<string>)
    requires forall id :: id in ids ==> id in c.stored
    ensures |c.Pks(ids)| == |ids|
    ensures forall i :: 0 <= i < |ids| ==> c.Pks(ids)[i] == c.stored[ids[i]].pk
  {
    if ids != [] { PksByIndex(c, ids[..|ids| - 1]); }
  }

  /** The upserts that insert (or, with false, that update), in order. */
  function Inserting(us: seq<Upsert>, flag: bool): seq<Upsert> {
    if us == [] then []
    else
      var u := us[|us| - 1];
      Inserting(us[..|us| - 1], flag) + (if u.insert == flag then [u] else [])
  }

  lemma {:induction false} InsertingExactly(us: seq<Upsert>, flag: bool)
    ensures forall u :: u in Inserting(us, flag) <==> u in us && u.insert == flag
  {
    if us != [] {
      InsertingExactly(us[..|us| - 1], flag);
      assert us == us[..|us| - 1] + [us[|us| - 1]];
    }
  }

  ghost predicate DistinctIds(us: seq<Upsert>) {
    forall i, j :: 0 <= i < j < |us| ==> us[i].productId != us[j].productId
  }

  lemma {:induction false} InsertingKeepsDistinct(us: seq<Upsert>, flag: bool)
    requires DistinctIds(us)
    ensures DistinctIds(Inserting(us, flag))
  {
    if us != [] {
      InsertingKeepsDistinct(us[..|us| - 1], flag);
      InsertingExactly(us[..|us| - 1], flag);
      forall u | u in Inserting(us[..|us| - 1], flag) ensures u.productId != us[|us| - 1].productId {
        assert u in us[..|us| - 1];
      }
    }
  }

  function WritingHistory(us: seq<Upsert>): seq<Upsert> {
    if us == [] then []
    else
      var u := us[|us| - 1];
      WritingHistory(us[..|us| - 1]) + (if u.writeHistory then [u] else [])
  }

  // ----- The statements of one transaction after another -----

  function Insert(rows: Rows, feed: int, us: seq<Upsert>, configHash: Digest, pk: nat): Rows {
    if us == [] then rows
    else
      var n := |us| - 1;
      Insert(rows, feed, us[..n], configHash, pk)[Key(feed, us[n].productId) := InsertedRow(pk + n, us[n], configHash)]
  }

  function Update(rows: Rows, feed: int, us: seq<Upsert>, configHash: Digest): Rows {
    if us == [] then rows
    else
      var n := |us| - 1;
      var r := Update(rows, feed, us[..n], configHash);
      var key := Key(feed, us[n].productId);
      if key in r then r[key := UpdatedRow(r[key], us[n], configHash)] else r
  }

  /** One statement `UPDATE ... WHERE id = pk`. */
  function SetStatus(rows: Rows, pk: nat, removedAt: Option<int>): Rows {
    map k | k in rows ::
      if rows[k].pk != pk then rows[k]
      else if removedAt.None? then ReactivatedRow(rows[k])
      else RemovedRow(rows[k], removedAt.value)
  }

  function SetStatuses(rows: Rows, pks: seq<nat>, removedAt: Option<int>): Rows {
    if pks == [] then rows
    else SetStatus(SetStatuses(rows, pks[..|pks| - 1], removedAt), pks[|pks| - 1], removedAt)
  }

  function InsertedPks(us: seq<Upsert>, pk: nat): map<string, nat> {
    if us == [] then map[]
    else
      var n := |us| - 1;
      InsertedPks(us[..n], pk)[us[n].productId := pk + n]
  }

  function UpdatedPks(pks: map<string, nat>, us: seq<Upsert>): map<string, nat> {
    if us == [] then pks
    else
      var n := |us| - 1;
      var r := UpdatedPks(pks, us[..n]);
      if us[n].pk.Some? then r[us[n].productId := us[n].pk.value] else r
  }

  /** `SELECT product_id WHERE id = pk`. */
  function Select(rows: Rows, pk: nat): map<string, nat> {
    map k | k in rows && rows[k].pk == pk :: k.id := pk
  }

  function SelectAll(known: map<string, nat>, rows: Rows, pks: seq<nat>): map<string, nat> {
    if pks == [] then known
    else SelectAll(known, rows, pks[..|pks| - 1]) + Select(rows, pks[|pks| - 1])
  }

  /** The table once the upserts of a delta are written. */
  function Upserted(rows: Rows, feed: int, us: seq<Upsert>, configHash: Digest, pk: nat): Rows {
    Update(Insert(rows, feed, Inserting(us, true), configHash, pk), feed, Inserting(us, false), configHash)
  }

  /** The table after every group of a delta is written. */
  function Applied(rows: Rows, feed: int, delta: StagingDelta, configHash: Digest, now: int, pk: nat): Rows {
    SetStatuses(
      SetStatuses(Upserted(rows, feed, delta.upserts, configHash, pk), delta.reactivations, None),
      delta.removals, Some(now))
  }

  /** The row ids the plugin step is told about. */
  function AppliedPks(rows: Rows, feed: int, delta: StagingDelta, configHash: Digest, pk: nat): map<string, nat> {
    SelectAll(
      UpdatedPks(InsertedPks(Inserting(delta.upserts, true), pk), Inserting(delta.upserts, false)),
      Upserted(rows, feed, delta.upserts, configHash, pk),
      delta.reactivations)
  }

  function HistoryOf(pks: map<string, nat>, us: seq<Upsert>, now: int): seq<HistoryEntry>
    requires forall u :: u in us ==> u.productId in pks
  {
    seq(|us|, i requires 0 <= i < |us| => HistoryEntry(pks[us[i].productId], us[i].product, now))
  }

  lemma {:induction false} WritingHistoryIsSublist(us: seq<Upsert>)
    ensures forall u :: u in WritingHistory(us) <==> u in us && u.writeHistory
  {
    if us != [] {
      WritingHistoryIsSublist(us[..|us| - 1]);
      assert us == us[..|us| - 1] + [us[|us| - 1]];
    }
  }

  lemma {:induction false} InsertedPksAt(us: seq<Upsert>, pk: nat, i: nat)
    requires i < |us|
    ensures us[i].productId in InsertedPks(us, pk)
    ensures DistinctIds(us) ==> InsertedPks(us, pk)[us[i].productId] == pk + i
  {
    if i < |us| - 1 { InsertedPksAt(us[..|us| - 1], pk, i); }
  }

  lemma {:induction false} UpdatedPksMisses(pks: map<string, nat>, us: seq<Upsert>, id: string)
    ensures id in pks ==> id in UpdatedPks(pks, us)
    ensures !Hits(us, id) && id in pks ==> UpdatedPks(pks, us)[id] == pks[id]
  {
    if us != [] {
      assert Hits(us[..|us| - 1], id) ==> Hits(us, id);
      assert us[|us| - 1].productId == id ==> Hits(us, id);
      UpdatedPksMisses(pks, us[..|us| - 1], id);
    }
  }

  lemma {:induction false} UpdatedPksAt(pks: map<string, nat>, us: seq<Upsert>, i: nat)
    requires i < |us| && us[i].pk.Some?
    ensures us[i].productId in UpdatedPks(pks, us)
    ensures DistinctIds(us) ==> UpdatedPks(pks, us)[us[i].productId] == us[i].pk.value
  {
    if i < |us| - 1 { UpdatedPksAt(pks, us[..|us| - 1], i); }
  }

  lemma {:induction false} SelectAllKeys(known: map<string, nat>, rows: Rows, pks: seq<nat>)
    ensures known.Keys <= SelectAll(known, rows, pks).Keys
  {
    if pks != [] { SelectAllKeys(known, rows, pks[..|pks| - 1]); }
  }

  lemma {:induction false} SelectAllMisses(known: map<string, nat>, rows: Rows, pks: seq<nat>, id: string)
    requires forall k :: k in rows && k.id == id ==> rows[k].pk !in pks
    ensures id in SelectAll(known, rows, pks) <==> id in known
    ensures id in known ==> SelectAll(known, rows, pks)[id] == known[id]
  {
    if pks != [] {
      assert pks == pks[..|pks| - 1] + [pks[|pks| - 1]];
      SelectAllMisses(known, rows, pks[..|pks| - 1], id);
    }
  }

  lemma {:induction false} SelectAllHits(known: map<string, nat>, rows: Rows, pks: seq<nat>, key: Key)
    requires key in rows && rows[key].pk in pks
    requires forall k :: k in rows && k.id == key.id && rows[k].pk in pks ==> k == key
    ensures key.id in SelectAll(known, rows, pks) && SelectAll(known, rows, pks)[key.id] == rows[key].pk
  {
    var rest, last := pks[..|pks| - 1], pks[|pks| - 1];
    assert pks == rest + [last];
    if rows[key].pk in rest {
      SelectAllHits(known, rows, rest, key);
    }
  }

  lemma AppliedPksCoverUpserts(rows: Rows, feed: int, delta: StagingDelta, configHash: Digest, pk: nat)
    requires forall u :: u in delta.upserts ==> u.insert || u.pk.Some?
    ensures forall u :: u in delta.upserts ==> u.productId in AppliedPks(rows, feed, delta, configHash, pk)
  {
    var inserts, updates := Inserting(delta.upserts, true), Inserting(delta.upserts, false);
    InsertingExactly(delta.upserts, true);
    InsertingExactly(delta.upserts, false);
    var known := UpdatedPks(InsertedPks(inserts, pk), updates);
    SelectAllKeys(known, Upserted(rows, feed, delta.upserts, configHash, pk), delta.reactivations);
    forall u | u in delta.upserts ensures u.productId in known {
      if u.insert {
        var i :| 0 <= i < |inserts| && inserts[i] == u;
        InsertedPksAt(inserts, pk, i);
        UpdatedPksMisses(InsertedPks(inserts, pk), updates, u.productId);
      } else {
        var i :| 0 <= i < |updates| && updates[i] == u;
        UpdatedPksAt(InsertedPks(inserts, pk), updates, i);
      }
    }
  }

  ghost predicate Hits(us: seq<Upsert>, id: string) {
    exists i :: 0 <= i < |us| && us[i].productId == id
  }

  lemma {:induction false} InsertMisses(rows: Rows, feed: int, us: seq<Upsert>, configHash: Digest, pk: nat, k: Key)
    requires k.feed != feed || !Hits(us, k.id)
    ensures k in Insert(rows, feed, us, configHash, pk) <==> k in rows
    ensures k in rows ==> Insert(rows, feed, us, configHash, pk)[k] == rows[k]
  {
    if us != [] {
      var n := |us| - 1;
      assert us[n].productId == k.id ==> Hits(us, k.id);
      assert Hits(us[..n], k.id) ==> Hits(us, k.id);
      InsertMisses(rows, feed, us[..n], configHash, pk, k);
    }
  }

  lemma {:induction false} InsertHits(rows: Rows, feed: int, us: seq<Upsert>, configHash: Digest, pk: nat, i: nat)
    requires DistinctIds(us) && i < |us|
    ensures
      var k := Key(feed, us[i].productId);
      k in Insert(rows, feed, us, configHash, pk)
      && Insert(rows, feed, us, configHash, pk)[k] == InsertedRow(pk + i, us[i], configHash)
  {
    if i < |us| - 1 { InsertHits(rows, feed, us[..|us| - 1], configHash, pk, i); }
  }

  lemma {:induction false} UpdateMisses(rows: Rows, feed: int, us: seq<Upsert>, configHash: Digest, k: Key)
    requires k.feed != feed || !Hits(us, k.id)
    ensures k in Update(rows, feed, us, configHash) <==> k in rows
    ensures k in rows ==> Update(rows, feed, us, configHash)[k] == rows[k]
  {
    if us != [] {
      var n := |us| - 1;
      assert us[n].productId == k.id ==> Hits(us, k.id);
      assert Hits(us[..n], k.id) ==> Hits(us, k.id);
      UpdateMisses(rows, feed, us[..n], configHash, k);
    }
  }

  lemma {:induction false} UpdateHits(rows: Rows, feed: int, us: seq<Upsert>, configHash: Digest, i: nat)
    requires DistinctIds(us) && i < |us| && Key(feed, us[i].productId) in rows
    ensures
      var k := Key(feed, us[i].productId);
      k in Update(rows, feed, us, configHash)
      && Update(rows, feed, us, configHash)[k] == UpdatedRow(rows[k], us[i], configHash)
  {
    var n := |us| - 1;
    if i < n {
      UpdateHits(rows, feed, us[..n], configHash, i);
    } else {
      assert !Hits(us[..n], us[n].productId);
      UpdateMisses(rows, feed, us[..n], configHash, Key(feed, us[n].productId));
    }
  }

  lemma {:induction false} SetStatusesAt(rows: Rows, pks: seq<nat>, removedAt: Option<int>, k: Key)
    ensures k in SetStatuses(rows, pks, removedAt) <==> k in rows
    ensures k in rows ==>
      SetStatuses(rows, pks, removedAt)[k] ==
        if rows[k].pk !in pks then rows[k]
        else if removedAt.None? then ReactivatedRow(rows[k])
        else RemovedRow(rows[k], removedAt.value)
  {
    if pks != [] {
      SetStatusesAt(rows, pks[..|pks| - 1], removedAt, k);
      assert pks == pks[..|pks| - 1] + [pks[|pks| - 1]];
    }
  }

  lemma StatusLeavesIds(rows: Rows, pks: seq<nat>, removedAt: Option<int>, pk: nat)
    ensures Select(SetStatuses(rows, pks, removedAt), pk) == Select(rows, pk)
  {
    var r := SetStatuses(rows, pks, removedAt);
    forall k: Key ensures (k in r <==> k in rows) && (k in rows ==> r[k].pk == rows[k].pk) {
      SetStatusesAt(rows, pks, removedAt, k);
    }
  }

  lemma {:induction false} StatusLeavesSelections(
    rows: Rows, pks: seq<nat>, removedAt: Option<int>, known: map<string, nat>, selected: seq<nat>)
    ensures SelectAll(known, SetStatuses(rows, pks, removedAt), selected) == SelectAll(known, rows, selected)
  {
    if selected != [] {
      StatusLeavesSelections(rows, pks, removedAt, known, selected[..|selected| - 1]);
      StatusLeavesIds(rows, pks, removedAt, selected[|selected| - 1]);
    }
  }

  // ----- Plugin outcomes and purging -----

  function RecordOutcome(rows: Rows, feed: int, o: PluginOutcome): Rows {
    map k | k in rows :: if k.feed == feed && rows[k].pk == o.pk then WithOutcome(rows[k], o) else rows[k]
  }

  function RecordOutcomes(rows: Rows, feed: int, os: seq<PluginOutcome>): Rows {
    if os == [] then rows else RecordOutcome(RecordOutcomes(rows, feed, os[..|os| - 1]), feed, os[|os| - 1])
  }

  lemma {:induction false} RecordMisses(rows: Rows, feed: int, os: seq<PluginOutcome>, k: Key)
    requires k in rows && (k.feed != feed || forall o :: o in os ==> o.pk != rows[k].pk)
    ensures k in RecordOutcomes(rows, feed, os) && RecordOutcomes(rows, feed, os)[k] == rows[k]
  {
    if os != [] {
      assert os[|os| - 1] in os;
      RecordMisses(rows, feed, os[..|os| - 1], k);
    }
  }

  lemma {:induction false} RecordHits(rows: Rows, feed: int, os: seq<PluginOutcome>, k: Key, o: PluginOutcome)
    requires k in rows && k.feed == feed && o in os && o.pk == rows[k].pk
    requires forall q :: q in os && q.pk == o.pk ==> q == o
    ensures k in RecordOutcomes(rows, feed, os) && RecordOutcomes(rows, feed, os)[k] == WithOutcome(rows[k], o)
  {
    var rest, last := os[..|os| - 1], os[|os| - 1];
    assert os == rest + [last];
    if o in rest {
      RecordHits(rows, feed, rest, k, o);
    } else {
      RecordMisses(rows, feed, rest, k);
    }
  }

  lemma {:induction false} RecordKeepsKeys(rows: Rows, feed: int, os: seq<PluginOutcome>)
    ensures RecordOutcomes(rows, feed, os).Keys == rows.Keys
  {
    if os != [] { RecordKeepsKeys(rows, feed, os[..|os| - 1]); }
  }

  /** Rows removed before the cutoff, which the retention purge deletes. */
  predicate Expired(r: Row, cutoff: int) {
    r.status == Status.Removed && r.removedAt.Some? && r.removedAt.value < cutoff
  }

  lemma StoredByKey(rows: Rows, feed: int)
    ensures forall id :: id in Stored(rows, feed) <==> Key(feed, id) in rows
    ensures forall id :: id in Stored(rows, feed) ==> Stored(rows, feed)[id] == rows[Key(feed, id)]
  {
    forall id | Key(feed, id) in rows ensures id in Stored(rows, feed) { assert Key(feed, id).id == id; }
  }

  lemma StoredApart(rows: Rows, nextPk: nat, feed: int)
    requires ValidRows(rows, nextPk)
    ensures forall i, j :: i in Stored(rows, feed) && j in Stored(rows, feed) && i != j ==>
      Stored(rows, feed)[i].pk != Stored(rows, feed)[j].pk
  {
    hide Stored;
    StoredByKey(rows, feed);
    forall i, j | Key(feed, i) in rows && Key(feed, j) in rows && rows[Key(feed, i)].pk == rows[Key(feed, j)].pk
      ensures i == j
    {
      assert Key(feed, i) == Key(feed, j);
    }
  }

  class Table {
    var rows: Rows
    var nextPk: nat
    var history: seq<HistoryEntry>

    ghost predicate Valid()
      reads this
    {
      ValidRows(rows, nextPk)
    }

    constructor ()
      ensures Valid() && rows == map[] && history == []
    {
      rows, nextPk, history := map[], 0, [];
    }

    method InsertAll(feed: int, us: seq<Upsert>, configHash: Digest, chunkSize: nat) returns (pkMap: map<string, nat>)
      requires chunkSize > 0
      modifies this`rows, this`nextPk
      ensures rows == Insert(old(rows), feed, us, configHash, old(nextPk)) && nextPk == old(nextPk) + |us|
      ensures pkMap == InsertedPks(us, old(nextPk))
    {
      pkMap := map[];
      var start := 0;
      while start < |us|
        invariant start <= |us| && nextPk == old(nextPk) + start
        invariant rows == Insert(old(rows), feed, us[..start], configHash, old(nextPk))
        invariant pkMap == InsertedPks(us[..start], old(nextPk))
      {
        var stop := if start + chunkSize <= |us| then start + chunkSize else |us|;
        for j := start to stop
          invariant nextPk == old(nextPk) + j
          invariant rows == Insert(old(rows), feed, us[..j], configHash, old(nextPk))
          invariant pkMap == InsertedPks(us[..j], old(nextPk))
        {
          assert us[..j + 1][..j] == us[..j];
          rows := rows[Key(feed, us[j].productId) := InsertedRow(nextPk, us[j], configHash)];
          pkMap := pkMap[us[j].productId := nextPk];
          nextPk := nextPk + 1;
        }
        start := stop;
      }
      assert us[..|us|] == us;
    }

    method UpdateAll(feed: int, us: seq<Upsert>, configHash: Digest, chunkSize: nat, pks: map<string, nat>)
      returns (pkMap: map<string, nat>)
      requires chunkSize > 0
      modifies this`rows
      ensures rows == Update(old(rows), feed, us, configHash)
      ensures pkMap == UpdatedPks(pks, us)
    {
      pkMap := pks;
      var start := 0;
      while start < |us|
        invariant start <= |us|
        invariant rows == Update(old(rows), feed, us[..start], configHash)
        invariant pkMap == UpdatedPks(pks, us[..start])
      {
        var stop := if start + chunkSize <= |us| then start + chunkSize else |us|;
        for j := start to stop
          invariant rows == Update(old(rows), feed, us[..j], configHash)
          invariant pkMap == UpdatedPks(pks, us[..j])
        {
          assert us[..j + 1][..j] == us[..j];
          var key := Key(feed, us[j].productId);
          if key in rows {
            rows := rows[key := UpdatedRow(rows[key], us[j], configHash)];
          }
          if us[j].pk.Some? {
            pkMap := pkMap[us[j].productId := us[j].pk.value];
          }
        }
        start := stop;
      }
      assert us[..|us|] == us;
    }

    /** One transaction over `pks[start..stop]`. */
    method SetStatusGroup(pks: seq<nat>, start: nat, stop: nat, removedAt: Option<int>, ghost before: Rows)
      requires start <= stop <= |pks|
      requires rows == SetStatuses(before, pks[..start], removedAt)
      modifies this`rows
      ensures rows == SetStatuses(before, pks[..stop], removedAt)
    {
      for j := start to stop
        invariant rows == SetStatuses(before, pks[..j], removedAt)
      {
        assert pks[..j + 1][..j] == pks[..j];
        rows := SetStatus(rows, pks[j], removedAt);
      }
    }

    method SelectGroup(pks: seq<nat>, start: nat, stop: nat, known: map<string, nat>, ghost base: map<string, nat>)
      returns (r: map<string, nat>)
      requires start <= stop <= |pks|
      requires known == SelectAll(base, rows, pks[..start])
      ensures r == SelectAll(base, rows, pks[..stop])
    {
      hide Select;
      r := known;
      for j := start to stop
        invariant r == SelectAll(base, rows, pks[..j])
      {
        assert pks[..j + 1][..j] == pks[..j];
        r := r + Select(rows, pks[j]);
      }
    }

    method ReactivateAll(pks: seq<nat>, chunkSize: nat, known: map<string, nat>) returns (pkMap: map<string, nat>)
      requires chunkSize > 0
      modifies this`rows
      ensures rows == SetStatuses(old(rows), pks, None)
      ensures pkMap == SelectAll(known, old(rows), pks)
    {
      pkMap := known;
      var start := 0;
      while start < |pks|
        invariant start <= |pks|
        invariant rows == SetStatuses(old(rows), pks[..start], None)
        invariant pkMap == SelectAll(known, old(rows), pks[..start])
      {
        var stop := if start + chunkSize <= |pks| then start + chunkSize else |pks|;
        SetStatusGroup(pks, start, stop, None, old(rows));
        StatusLeavesSelections(old(rows), pks[..stop], None, known, pks[..start]);
        pkMap := SelectGroup(pks, start, stop, pkMap, known);
        StatusLeavesSelections(old(rows), pks[..stop], None, known, pks[..stop]);
        start := stop;
      }
      assert pks[..|pks|] == pks;
    }

    method RemoveAll(pks: seq<nat>, now: int, chunkSize: nat)
      requires chunkSize > 0
      modifies this`rows
      ensures rows == SetStatuses(old(rows), pks, Some(now))
    {
      var start := 0;
      while start < |pks|
        invariant start <= |pks|
        invariant rows == SetStatuses(old(rows), pks[..start], Some(now))
      {
        var stop := if start + chunkSize <= |pks| then start + chunkSize else |pks|;
        SetStatusGroup(pks, start, stop, Some(now), old(rows));
        start := stop;
      }
      assert pks[..|pks|] == pks;
    }

    method WriteGroups(feed: int, delta: StagingDelta, configHash: Digest, now: int, chunkSize: nat)
      returns (pkMap: map<string, nat>)
      requires chunkSize > 0
      modifies this`rows, this`nextPk
      ensures rows == Applied(old(rows), feed, delta, configHash, now, old(nextPk))
      ensures nextPk == old(nextPk) + |Inserting(delta.upserts, true)|
      ensures pkMap == AppliedPks(old(rows), feed, delta, configHash, old(nextPk))
    {
      pkMap := InsertAll(feed, Inserting(delta.upserts, true), configHash, chunkSize);
      pkMap := UpdateAll(feed, Inserting(delta.upserts, false), configHash, chunkSize, pkMap);
      pkMap := ReactivateAll(delta.reactivations, chunkSize, pkMap);
      RemoveAll(delta.removals, now, chunkSize);
      // touches only move last_seen_at, which no decision reads
    }

    method ApplyStagingDelta(feed: int, delta: StagingDelta, configHash: Digest, now: int, chunkSize: nat)
      returns (pkMap: map<string, nat>)
      requires chunkSize > 0
      requires forall u :: u in delta.upserts ==> u.insert || u.pk.Some?
      modifies this
      ensures rows == Applied(old(rows), feed, delta, configHash, now, old(nextPk))
      ensures nextPk == old(nextPk) + |Inserting(delta.upserts, true)|
      ensures pkMap == AppliedPks(old(rows), feed, delta, configHash, old(nextPk))
      ensures forall u :: u in WritingHistory(delta.upserts) ==> u.productId in pkMap
      ensures history == old(history) + HistoryOf(pkMap, WritingHistory(delta.upserts), now)
    {
      pkMap := WriteGroups(feed, delta, configHash, now, chunkSize);
      AppliedPksCoverUpserts(old(rows), feed, delta, configHash, old(nextPk));
      WritingHistoryIsSublist(delta.upserts);
      history := history + HistoryOf(pkMap, WritingHistory(delta.upserts), now);
    }

    /** Every row of the feed is found under its product id, and nothing else is. */
    method LoadStoredRows(feed: int) returns (stored: map<string, Row>)
      ensures forall id :: id in stored <==> Key(feed, id) in rows
      ensures forall id :: id in stored ==> stored[id] == rows[Key(feed, id)]
      ensures Valid() ==> forall i, j :: i in stored && j in stored && i != j ==> stored[i].pk != stored[j].pk
      ensures stored == Stored(rows, feed)
    {
      hide Stored, ValidRows;
      stored := Stored(rows, feed);
      StoredByKey(rows, feed);
      if Valid() { StoredApart(rows, nextPk, feed); }
    }

    method ApplyPluginOutcomes(feed: int, outcomes: seq<PluginOutcome>, chunkSize: nat)
      requires chunkSize > 0
      modifies this`rows
      ensures rows == RecordOutcomes(old(rows), feed, outcomes)
    {
      hide RecordOutcome;
      var start := 0;
      while start < |outcomes|
        invariant start <= |outcomes|
        invariant rows == RecordOutcomes(old(rows), feed, outcomes[..start])
      {
        var stop := if start + chunkSize <= |outcomes| then start + chunkSize else |outcomes|;
        for j := start to stop
          invariant rows == RecordOutcomes(old(rows), feed, outcomes[..j])
        {
          assert outcomes[..j + 1][..j] == outcomes[..j];
          rows := RecordOutcome(rows, feed, outcomes[j]);
        }
        start := stop;
      }
      assert outcomes[..|outcomes|] == outcomes;
    }

    /** Deletes expired rows of every feed source with their history, and then the history that is
        too old, counting both. */
    method PurgeExpired(cutoff: int, historyCutoff: int) returns (removed: nat, historyRows: nat)
      modifies this`rows, this`history
      ensures forall k :: k in old(rows) ==>
        var r := old(rows)[k];
        (k !in rows <==> r.status == Status.Removed && r.removedAt.Some? && r.removedAt.value < cutoff)
      ensures rows.Keys <= old(rows).Keys
      ensures forall k :: k in rows ==> rows[k] == old(rows)[k]
      ensures removed == |set k | k in old(rows) && Expired(old(rows)[k], cutoff)|
      ensures old(Valid()) ==> Valid()
      ensures
        var gone := set k | k in old(rows) && Expired(old(rows)[k], cutoff) :: old(rows)[k].pk;
        && history == Since(WithoutRows(old(history), gone), historyCutoff)
        && forall e :: e in history <==> e in old(history) && e.pk !in gone && e.recorded >= historyCutoff
      ensures historyRows == |old(history)| - |history|
    {
      var gone := set k | k in rows && Expired(rows[k], cutoff);
      var pks := set k | k in gone :: rows[k].pk;
      assert pks == set k | k in rows && Expired(rows[k], cutoff) :: rows[k].pk;
      RowsSplitHistory(history, pks);
      var cascaded := |OfRows(history, pks)|;
      history := WithoutRows(history, pks);
      rows := rows - gone;
      AgeSplitsHistory(history, historyCutoff);
      var aged := |Outdated(history, historyCutoff)|;
      history := Since(history, historyCutoff);
      removed, historyRows := |gone|, cascaded + aged;
    }
  }

  // ----- History that goes and stays -----

  function OfRows(entries: seq<HistoryEntry>, pks: set<nat>): seq<HistoryEntry> {
    if entries == [] then []
    else
      var last := entries[|entries| - 1];
      OfRows(entries[..|entries| - 1], pks) + (if last.pk in pks then [last] else [])
  }

  function WithoutRows(entries: seq<HistoryEntry>, pks: set<nat>): seq<HistoryEntry> {
    if entries == [] then []
    else
      var last := entries[|entries| - 1];
      WithoutRows(entries[..|entries| - 1], pks) + (if last.pk in pks then [] else [last])
  }

  function Outdated(entries: seq<HistoryEntry>, cutoff: int): seq<HistoryEntry> {
    if entries == [] then []
    else
      var last := entries[|entries| - 1];
      Outdated(entries[..|entries| - 1], cutoff) + (if last.recorded < cutoff then [last] else [])
  }

  function Since(entries: seq<HistoryEntry>, cutoff: int): seq<HistoryEntry> {
    if entries == [] then []
    else
      var last := entries[|entries| - 1];
      Since(entries[..|entries| - 1], cutoff) + (if last.recorded < cutoff then [] else [last])
  }

  lemma {:induction false} RowsSplitHistory(entries: seq<HistoryEntry>, pks: set<nat>)
    ensures |OfRows(entries, pks)| + |WithoutRows(entries, pks)| == |entries|
    ensures forall e :: e in WithoutRows(entries, pks) <==> e in entries && e.pk !in pks
  {
    if entries != [] {
      assert entries == entries[..|entries| - 1] + [entries[|entries| - 1]];
      RowsSplitHistory(entries[..|entries| - 1], pks);
    }
  }

  lemma {:induction false} AgeSplitsHistory(entries: seq<HistoryEntry>, cutoff: int)
    ensures |Outdated(entries, cutoff)| + |Since(entries, cutoff)| == |entries|
    ensures forall e :: e in Since(entries, cutoff) <==> e in entries && e.recorded >= cutoff
  {
    if entries != [] {
      assert entries == entries[..|entries| - 1] + [entries[|entries| - 1]];
      AgeSplitsHistory(entries[..|entries| - 1], cutoff);
    }
  }
}
