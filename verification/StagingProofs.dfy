/** Writing a classified delta stages the feed, row by row. */
module StagingProofs {
  import opened Hashing
  import opened Delta
  import opened Persistence
  import opened StagingTable
  import opened Wrappers

  lemma UpsertsOf(c: Comparison, ids: seq<string>)
    requires Distinct(ids) && forall id :: id in ids ==> id in c.feed
    ensures DistinctIds(c.Upserts(ids))
    ensures forall u :: u in c.Upserts(ids) ==> u.productId in ids && u == c.UpsertFor(u.productId)
    ensures forall id :: id in ids ==> c.UpsertFor(id) in c.Upserts(ids)
  {
    UpsertsByIndex(c, ids);
    forall id | id in ids ensures c.UpsertFor(id) in c.Upserts(ids) {
      var i :| 0 <= i < |ids| && ids[i] == id;
      assert c.Upserts(ids)[i] == c.UpsertFor(id);
    }
  }

  lemma UpsertsExactly(c: Comparison, products: seq<Json>, delta: StagingDelta)
    requires c.feed == FirstById(products) && c.Lists(delta, IdOrder(products))
    ensures DistinctIds(delta.upserts)
    ensures forall u :: u in delta.upserts ==>
      u.productId in c.feed && c.Verdict(u.productId) in WRITTEN && u == c.UpsertFor(u.productId)
    ensures forall id :: id in c.feed && c.Verdict(id) in WRITTEN ==> c.UpsertFor(id) in delta.upserts
  {
    IdOrderEnumerates(products);
    c.HavingExactly(IdOrder(products), WRITTEN);
    UpsertsOf(c, c.Having(IdOrder(products), WRITTEN));
  }

  /** `us` are the inserts (or the updates) of a comparison: which ids, and with what. */
  ghost predicate Group(c: Comparison, us: seq<Upsert>, insert: bool) {
    && DistinctIds(us)
    && (forall i :: 0 <= i < |us| ==>
      && us[i].productId in c.feed && c.Verdict(us[i].productId) in WRITTEN
      && us[i] == c.UpsertFor(us[i].productId)
      && (us[i].productId in c.stored <==> !insert))
    && (forall id :: id in c.feed && c.Verdict(id) in WRITTEN && (id in c.stored <==> !insert) ==> Hits(us, id))
  }

  lemma GroupsExactly(c: Comparison, products: seq<Json>, delta: StagingDelta, insert: bool)
    requires c.feed == FirstById(products) && c.Lists(delta, IdOrder(products))
    ensures Group(c, Inserting(delta.upserts, insert), insert)
  {
    UpsertsExactly(c, products, delta);
    InsertingExactly(delta.upserts, insert);
    InsertingKeepsDistinct(delta.upserts, insert);
    var us := Inserting(delta.upserts, insert);
    forall i | 0 <= i < |us|
      ensures us[i] in delta.upserts && us[i].insert == insert
    { assert us[i] in us; }
    forall id | id in c.feed && c.Verdict(id) in WRITTEN && (id in c.stored <==> !insert) ensures Hits(us, id) {
      assert c.UpsertFor(id) in us;
      var i :| 0 <= i < |us| && us[i] == c.UpsertFor(id);
    }
  }

  lemma PksExactly(c: Comparison, rows: Rows, nextPk: nat, feed: int, ids: seq<string>)
    requires ValidRows(rows, nextPk) && c.stored == Stored(rows, feed)
    requires forall id :: id in ids ==> id in c.stored
    ensures forall pk :: pk in c.Pks(ids) ==> pk < nextPk
    ensures forall k :: k in rows ==> (rows[k].pk in c.Pks(ids) <==> k.feed == feed && k.id in ids)
  {
    PksByIndex(c, ids);
    var pks := c.Pks(ids);
    forall i | 0 <= i < |pks| ensures Key(feed, ids[i]) in rows && pks[i] == rows[Key(feed, ids[i])].pk {
      assert ids[i] in ids;
    }
    forall k | k in rows && k.feed == feed && k.id in ids ensures rows[k].pk in pks {
      var i :| 0 <= i < |ids| && ids[i] == k.id;
      assert pks[i] == rows[k].pk;
    }
  }

  /** After the upserts a new id has a new row, with a row id no other row carries. */
  lemma NewRowWritten(
    c: Comparison, rows: Rows, feed: int, inserts: seq<Upsert>, updates: seq<Upsert>, pk: nat, k: Key)
    requires c.stored == Stored(rows, feed) && Group(c, inserts, true) && Group(c, updates, false) && k !in rows
    ensures
      var r := Update(Insert(rows, feed, inserts, c.configHash, pk), feed, updates, c.configHash);
      && (k in r <==> k.feed == feed && k.id in c.feed)
      && (k in r ==>
        && r[k] == StagedRow(None, c.feed[k.id], c.configHash, r[k].pk)
        && pk <= r[k].pk < pk + |inserts|
        && inserts[r[k].pk - pk].productId == k.id)
  {
    hide Update, Insert;
    var mid := Insert(rows, feed, inserts, c.configHash, pk);
    UpdateMisses(mid, feed, updates, c.configHash, k);
    if k.feed == feed && k.id in c.feed {
      assert c.Verdict(k.id) == New;
      var i :| 0 <= i < |inserts| && inserts[i].productId == k.id;
      InsertHits(rows, feed, inserts, c.configHash, pk, i);
    } else {
      InsertMisses(rows, feed, inserts, c.configHash, pk, k);
    }
  }

  /** After the upserts a stored row has new content exactly when the verdict says so. */
  lemma OldRowWritten(
    c: Comparison, rows: Rows, feed: int, inserts: seq<Upsert>, updates: seq<Upsert>, pk: nat, k: Key)
    requires c.stored == Stored(rows, feed) && Group(c, inserts, true) && Group(c, updates, false) && k in rows
    ensures
      var r := Update(Insert(rows, feed, inserts, c.configHash, pk), feed, updates, c.configHash);
      && k in r
      && r[k] == if k.feed == feed && k.id in c.feed && c.Verdict(k.id) in WRITTEN
        then StagedRow(Some(rows[k]), c.feed[k.id], c.configHash, 0) else rows[k]
  {
    hide Update, Insert;
    var mid := Insert(rows, feed, inserts, c.configHash, pk);
    InsertMisses(rows, feed, inserts, c.configHash, pk, k);
    if k.feed == feed && k.id in c.feed && c.Verdict(k.id) in WRITTEN {
      var i :| 0 <= i < |updates| && updates[i].productId == k.id;
      UpdateHits(mid, feed, updates, c.configHash, i);
    } else {
      UpdateMisses(mid, feed, updates, c.configHash, k);
    }
  }

  /** The row ids a comparison lists under some verdicts belong to exactly those rows. */
  lemma PksHaving(
    c: Comparison, rows: Rows, nextPk: nat, feed: int, products: seq<Json>, wanted: set<Verdict>, k: Key)
    requires ValidRows(rows, nextPk) && c.stored == Stored(rows, feed) && c.feed == FirstById(products)
    requires New !in wanted
    ensures
      var pks := c.Pks(c.Having(IdOrder(products), wanted));
      && (forall pk :: pk in pks ==> pk < nextPk)
      && (k in rows ==> (rows[k].pk in pks <==> k.feed == feed && k.id in c.feed && c.Verdict(k.id) in wanted))
  {
    IdOrderEnumerates(products);
    c.HavingExactly(IdOrder(products), wanted);
    PksExactly(c, rows, nextPk, feed, c.Having(IdOrder(products), wanted));
  }

  lemma RemovalsExactly(
    c: Comparison, rows: Rows, nextPk: nat, feed: int, delta: StagingDelta, k: Key)
    requires ValidRows(rows, nextPk) && c.stored == Stored(rows, feed)
    requires exists gone :: c.Removes(delta, gone)
    ensures forall pk :: pk in delta.removals ==> pk < nextPk
    ensures k in rows ==>
      (rows[k].pk in delta.removals <==> k.feed == feed && k.id !in c.feed && rows[k].status == Active)
  {
    var gone :| c.Removes(delta, gone);
    PksExactly(c, rows, nextPk, feed, gone);
  }

  /** What one row of the table becomes when a feed is staged, and under which row id. */
  ghost predicate RowStaged(
    c: Comparison, rows: Rows, after: Rows, nextPk: nat, inserts: seq<Upsert>, feed: int, now: int, k: Key)
  {
    && (k in after <==> k in rows || (k.feed == feed && k.id in c.feed))
    && (k in after ==>
      after[k] ==
        if k.feed != feed then rows[k]
        else if k.id in c.feed then
          StagedRow(if k in rows then Some(rows[k]) else None, c.feed[k.id], c.configHash, after[k].pk)
        else LeftOutRow(rows[k], now))
    && (k in rows ==> after[k].pk == rows[k].pk)
    && (k in after && k !in rows ==>
      && nextPk <= after[k].pk < nextPk + |inserts|
      && inserts[after[k].pk - nextPk].productId == k.id)
  }

  /** Which status list carries the row id of one row. */
  ghost predicate StatusListsAt(
    c: Comparison, rows: Rows, nextPk: nat, feed: int, reactivations: seq<nat>, removals: seq<nat>, k: Key)
  {
    && (forall pk :: pk in reactivations || pk in removals ==> pk < nextPk)
    && (k in rows ==>
      (rows[k].pk in reactivations <==> k.feed == feed && k.id in c.feed && c.Verdict(k.id) == ReactivatedSame))
    && (k in rows ==>
      (rows[k].pk in removals <==> k.feed == feed && k.id !in c.feed && rows[k].status == Active))
  }

  lemma AppliedOldRow(
    c: Comparison, rows: Rows, nextPk: nat, feed: int, inserts: seq<Upsert>, updates: seq<Upsert>,
    reactivations: seq<nat>, removals: seq<nat>, now: int, k: Key)
    requires c.stored == Stored(rows, feed) && Group(c, inserts, true) && Group(c, updates, false) && k in rows
    requires StatusListsAt(c, rows, nextPk, feed, reactivations, removals, k)
    ensures
      var upserted := Update(Insert(rows, feed, inserts, c.configHash, nextPk), feed, updates, c.configHash);
      var after := SetStatuses(SetStatuses(upserted, reactivations, None), removals, Some(now));
      RowStaged(c, rows, after, nextPk, inserts, feed, now, k)
  {
    hide Update, Insert, Group, SetStatuses;
    var upserted := Update(Insert(rows, feed, inserts, c.configHash, nextPk), feed, updates, c.configHash);
    OldRowWritten(c, rows, feed, inserts, updates, nextPk, k);
    SetStatusesAt(upserted, reactivations, None, k);
    SetStatusesAt(SetStatuses(upserted, reactivations, None), removals, Some(now), k);
  }

  lemma AppliedNewRow(
    c: Comparison, rows: Rows, nextPk: nat, feed: int, inserts: seq<Upsert>, updates: seq<Upsert>,
    reactivations: seq<nat>, removals: seq<nat>, now: int, k: Key)
    requires c.stored == Stored(rows, feed) && Group(c, inserts, true) && Group(c, updates, false) && k !in rows
    requires StatusListsAt(c, rows, nextPk, feed, reactivations, removals, k)
    ensures
      var upserted := Update(Insert(rows, feed, inserts, c.configHash, nextPk), feed, updates, c.configHash);
      var after := SetStatuses(SetStatuses(upserted, reactivations, None), removals, Some(now));
      RowStaged(c, rows, after, nextPk, inserts, feed, now, k)
  {
    hide Update, Insert, Group, SetStatuses;
    var upserted := Update(Insert(rows, feed, inserts, c.configHash, nextPk), feed, updates, c.configHash);
    NewRowWritten(c, rows, feed, inserts, updates, nextPk, k);
    SetStatusesAt(upserted, reactivations, None, k);
    SetStatusesAt(SetStatuses(upserted, reactivations, None), removals, Some(now), k);
  }

  lemma StatusListsExactly(
    c: Comparison, rows: Rows, nextPk: nat, feed: int, products: seq<Json>, delta: StagingDelta, k: Key)
    requires ValidRows(rows, nextPk) && c.stored == Stored(rows, feed) && c.feed == FirstById(products)
    requires delta.reactivations == c.Pks(c.Having(IdOrder(products), {ReactivatedSame}))
    requires exists gone :: c.Removes(delta, gone)
    ensures StatusListsAt(c, rows, nextPk, feed, delta.reactivations, delta.removals, k)
  {
    PksHaving(c, rows, nextPk, feed, products, {ReactivatedSame}, k);
    RemovalsExactly(c, rows, nextPk, feed, delta, k);
  }

  /** Applying a classified delta is staging the feed, whatever the chunk size. */
  lemma AppliedIsStaged(
    rows: Rows, nextPk: nat, feed: int, products: seq<Json>, configHash: Digest, now: int, delta: StagingDelta)
    requires ValidRows(rows, nextPk) && Decides(delta, products, Stored(rows, feed), configHash)
    ensures
      var after := Applied(rows, feed, delta, configHash, now, nextPk);
      && Staged(rows, after, feed, products, configHash, now)
      && ValidRows(after, nextPk + |Inserting(delta.upserts, true)|)
  {
    var c := Comparison(FirstById(products), Stored(rows, feed), configHash);
    var after := Applied(rows, feed, delta, configHash, now, nextPk);
    var inserts := Inserting(delta.upserts, true);
    var updates := Inserting(delta.upserts, false);
    GroupsExactly(c, products, delta, true);
    GroupsExactly(c, products, delta, false);
    forall k: Key ensures RowStaged(c, rows, after, nextPk, inserts, feed, now, k) {
      StatusListsExactly(c, rows, nextPk, feed, products, delta, k);
      if k in rows {
        AppliedOldRow(c, rows, nextPk, feed, inserts, updates, delta.reactivations, delta.removals, now, k);
      } else {
        AppliedNewRow(c, rows, nextPk, feed, inserts, updates, delta.reactivations, delta.removals, now, k);
      }
    }
    RowsStaged(c, rows, after, nextPk, inserts, feed, products, now);
  }

  lemma RowsStaged(
    c: Comparison, rows: Rows, after: Rows, nextPk: nat, inserts: seq<Upsert>, feed: int, products: seq<Json>, now: int)
    requires ValidRows(rows, nextPk) && c.feed == FirstById(products)
    requires forall k: Key :: RowStaged(c, rows, after, nextPk, inserts, feed, now, k)
    ensures Staged(rows, after, feed, products, c.configHash, now)
    ensures ValidRows(after, nextPk + |inserts|)
  {
    forall k: Key
      ensures k in after <==> k in rows || (k.feed == feed && k.id in c.feed)
      ensures k in after ==>
        && after[k].pk < nextPk + |inserts|
        && after[k] ==
          if k.feed != feed then rows[k]
          else if k.id in c.feed then
            StagedRow(if k in rows then Some(rows[k]) else None, c.feed[k.id], c.configHash, after[k].pk)
          else LeftOutRow(rows[k], now)
    {
      assert RowStaged(c, rows, after, nextPk, inserts, feed, now, k);
    }
    forall j, k | j in after && k in after && after[j].pk == after[k].pk ensures j == k {
      assert RowStaged(c, rows, after, nextPk, inserts, feed, now, j);
      assert RowStaged(c, rows, after, nextPk, inserts, feed, now, k);
    }
  }

  /** The row ids remembered for written rows are those rows' own. */
  lemma WrittenPk(
    c: Comparison, rows: Rows, pk: nat, feed: int, inserts: seq<Upsert>, updates: seq<Upsert>, id: string)
    requires c.stored == Stored(rows, feed) && Group(c, inserts, true) && Group(c, updates, false)
    requires id in c.feed && c.Verdict(id) in WRITTEN
    ensures
      var upserted := Update(Insert(rows, feed, inserts, c.configHash, pk), feed, updates, c.configHash);
      var known := UpdatedPks(InsertedPks(inserts, pk), updates);
      id in known && Key(feed, id) in upserted && known[id] == upserted[Key(feed, id)].pk
  {
    hide Update, Insert, UpdatedPks, InsertedPks;
    if Key(feed, id) in rows {
      OldRowWritten(c, rows, feed, inserts, updates, pk, Key(feed, id));
      RememberedOld(c, rows, pk, feed, inserts, updates, id);
    } else {
      NewRowWritten(c, rows, feed, inserts, updates, pk, Key(feed, id));
      RememberedNew(c, rows, pk, feed, inserts, updates, id);
    }
  }

  lemma RememberedOld(
    c: Comparison, rows: Rows, pk: nat, feed: int, inserts: seq<Upsert>, updates: seq<Upsert>, id: string)
    requires c.stored == Stored(rows, feed) && Group(c, updates, false)
    requires id in c.feed && c.Verdict(id) in WRITTEN && Key(feed, id) in rows
    ensures
      var known := UpdatedPks(InsertedPks(inserts, pk), updates);
      id in known && known[id] == rows[Key(feed, id)].pk
  {
    hide UpdatedPks, InsertedPks;
    var i :| 0 <= i < |updates| && updates[i].productId == id;
    UpdatedPksAt(InsertedPks(inserts, pk), updates, i);
  }

  lemma RememberedNew(
    c: Comparison, rows: Rows, pk: nat, feed: int, inserts: seq<Upsert>, updates: seq<Upsert>, id: string)
    requires c.stored == Stored(rows, feed) && Group(c, inserts, true) && Group(c, updates, false)
    requires id in c.feed && c.Verdict(id) in WRITTEN && Key(feed, id) !in rows
    ensures
      var known := UpdatedPks(InsertedPks(inserts, pk), updates);
      id in known && pk <= known[id] < pk + |inserts| && inserts[known[id] - pk].productId == id
  {
    hide UpdatedPks, InsertedPks;
    var i :| 0 <= i < |inserts| && inserts[i].productId == id;
    InsertedPksAt(inserts, pk, i);
    UpdatedPksMisses(InsertedPks(inserts, pk), updates, id);
  }

  /** After the upserts the row ids to reactivate still single out the unchanged removed rows. */
  lemma ReactivationTargets(
    c: Comparison, rows: Rows, nextPk: nat, feed: int, inserts: seq<Upsert>, updates: seq<Upsert>,
    reactivations: seq<nat>, removals: seq<nat>, k: Key)
    requires c.stored == Stored(rows, feed) && Group(c, inserts, true) && Group(c, updates, false)
    requires StatusListsAt(c, rows, nextPk, feed, reactivations, removals, k)
    ensures
      var upserted := Update(Insert(rows, feed, inserts, c.configHash, nextPk), feed, updates, c.configHash);
      k in upserted ==>
      (upserted[k].pk in reactivations <==>
        k in rows && k.feed == feed && k.id in c.feed && c.Verdict(k.id) == ReactivatedSame)
  {
    hide Update, Insert, Group;
    if k in rows {
      OldRowWritten(c, rows, feed, inserts, updates, nextPk, k);
    } else {
      NewRowWritten(c, rows, feed, inserts, updates, nextPk, k);
    }
  }

  /** Every product handed to the plugins comes with the row id of its own row. */
  lemma AppliedPksAt(
    rows: Rows, nextPk: nat, feed: int, products: seq<Json>, configHash: Digest, delta: StagingDelta, id: string)
    requires ValidRows(rows, nextPk) && Decides(delta, products, Stored(rows, feed), configHash)
    requires
      var c := Comparison(FirstById(products), Stored(rows, feed), configHash);
      id in c.feed && c.Verdict(id) in ENQUEUED
    ensures
      var upserted := Upserted(rows, feed, delta.upserts, configHash, nextPk);
      var pks := AppliedPks(rows, feed, delta, configHash, nextPk);
      id in pks && Key(feed, id) in upserted && pks[id] == upserted[Key(feed, id)].pk
  {
    var c := Comparison(FirstById(products), Stored(rows, feed), configHash);
    var inserts, updates := Inserting(delta.upserts, true), Inserting(delta.upserts, false);
    GroupsExactly(c, products, delta, true);
    GroupsExactly(c, products, delta, false);
    var upserted := Upserted(rows, feed, delta.upserts, configHash, nextPk);
    forall k | k in upserted
      ensures upserted[k].pk in delta.reactivations <==>
        k in rows && k.feed == feed && k.id in c.feed && c.Verdict(k.id) == ReactivatedSame
    {
      StatusListsExactly(c, rows, nextPk, feed, products, delta, k);
      ReactivationTargets(c, rows, nextPk, feed, inserts, updates, delta.reactivations, delta.removals, k);
    }
    EnqueuedPk(c, rows, nextPk, feed, inserts, updates, delta.reactivations, id);
  }

  lemma EnqueuedPk(
    c: Comparison, rows: Rows, nextPk: nat, feed: int, inserts: seq<Upsert>, updates: seq<Upsert>,
    reactivations: seq<nat>, id: string)
    requires c.stored == Stored(rows, feed) && Group(c, inserts, true) && Group(c, updates, false)
    requires id in c.feed && c.Verdict(id) in ENQUEUED
    requires
      var upserted := Update(Insert(rows, feed, inserts, c.configHash, nextPk), feed, updates, c.configHash);
      forall k :: k in upserted ==> (upserted[k].pk in reactivations <==>
        k in rows && k.feed == feed && k.id in c.feed && c.Verdict(k.id) == ReactivatedSame)
    ensures
      var upserted := Update(Insert(rows, feed, inserts, c.configHash, nextPk), feed, updates, c.configHash);
      var pks := SelectAll(UpdatedPks(InsertedPks(inserts, nextPk), updates), upserted, reactivations);
      id in pks && Key(feed, id) in upserted && pks[id] == upserted[Key(feed, id)].pk
  {
    hide Update, Insert, UpdatedPks, InsertedPks, SelectAll, Group;
    var upserted := Update(Insert(rows, feed, inserts, c.configHash, nextPk), feed, updates, c.configHash);
    var known := UpdatedPks(InsertedPks(inserts, nextPk), updates);
    if c.Verdict(id) in WRITTEN {
      WrittenPk(c, rows, nextPk, feed, inserts, updates, id);
      SelectAllMisses(known, upserted, reactivations, id);
    } else {
      OldRowWritten(c, rows, feed, inserts, updates, nextPk, Key(feed, id));
      SelectAllHits(known, upserted, reactivations, Key(feed, id));
    }
  }
}
