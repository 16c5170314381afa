/** Conservation and fixpoint of the classification. */
module DeltaFacts {
  import opened Hashing
  import opened Delta
  import opened Persistence
  import opened StagingTable
  import opened StagingProofs
  import opened Wrappers

  /** Every verdict class is counted by exactly one counter. */
  lemma {:induction false} VerdictsPartition(c: Comparison, order: seq<string>)
    requires forall id :: id in order ==> id in c.feed
    ensures |c.Having(order, {New})| + |c.Having(order, {Changed})| + |c.Having(order, {Unchanged})|
      + |c.Having(order, REACTIVATED)| == |order|
    ensures |c.Having(order, ENQUEUED)| + |c.Having(order, {Unchanged})| == |order|
    ensures |c.Having(order, WRITTEN)| + |c.Having(order, {ReactivatedSame})| == |c.Having(order, ENQUEUED)|
  {
    if order != [] {
      var rest, id := order[..|order| - 1], order[|order| - 1];
      assert order == rest + [id];
      VerdictsPartition(c, rest);
      c.HavingOneMore(rest, id, {New});
      c.HavingOneMore(rest, id, {Changed});
      c.HavingOneMore(rest, id, {Unchanged});
      c.HavingOneMore(rest, id, REACTIVATED);
      c.HavingOneMore(rest, id, {ReactivatedSame});
      c.HavingOneMore(rest, id, ENQUEUED);
      c.HavingOneMore(rest, id, WRITTEN);
    }
  }

  /** Every input product is counted exactly once, and enqueued unless unchanged or unusable. */
  lemma EveryProductCountedOnce(
    delta: StagingDelta, products: seq<Json>, stored: map<string, Row>, configHash: Digest)
    requires Classifies(delta, products, stored, configHash)
    ensures
      var n := delta.counts;
      && n.added + n.changed + n.same + n.reactivated + n.failed == |products|
      && |delta.enqueue| + n.same + n.failed == |products|
      && |delta.touches| == n.same && |delta.removals| == n.removed
      && |delta.upserts| + |delta.reactivations| == |delta.enqueue|
  {
    var c, order := Comparison(FirstById(products), stored, configHash), IdOrder(products);
    IdOrderEnumerates(products);
    VerdictsPartition(c, order);
    c.HavingExactly(order, ENQUEUED);
    c.HavingExactly(order, WRITTEN);
    c.HavingExactly(order, {Unchanged});
    c.HavingExactly(order, {ReactivatedSame});
    UpsertsByIndex(c, c.Having(order, WRITTEN));
    ProductsByIndex(c, c.Having(order, ENQUEUED));
    PksByIndex(c, c.Having(order, {Unchanged}));
    PksByIndex(c, c.Having(order, {ReactivatedSame}));
    var gone :| c.Removes(delta, gone);
    PksByIndex(c, gone);
  }

  ghost predicate Updates(us: seq<Upsert>, pk: nat) {
    exists u :: u in us && u.pk == Some(pk)
  }

  lemma UpdatedExactly(
    c: Comparison, rows: Rows, nextPk: nat, feed: int, products: seq<Json>, delta: StagingDelta, k: Key)
    requires ValidRows(rows, nextPk) && c.stored == Stored(rows, feed) && c.feed == FirstById(products) && k in rows
    requires c.Lists(delta, IdOrder(products))
    ensures Updates(delta.upserts, rows[k].pk) <==>
      k.feed == feed && k.id in c.feed && c.Verdict(k.id) in {Changed, ReactivatedChanged}
  {
    hide FirstById, IdOrder, Comparison.Lists;
    UpsertsExactly(c, products, delta);
    if k.feed == feed && k.id in c.feed && c.Verdict(k.id) in {Changed, ReactivatedChanged} {
      assert c.UpsertFor(k.id) in delta.upserts;
    }
    if Updates(delta.upserts, rows[k].pk) {
      var u :| u in delta.upserts && u.pk == Some(rows[k].pk);
      assert Key(feed, u.productId) in rows && rows[Key(feed, u.productId)].pk == rows[k].pk;
    }
  }

  /** Every stored row of the feed is in at most one action list, and rows of other feeds in none;
      a row of this feed is in none only if it was already removed and stays away. */
  lemma EveryRowInOneList(
    rows: Rows, nextPk: nat, feed: int, products: seq<Json>, configHash: Digest, delta: StagingDelta, k: Key)
    requires ValidRows(rows, nextPk) && Decides(delta, products, Stored(rows, feed), configHash) && k in rows
    ensures
      var pk := rows[k].pk;
      var lists :=
        (if Updates(delta.upserts, pk) then 1 else 0) + (if pk in delta.reactivations then 1 else 0)
        + (if pk in delta.removals then 1 else 0) + (if pk in delta.touches then 1 else 0);
      lists ==
        if k.feed != feed || (k.id !in FirstById(products) && rows[k].status != Active) then 0 else 1
  {
    var c := Comparison(FirstById(products), Stored(rows, feed), configHash);
    UpdatedExactly(c, rows, nextPk, feed, products, delta, k);
    PksHaving(c, rows, nextPk, feed, products, {ReactivatedSame}, k);
    PksHaving(c, rows, nextPk, feed, products, {Unchanged}, k);
    RemovalsExactly(c, rows, nextPk, feed, delta, k);
  }

  /** Staging is a fixpoint: the same feed under the same configuration only touches rows. */
  lemma SecondStagingOnlyTouches(
    before: Rows, after: Rows, feed: int, products: seq<Json>, configHash: Digest, now: int, delta: StagingDelta)
    requires Staged(before, after, feed, products, configHash, now)
    requires Classifies(delta, products, Stored(after, feed), configHash)
    ensures delta.upserts == [] && delta.enqueue == [] && delta.reactivations == [] && delta.removals == []
    ensures |delta.touches| + delta.counts.failed == |products|
  {
    hide FirstById, IdOrder, ContentHash;
    var c, order := Comparison(FirstById(products), Stored(after, feed), configHash), IdOrder(products);
    EveryProductCountedOnce(delta, products, Stored(after, feed), configHash);
    IdOrderEnumerates(products);
    AllUnchanged(before, after, feed, products, configHash, now);
    HavingNothing(c, order, ENQUEUED);
    HavingNothing(c, order, WRITTEN);
    HavingNothing(c, order, {ReactivatedSame});
    var gone :| c.Removes(delta, gone);
    EnumerationSize(gone, {});
  }

  lemma {:induction false} HavingNothing(c: Comparison, order: seq<string>, wanted: set<Verdict>)
    requires forall id :: id in c.feed ==> c.Verdict(id) !in wanted
    ensures c.Having(order, wanted) == []
  {
    if order != [] { HavingNothing(c, order[..|order| - 1], wanted); }
  }

  lemma {:induction false} EnumerationSize(s: seq<string>, ids: set<string>)
    requires Enumerates(s, ids)
    ensures |s| == |ids|
  {
    if s != [] {
      EnumerationSize(s[..|s| - 1], ids - {s[|s| - 1]});
    } else {
      assert ids == {};
    }
  }

  lemma AllUnchanged(before: Rows, after: Rows, feed: int, products: seq<Json>, configHash: Digest, now: int)
    requires Staged(before, after, feed, products, configHash, now)
    ensures
      var c := Comparison(FirstById(products), Stored(after, feed), configHash);
      (forall id :: id in c.feed ==> c.Verdict(id) == Unchanged) && c.Vanished() == {}
  {
    hide FirstById, ContentHash;
    var c := Comparison(FirstById(products), Stored(after, feed), configHash);
    forall id | id in c.feed ensures c.Verdict(id) == Unchanged {
      assert Key(feed, id) in after;
    }
  }
}
