/** What staging a feed leaves in each row, field by field, what it writes to the history, and what
    plugin outcomes leave. */
module StagingMeaning {
  import opened Delta
  import opened Hashing
  import opened Persistence
  import opened StagingProofs
  import opened StagingTable
  import opened Wrappers

  // ----- Rows -----

  /** The stored row answers for the product under this configuration. */
  ghost predicate UpToDate(r: Row, product: Json, configHash: Digest) {
    r.contentHash == ContentHash(product) && r.configHash == configHash
  }

  /** The row of a product that the feed has: active and up to date, and with the product itself
      unless it was up to date before. */
  ghost predicate Kept(before: Option<Row>, after: Row, product: Json, configHash: Digest) {
    && after.status == Active && UpToDate(after, product, configHash)
    && match before
       case None => after == Row(after.pk, after.contentHash, configHash, Active, None, product, None, false)
       case Some(r) =>
         && after.pk == r.pk && after.processed == r.processed && after.excluded == r.excluded
         && after.raw == (if UpToDate(r, product, configHash) then r.raw else product)
         && after.removedAt == (if r.status == Active && UpToDate(r, product, configHash) then r.removedAt else None)
  }

  /** The row of a product that the feed no longer has. */
  ghost predicate LeftOut(before: Row, after: Row, now: int) {
    if before.status == Status.Removed then after == before
    else
      && after.status == Status.Removed && after.removedAt == Some(now)
      && after.(status := Active, removedAt := before.removedAt) == before
  }

  /** Staging: rows of other feeds stay; a product is kept by the first of the feed with its id; the
      other rows of the feed are left out. */
  lemma StagedRows(
    before: Rows, after: Rows, feed: int, products: seq<Json>, configHash: Digest, now: int, k: Key)
    requires Staged(before, after, feed, products, configHash, now)
    ensures k.feed != feed ==> At(after, k) == At(before, k)
    ensures forall i: nat :: k.feed == feed && FirstAt(products, k.id, i) ==>
      k in after && Kept(At(before, k), after[k], products[i], configHash)
    ensures k.feed == feed && NoneCarries(products, k.id) ==>
      (k in after <==> k in before) && (k in before ==> LeftOut(before[k], after[k], now))
  {
    hide FirstById, FirstAt, NoneCarries, ContentHash;
    FirstByIdIff(products, k.id);
  }

  // ----- History -----

  /** The feed's first product with this id is new, or differs from what is stored. */
  ghost predicate NewContent(products: seq<Json>, stored: map<string, Row>, id: string, i: nat) {
    FirstAt(products, id, i) && (id in stored ==> ContentHash(products[i]) != stored[id].contentHash)
  }

  ghost predicate Recorded(products: seq<Json>, stored: map<string, Row>, pks: map<string, nat>, now: int,
      e: HistoryEntry)
  {
    exists id, i: nat ::
      NewContent(products, stored, id, i) && id in pks && e == HistoryEntry(pks[id], products[i], now)
  }

  /** The upserts that write history are those of new content. */
  lemma UpsertsAreNew(products: seq<Json>, stored: map<string, Row>, configHash: Digest, delta: StagingDelta, u: Upsert)
    requires Decides(delta, products, stored, configHash) && u in WritingHistory(delta.upserts)
    ensures exists i: nat :: NewContent(products, stored, u.productId, i) && u.product == products[i]
  {
    hide FirstById, NoneCarries, CarriesId, WritingHistory, IdOrder, Comparison.Lists;
    var c := Comparison(FirstById(products), stored, configHash);
    UpsertsExactly(c, products, delta);
    WritingHistoryIsSublist(delta.upserts);
    FirstOf(products);
    var i: nat :| FirstAt(products, u.productId, i) && c.feed[u.productId] == products[i];
    assert NewContent(products, stored, u.productId, i);
  }

  lemma NewAreUpserts(products: seq<Json>, stored: map<string, Row>, configHash: Digest, delta: StagingDelta,
      id: string, i: nat)
    requires Decides(delta, products, stored, configHash) && NewContent(products, stored, id, i)
    ensures exists u :: u in WritingHistory(delta.upserts) && u.productId == id && u.product == products[i]
  {
    hide FirstById, NoneCarries, CarriesId, WritingHistory, IdOrder, Comparison.Lists;
    var c := Comparison(FirstById(products), stored, configHash);
    UpsertsExactly(c, products, delta);
    WritingHistoryIsSublist(delta.upserts);
    FirstOf(products);
    assert c.UpsertFor(id) in WritingHistory(delta.upserts);
  }

  /** History is written for exactly the products with new content, each as it came in, under the id
      of its row. */
  lemma HistoryIff(products: seq<Json>, stored: map<string, Row>, configHash: Digest, delta: StagingDelta,
      pks: map<string, nat>, now: int, e: HistoryEntry)
    requires Decides(delta, products, stored, configHash)
    requires forall u :: u in WritingHistory(delta.upserts) ==> u.productId in pks
    ensures e in HistoryOf(pks, WritingHistory(delta.upserts), now) <==> Recorded(products, stored, pks, now, e)
  {
    hide NoneCarries, CarriesId, WritingHistory, Decides;
    var us := WritingHistory(delta.upserts);
    if e in HistoryOf(pks, us, now) {
      var j :| 0 <= j < |us| && e == HistoryEntry(pks[us[j].productId], us[j].product, now);
      UpsertsAreNew(products, stored, configHash, delta, us[j]);
    }
    if Recorded(products, stored, pks, now, e) {
      var id, i: nat :| NewContent(products, stored, id, i) && id in pks
        && e == HistoryEntry(pks[id], products[i], now);
      NewAreUpserts(products, stored, configHash, delta, id, i);
      var u :| u in us && u.productId == id && u.product == products[i];
      var j :| 0 <= j < |us| && us[j] == u;
      assert HistoryOf(pks, us, now)[j] == e;
    }
  }

  lemma FirstOf(products: seq<Json>)
    ensures forall id :: id in FirstById(products) ==>
      exists i: nat :: FirstAt(products, id, i) && FirstById(products)[id] == products[i]
    ensures forall id, i: nat :: FirstAt(products, id, i) ==>
      id in FirstById(products) && FirstById(products)[id] == products[i]
  {
    hide FirstById, CarriesId;
    forall id | id in FirstById(products)
      ensures exists i: nat :: FirstAt(products, id, i) && FirstById(products)[id] == products[i]
    {
      FirstByIdIff(products, id);
      var i := FirstCarrier(products, id);
    }
    forall id, i: nat | FirstAt(products, id, i)
      ensures id in FirstById(products) && FirstById(products)[id] == products[i]
    {
      FirstByIdIff(products, id);
    }
  }

  lemma {:induction false} FirstCarrier(products: seq<Json>, id: string) returns (i: nat)
    requires !NoneCarries(products, id)
    ensures FirstAt(products, id, i)
  {
    hide CarriesId;
    var n := |products| - 1;
    assert products == products[..n] + [products[n]];
    NoneOneMore(products[..n], products[n], id);
    if NoneCarries(products[..n], id) {
      i := n;
    } else {
      i := FirstCarrier(products[..n], id);
      assert products[..n][..i] == products[..i];
    }
  }

  // ----- Plugin outcomes -----

  /** The last outcome under a row's id decides: its product, or exclusion without one. */
  ghost predicate OutcomeLeft(r: Row, after: Row, o: PluginOutcome) {
    && after.(processed := r.processed, excluded := r.excluded) == r
    && after.processed == o.finalProduct
    && (after.excluded <==> o.finalProduct == None)
  }

  ghost predicate LastUnder(outcomes: seq<PluginOutcome>, pk: nat, i: nat) {
    i < |outcomes| && outcomes[i].pk == pk && forall j: nat | i < j < |outcomes| :: outcomes[j].pk != pk
  }

  lemma {:induction false} OutcomesLeft(rows: Rows, feed: int, outcomes: seq<PluginOutcome>, k: Key)
    ensures k in RecordOutcomes(rows, feed, outcomes) <==> k in rows
    ensures k in rows ==>
      var after := RecordOutcomes(rows, feed, outcomes)[k];
      && (forall i: nat :: k.feed == feed && LastUnder(outcomes, rows[k].pk, i) ==>
        OutcomeLeft(rows[k], after, outcomes[i]))
      && (k.feed != feed || (forall o :: o in outcomes ==> o.pk != rows[k].pk) ==> after == rows[k])
  {
    if outcomes != [] {
      var n := |outcomes| - 1;
      OutcomesLeft(rows, feed, outcomes[..n], k);
      if k in rows { OutcomeKeepsPks(rows, feed, outcomes[..n], k); }
      assert outcomes == outcomes[..n] + [outcomes[n]];
      if k in rows && k.feed == feed && outcomes[n].pk != rows[k].pk {
        forall i: nat | LastUnder(outcomes, rows[k].pk, i) ensures LastUnder(outcomes[..n], rows[k].pk, i) {}
      }
    }
  }

  lemma {:induction false} OutcomeKeepsPks(rows: Rows, feed: int, outcomes: seq<PluginOutcome>, k: Key)
    requires k in rows
    ensures k in RecordOutcomes(rows, feed, outcomes)
    ensures RecordOutcomes(rows, feed, outcomes)[k].(processed := rows[k].processed, excluded := rows[k].excluded)
      == rows[k]
  {
    if outcomes != [] { OutcomeKeepsPks(rows, feed, outcomes[..|outcomes| - 1], k); }
  }
}
