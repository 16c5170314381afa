/** Classification of an incoming feed against the stored rows of one feed source. */
module Delta {
  import opened Hashing
  import opened Wrappers

  datatype Status = Active | Removed

  /** One row of the staging table. `removedAt` is set exactly while the row is removed. */
  datatype Row = Row(
    pk: nat,
    contentHash: Digest,
    configHash: Digest,
    status: Status,
    removedAt: Option<int>,
    raw: Json,
    processed: Option<Json>,
    excluded: bool)

  datatype Upsert = Upsert(
    productId: string,
    product: Json,
    contentHash: Digest,
    configHash: Digest,
    insert: bool,
    writeHistory: bool,
    pk: Option<nat>)

  datatype Counts = Counts(
    added: nat, changed: nat, same: nat, reactivated: nat, removed: nat, failed: nat)

  datatype StagingDelta = StagingDelta(
    enqueue: seq<Json>,
    upserts: seq<Upsert>,
    reactivations: seq<nat>,
    removals: seq<nat>,
    touches: seq<nat>,
    counts: Counts)

  function ProductId(product: Json): Option<string> {
    if product.Obj? && "id" in product.fields && product.fields["id"].Str? && product.fields["id"].text != ""
    then Some(product.fields["id"].text)
    else None
  }

  // ----- What an incoming list of products means -----

  /** The usable part of a feed: each non-empty id with the first product that carries it. */
  function FirstById(products: seq<Json>): map<string, Json> {
    if products == [] then map[]
    else
      var earlier := FirstById(products[..|products| - 1]);
      var product := products[|products| - 1];
      match ProductId(product)
      case None => earlier
      case Some(id) => if id in earlier then earlier else earlier[id := product]
  }

  /** The same ids, in the order they are first met. */
  function IdOrder(products: seq<Json>): seq<string> {
    if products == [] then []
    else
      var earlier := IdOrder(products[..|products| - 1]);
      match ProductId(products[|products| - 1])
      case None => earlier
      case Some(id) => if id in earlier then earlier else earlier + [id]
  }

  ghost predicate Distinct<T(!new)>(s: seq<T>) {
    forall i, j :: 0 <= i < j < |s| ==> s[i] != s[j]
  }

  lemma OrderOneMore(products: seq<Json>, product: Json)
    ensures
      var id := ProductId(product);
      var earlier := FirstById(products);
      if id.None? || id.value in earlier then
        IdOrder(products + [product]) == IdOrder(products) && FirstById(products + [product]) == earlier
      else
        && IdOrder(products + [product]) == IdOrder(products) + [id.value]
        && FirstById(products + [product]) == earlier[id.value := product]
  {
    var longer := products + [product];
    assert longer[..|longer| - 1] == products;
  }

  lemma {:induction false} FirstByIdCarriesItsId(products: seq<Json>)
    ensures forall id :: id in FirstById(products) ==>
      ProductId(FirstById(products)[id]) == Some(id) && FirstById(products)[id] in products
  {
    if products != [] {
      FirstByIdCarriesItsId(products[..|products| - 1]);
    }
  }

  ghost predicate CarriesId(product: Json, id: string) {
    id != "" && product.Obj? && "id" in product.fields && product.fields["id"] == Str(id)
  }

  ghost predicate NoneCarries(products: seq<Json>, id: string) {
    forall j :: 0 <= j < |products| ==> !CarriesId(products[j], id)
  }

  ghost predicate FirstAt(products: seq<Json>, id: string, i: nat) {
    i < |products| && CarriesId(products[i], id) && NoneCarries(products[..i], id)
  }

  lemma NoneOneMore(products: seq<Json>, last: Json, id: string)
    ensures NoneCarries(products + [last], id) <==> NoneCarries(products, id) && !CarriesId(last, id)
    ensures forall i: nat :: i <= |products| ==> (products + [last])[..i] == products[..i]
  {
    hide CarriesId;
    var longer := products + [last];
    assert longer[|products|] == last && forall j :: 0 <= j < |products| ==> longer[j] == products[j];
  }

  /** The usable part of a feed: for each id exactly the first product that carries it. */
  lemma {:induction false} FirstByIdIff(products: seq<Json>, id: string)
    ensures id !in FirstById(products) <==> NoneCarries(products, id)
    ensures forall i: nat :: FirstAt(products, id, i) ==>
      id in FirstById(products) && FirstById(products)[id] == products[i]
  {
    if products != [] {
      var rest, last := products[..|products| - 1], products[|products| - 1];
      assert products == rest + [last];
      FirstByIdIff(rest, id);
      NoneOneMore(rest, last, id);
      assert CarriesId(last, id) <==> ProductId(last) == Some(id);
      forall i: nat | FirstAt(products, id, i)
        ensures id in FirstById(products) && FirstById(products)[id] == products[i]
      {
        if i < |rest| {
          assert rest[..i] == products[..i];
          assert FirstAt(rest, id, i);
        } else {
          assert products[..i] == rest;
        }
      }
    }
  }

  lemma {:induction false} IdOrderEnumerates(products: seq<Json>)
    ensures Enumerates(IdOrder(products), FirstById(products).Keys)
    ensures |IdOrder(products)| <= |products|
  {
    if products != [] {
      var shorter := products[..|products| - 1];
      IdOrderEnumerates(shorter);
      match ProductId(products[|products| - 1])
      case None =>
      case Some(id) =>
        if id !in FirstById(shorter) { assert IdOrder(products) == IdOrder(shorter) + [id]; }
    }
  }

  lemma {:induction false} FirstByIdGrows(products: seq<Json>, n: nat)
    requires n <= |products|
    ensures FirstById(products[..n]).Keys <= FirstById(products).Keys
    ensures forall id :: id in FirstById(products[..n]) ==> FirstById(products)[id] == FirstById(products[..n])[id]
    decreases |products|
  {
    if n == |products| {
      assert products[..n] == products;
    } else {
      var shorter := products[..|products| - 1];
      FirstByIdGrows(shorter, n);
      assert shorter[..n] == products[..n];
    }
  }

  // ----- The verdict on one product -----

  datatype Verdict = New | Changed | Unchanged | ReactivatedChanged | ReactivatedSame

  function VerdictOf(product: Json, row: Option<Row>, configHash: Digest): Verdict {
    match row
    case None => New
    case Some(r) =>
      var same := ContentHash(product) == r.contentHash && configHash == r.configHash;
      if r.status == Active then (if same then Unchanged else Changed)
      else (if same then ReactivatedSame else ReactivatedChanged)
  }

  const WRITTEN: set<Verdict> := {New, Changed, ReactivatedChanged}
  const ENQUEUED: set<Verdict> := {New, Changed, ReactivatedChanged, ReactivatedSame}
  const REACTIVATED: set<Verdict> := {ReactivatedChanged, ReactivatedSame}

  /** The usable part of a feed set against the stored rows under one configuration. */
  datatype Comparison = Comparison(feed: map<string, Json>, stored: map<string, Row>, configHash: Digest) {

    function Verdict(id: string): Verdict
      requires id in feed
    {
      VerdictOf(feed[id], At(stored, id), configHash)
    }

    function UpsertFor(id: string): Upsert
      requires id in feed
    {
      var product, row := feed[id], At(stored, id);
      Upsert(
        id, product, ContentHash(product), configHash,
        row.None?,
        row.None? || ContentHash(product) != row.value.contentHash,
        if row.None? then None else Some(row.value.pk))
    }

    /** The ids of `order` whose verdict is one of `wanted`, in order. */
    function Having(order: seq<string>, wanted: set<Verdict>): seq<string> {
      if order == [] then []
      else
        var id := order[|order| - 1];
        Having(order[..|order| - 1], wanted) + (if id in feed && Verdict(id) in wanted then [id] else [])
    }

    function Upserts(ids: seq<string>): seq<Upsert> {
      if ids == [] then []
      else
        var id := ids[|ids| - 1];
        Upserts(ids[..|ids| - 1]) + (if id in feed then [UpsertFor(id)] else [])
    }

    function Products(ids: seq<string>): seq<Json> {
      if ids == [] then []
      else
        var id := ids[|ids| - 1];
        Products(ids[..|ids| - 1]) + (if id in feed then [feed[id]] else [])
    }

    function Pks(ids: seq<string>): seq<nat> {
      if ids == [] then []
      else
        var id := ids[|ids| - 1];
        Pks(ids[..|ids| - 1]) + (if id in stored then [stored[id].pk] else [])
    }

    /** Active rows the feed no longer mentions. */
    function Vanished(): set<string> {
      set id | id in stored && id !in feed && stored[id].status == Active
    }

    ghost predicate Lists(delta: StagingDelta, order: seq<string>) {
      && delta.upserts == Upserts(Having(order, WRITTEN))
      && delta.enqueue == Products(Having(order, ENQUEUED))
      && delta.reactivations == Pks(Having(order, {ReactivatedSame}))
      && delta.touches == Pks(Having(order, {Unchanged}))
    }

    ghost predicate Counted(counts: Counts, order: seq<string>, total: nat) {
      && counts.added == |Having(order, {New})|
      && counts.changed == |Having(order, {Changed})|
      && counts.same == |Having(order, {Unchanged})|
      && counts.reactivated == |Having(order, REACTIVATED)|
      && counts.failed == total - |order|
    }

    ghost predicate Removes(delta: StagingDelta, gone: seq<string>) {
      && Enumerates(gone, Vanished())
      && delta.removals == Pks(gone)
      && delta.counts.removed == |gone|
    }

    lemma {:induction false} HavingExactly(order: seq<string>, wanted: set<Verdict>)
      ensures forall id :: id in Having(order, wanted) <==> id in order && id in feed && Verdict(id) in wanted
      ensures Distinct(order) ==> Distinct(Having(order, wanted))
    {
      if order != [] {
        HavingExactly(order[..|order| - 1], wanted);
        assert order == order[..|order| - 1] + [order[|order| - 1]];
      }
    }

    lemma HavingOneMore(order: seq<string>, id: string, wanted: set<Verdict>)
      requires id in feed
      ensures Having(order + [id], wanted) ==
        if Verdict(id) in wanted then Having(order, wanted) + [id] else Having(order, wanted)
    {
      assert (order + [id])[..|order|] == order;
    }

    lemma ListsOneMore(ids: seq<string>, id: string)
      ensures id in feed ==> Upserts(ids + [id]) == Upserts(ids) + [UpsertFor(id)]
      ensures id in feed ==> Products(ids + [id]) == Products(ids) + [feed[id]]
      ensures id in stored ==> Pks(ids + [id]) == Pks(ids) + [stored[id].pk]
    {
      assert (ids + [id])[..|ids|] == ids;
    }
  }

  ghost predicate Enumerates(s: seq<string>, ids: set<string>) {
    Distinct(s) && forall id :: id in s <==> id in ids
  }

  /** The action lists of `delta` are those of `products` against `stored`. The stored rows are
      read from an unordered dictionary, so only the order of the removals is free. */
  ghost predicate Decides(delta: StagingDelta, products: seq<Json>, stored: map<string, Row>, configHash: Digest) {
    var c := Comparison(FirstById(products), stored, configHash);
    && c.Lists(delta, IdOrder(products))
    && exists gone :: c.Removes(delta, gone)
  }

  /** `delta` is the classification of `products` against `stored`: its lists and its counters. */
  ghost predicate Classifies(delta: StagingDelta, products: seq<Json>, stored: map<string, Row>, configHash: Digest) {
    && Decides(delta, products, stored, configHash)
    && Comparison(FirstById(products), stored, configHash).Counted(delta.counts, IdOrder(products), |products|)
  }

  /** `e` is `d` with the product of `id` entered under its verdict, and under no other. */
  ghost predicate Entered(c: Comparison, d: StagingDelta, e: StagingDelta, id: string)
    requires id in c.feed
  {
    var v := c.Verdict(id);
    && e.upserts == (if v in WRITTEN then d.upserts + [c.UpsertFor(id)] else d.upserts)
    && e.enqueue == (if v in ENQUEUED then d.enqueue + [c.feed[id]] else d.enqueue)
    && e.reactivations == (if v == ReactivatedSame then d.reactivations + [c.stored[id].pk] else d.reactivations)
    && e.touches == (if v == Unchanged then d.touches + [c.stored[id].pk] else d.touches)
    && e.removals == d.removals
    && e.counts == d.counts.(
      added := d.counts.added + (if v == New then 1 else 0),
      changed := d.counts.changed + (if v == Changed then 1 else 0),
      same := d.counts.same + (if v == Unchanged then 1 else 0),
      reactivated := d.counts.reactivated + (if v in REACTIVATED then 1 else 0))
  }

  lemma EnteredExtendsLists(c: Comparison, d: StagingDelta, e: StagingDelta, order: seq<string>, id: string, n: nat)
    requires id in c.feed && c.Lists(d, order) && c.Counted(d.counts, order, n) && Entered(c, d, e, id)
    ensures c.Lists(e, order + [id]) && c.Counted(e.counts, order + [id], n + 1)
  {
    c.HavingOneMore(order, id, WRITTEN);
    c.HavingOneMore(order, id, ENQUEUED);
    c.HavingOneMore(order, id, REACTIVATED);
    c.HavingOneMore(order, id, {ReactivatedSame});
    c.HavingOneMore(order, id, {Unchanged});
    c.HavingOneMore(order, id, {Changed});
    c.HavingOneMore(order, id, {New});
    c.ListsOneMore(c.Having(order, WRITTEN), id);
    c.ListsOneMore(c.Having(order, ENQUEUED), id);
    c.ListsOneMore(c.Having(order, {ReactivatedSame}), id);
    c.ListsOneMore(c.Having(order, {Unchanged}), id);
  }

  /** The branches of `classify` for one accepted product. */
  method Enter(
      delta: StagingDelta, id: string, product: Json, stored: map<string, Row>, configHash: Digest, ghost c: Comparison)
    returns (r: StagingDelta)
    requires c.stored == stored && c.configHash == configHash && id in c.feed && c.feed[id] == product
    ensures Entered(c, delta, r, id)
  {
    var ch := ContentHash(product);
    r := delta;
    if id !in stored {
      r := r.(
        upserts := r.upserts + [Upsert(id, product, ch, configHash, true, true, None)],
        enqueue := r.enqueue + [product],
        counts := r.counts.(added := r.counts.added + 1));
      return;
    }
    var row := stored[id];
    if row.status == Active {
      if ch != row.contentHash || configHash != row.configHash {
        r := r.(
          upserts := r.upserts + [Upsert(id, product, ch, configHash, false, ch != row.contentHash, Some(row.pk))],
          enqueue := r.enqueue + [product],
          counts := r.counts.(changed := r.counts.changed + 1));
      } else {
        r := r.(touches := r.touches + [row.pk], counts := r.counts.(same := r.counts.same + 1));
      }
    } else {
      var contentChanged := ch != row.contentHash;
      if contentChanged || configHash != row.configHash {
        r := r.(
          upserts := r.upserts + [Upsert(id, product, ch, configHash, false, contentChanged, Some(row.pk))]);
      } else {
        r := r.(reactivations := r.reactivations + [row.pk]);
      }
      r := r.(enqueue := r.enqueue + [product], counts := r.counts.(reactivated := r.counts.reactivated + 1));
    }
  }

  /** The state of the loop over `products` once the first `n` of them are classified. */
  ghost predicate Progress(
    c: Comparison, products: seq<Json>, n: nat, seen: set<string>, delta: StagingDelta)
    requires n <= |products|
  {
    var done := products[..n];
    && seen == FirstById(done).Keys
    && c.Lists(delta, IdOrder(done))
    && c.Counted(delta.counts, IdOrder(done), n)
    && delta.removals == [] && delta.counts.removed == 0
  }

  ghost predicate Rejected(d: StagingDelta, e: StagingDelta) {
    e == d.(counts := d.counts.(failed := d.counts.failed + 1))
  }

  lemma AcceptedIsInFeed(products: seq<Json>, n: nat)
    requires n < |products| && ProductId(products[n]).Some?
    requires ProductId(products[n]).value !in FirstById(products[..n])
    ensures
      var id := ProductId(products[n]).value;
      id in FirstById(products) && FirstById(products)[id] == products[n]
  {
    OrderOneMore(products[..n], products[n]);
    assert products[..n + 1] == products[..n] + [products[n]];
    FirstByIdGrows(products, n + 1);
  }

  lemma ProgressPastRejected(
    c: Comparison, products: seq<Json>, n: nat, seen: set<string>, d: StagingDelta, e: StagingDelta)
    requires n < |products| && Progress(c, products, n, seen, d) && Rejected(d, e)
    requires ProductId(products[n]).None? || ProductId(products[n]).value in seen
    ensures Progress(c, products, n + 1, seen, e)
  {
    OrderOneMore(products[..n], products[n]);
    assert products[..n + 1] == products[..n] + [products[n]];
  }

  lemma ProgressPastEntered(
    c: Comparison, products: seq<Json>, n: nat, seen: set<string>, d: StagingDelta, e: StagingDelta, id: string)
    requires n < |products| && Progress(c, products, n, seen, d)
    requires ProductId(products[n]) == Some(id) && id !in seen && id in c.feed
    requires Entered(c, d, e, id)
    ensures Progress(c, products, n + 1, seen + {id}, e)
  {
    hide Comparison.Lists, Comparison.Counted, FirstById, IdOrder;
    var done, longer := products[..n], products[..n + 1];
    OrderOneMore(done, products[n]);
    assert longer == done + [products[n]];
    assert IdOrder(longer) == IdOrder(done) + [id];
    assert FirstById(longer).Keys == seen + {id};
    EnteredExtendsLists(c, d, e, IdOrder(done), id, n);
  }

  method Classify(products: seq<Json>, stored: map<string, Row>, configHash: Digest) returns (delta: StagingDelta)
    ensures Classifies(delta, products, stored, configHash)
  {
    delta := StagingDelta([], [], [], [], [], Counts(0, 0, 0, 0, 0, 0));
    var seen: set<string> := {};
    ghost var c := Comparison(FirstById(products), stored, configHash);

    for i := 0 to |products|
      invariant Progress(c, products, i, seen, delta)
    {
      ghost var before := delta;
      var pid := ProductId(products[i]);
      if pid.None? || pid.value in seen {
        delta := delta.(counts := delta.counts.(failed := delta.counts.failed + 1));
        ProgressPastRejected(c, products, i, seen, before, delta);
      } else {
        AcceptedIsInFeed(products, i);
        delta := Enter(delta, pid.value, products[i], stored, configHash, c);
        ProgressPastEntered(c, products, i, seen, before, delta, pid.value);
        seen := seen + {pid.value};
      }
    }
    assert products[..|products|] == products;
    delta := EnterRemovals(delta, stored, seen, c);
  }

  method EnterRemovals(delta: StagingDelta, stored: map<string, Row>, seen: set<string>, ghost c: Comparison)
    returns (r: StagingDelta)
    requires c.stored == stored && seen == c.feed.Keys
    requires delta.removals == [] && delta.counts.removed == 0
    ensures r == delta.(removals := r.removals, counts := delta.counts.(removed := r.counts.removed))
    ensures exists gone :: c.Removes(r, gone)
  {
    r := delta;
    var rest := stored.Keys;
    ghost var gone: seq<string> := [];
    while rest != {}
      invariant rest <= stored.Keys
      invariant Distinct(gone)
      invariant forall id :: id in gone <==> id in c.Vanished() && id !in rest
      invariant r == delta.(removals := c.Pks(gone), counts := delta.counts.(removed := |gone|))
      decreases |rest|
    {
      var id :| id in rest;
      rest := rest - {id};
      var row := stored[id];
      if id !in seen && row.status == Active {
        r := r.(removals := r.removals + [row.pk], counts := r.counts.(removed := r.counts.removed + 1));
        c.ListsOneMore(gone, id);
        gone := gone + [id];
      }
    }
    assert c.Removes(r, gone);
  }
}
