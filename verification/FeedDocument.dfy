/** Whole feeds: products in id order, written to a document, read back, written again. */
module FeedDocument {
  import opened AttributeKinds
  import opened Hashing
  import opened Ordering
  import opened FeedXml
  import opened RoundTrip
  import opened Rerender
  import opened Shrinking
  import opened Wrappers

  datatype Channel = Channel(title: string, link: string, description: string)

  datatype Document = Document(channel: Channel, items: seq<seq<Element>>)

  // ----- Id order -----

  /** The sort key: Python's `str` of the id, "" without one. */
  function IdText(r: Renderer, p: Product): string {
    if "id" in p then r.Text(p["id"]) else ""
  }

  function Insert(r: Renderer, s: seq<Product>, p: Product): seq<Product> {
    if s == [] then [p]
    else
      var last := s[|s| - 1];
      if Before(IdText(r, p), IdText(r, last)) then Insert(r, s[..|s| - 1], p) + [last] else s + [p]
  }

  /** Python's `sorted`, which is stable. */
  function SortById(r: Renderer, ps: seq<Product>): seq<Product> {
    if ps == [] then [] else Insert(r, SortById(r, ps[..|ps| - 1]), ps[|ps| - 1])
  }

  ghost predicate ById(r: Renderer, s: seq<Product>) {
    forall i, j :: 0 <= i < j < |s| ==> !Before(IdText(r, s[j]), IdText(r, s[i]))
  }

  /** The products with one key, in order. */
  function WithId(r: Renderer, s: seq<Product>, id: string): seq<Product> {
    if s == [] then []
    else
      var last := s[|s| - 1];
      WithId(r, s[..|s| - 1], id) + (if IdText(r, last) == id then [last] else [])
  }

  lemma WithIdOneMore(r: Renderer, s: seq<Product>, p: Product, id: string)
    ensures WithId(r, s + [p], id) == WithId(r, s, id) + (if IdText(r, p) == id then [p] else [])
  {
    assert (s + [p])[..|s|] == s;
  }

  lemma ByIdOneMore(r: Renderer, s: seq<Product>, p: Product)
    ensures ById(r, s + [p]) <==> ById(r, s) && forall i :: 0 <= i < |s| ==> !Before(IdText(r, p), IdText(r, s[i]))
  {
    hide Before, IdText;
    var longer := s + [p];
    assert longer[|s|] == p && forall i :: 0 <= i < |s| ==> longer[i] == s[i];
    if ById(r, longer) {
      forall i | 0 <= i < |s| ensures !Before(IdText(r, p), IdText(r, s[i])) {
        assert !Before(IdText(r, longer[|s|]), IdText(r, longer[i]));
      }
      forall i, j | 0 <= i < j < |s| ensures !Before(IdText(r, s[j]), IdText(r, s[i])) {
        assert !Before(IdText(r, longer[j]), IdText(r, longer[i]));
      }
    }
  }

  lemma {:induction false} InsertSorts(r: Renderer, s: seq<Product>, p: Product)
    requires ById(r, s)
    ensures ById(r, Insert(r, s, p)) && multiset(Insert(r, s, p)) == multiset(s) + multiset{p}
  {
    hide Before, IdText;
    if s == [] {
    } else {
      var rest, last := s[..|s| - 1], s[|s| - 1];
      assert s == rest + [last];
      ByIdOneMore(r, rest, last);
      if Before(IdText(r, p), IdText(r, last)) {
        InsertSorts(r, rest, p);
        InsertBelow(r, rest, p, last);
        ByIdOneMore(r, Insert(r, rest, p), last);
      } else {
        forall i | 0 <= i < |s| ensures !Before(IdText(r, p), IdText(r, s[i])) {
          if i < |s| - 1 { NotBeforeIsTransitive(IdText(r, s[i]), IdText(r, last), IdText(r, p)); }
        }
        ByIdOneMore(r, s, p);
      }
    }
  }

  lemma InsertBelow(r: Renderer, rest: seq<Product>, p: Product, last: Product)
    requires multiset(Insert(r, rest, p)) == multiset(rest) + multiset{p}
    requires Before(IdText(r, p), IdText(r, last))
    requires forall i :: 0 <= i < |rest| ==> !Before(IdText(r, last), IdText(r, rest[i]))
    ensures forall i :: 0 <= i < |Insert(r, rest, p)| ==> !Before(IdText(r, last), IdText(r, Insert(r, rest, p)[i]))
  {
    hide Before, IdText, Insert;
    var s := Insert(r, rest, p);
    BeforeIsTotal(IdText(r, p), IdText(r, last));
    forall i | 0 <= i < |s| ensures !Before(IdText(r, last), IdText(r, s[i])) {
      assert s[i] in multiset(s);
      assert s[i] in multiset(rest) || s[i] == p;
    }
  }

  lemma {:induction false} InsertIsStable(r: Renderer, s: seq<Product>, p: Product, id: string)
    requires ById(r, s)
    ensures WithId(r, Insert(r, s, p), id) == WithId(r, s, id) + (if IdText(r, p) == id then [p] else [])
  {
    hide Before, IdText;
    if s != [] {
      var rest, last := s[..|s| - 1], s[|s| - 1];
      assert s == rest + [last];
      if Before(IdText(r, p), IdText(r, last)) {
        InsertIsStable(r, rest, p, id);
        WithIdOneMore(r, Insert(r, rest, p), last, id);
        BeforeIsTotal(IdText(r, p), IdText(r, last));
      } else {
        WithIdOneMore(r, s, p, id);
      }
    } else {
      WithIdOneMore(r, [], p, id);
      assert [] + [p] == [p];
    }
  }

  /** Sorting orders the products by id, keeps every one of them, and keeps the order of those
      with the same id. */
  lemma {:induction false} SortSorts(r: Renderer, ps: seq<Product>)
    ensures ById(r, SortById(r, ps)) && multiset(SortById(r, ps)) == multiset(ps)
    ensures forall id :: WithId(r, SortById(r, ps), id) == WithId(r, ps, id)
  {
    if ps != [] {
      var rest, last := ps[..|ps| - 1], ps[|ps| - 1];
      assert ps == rest + [last];
      SortSorts(r, rest);
      InsertSorts(r, SortById(r, rest), last);
      forall id ensures WithId(r, SortById(r, ps), id) == WithId(r, ps, id) {
        InsertIsStable(r, SortById(r, rest), last, id);
      }
    }
  }

  /** What is in order already stays as it is. */
  lemma {:induction false} SortKeepsSorted(r: Renderer, s: seq<Product>)
    requires ById(r, s)
    ensures SortById(r, s) == s
  {
    if s != [] {
      var rest, last := s[..|s| - 1], s[|s| - 1];
      assert s == rest + [last];
      SortKeepsSorted(r, rest);
    }
  }

  lemma SortKeepsMembers(r: Renderer, ps: seq<Product>)
    ensures forall p :: p in SortById(r, ps) <==> p in ps
    ensures |SortById(r, ps)| == |ps|
  {
    SortSorts(r, ps);
    assert |multiset(SortById(r, ps))| == |multiset(ps)|;
    forall p ensures p in SortById(r, ps) <==> p in ps {
      assert p in multiset(SortById(r, ps)) <==> p in multiset(ps);
    }
  }

  // ----- Writing and reading a feed -----

  function RenderItems(r: Renderer, ps: seq<Product>): Option<seq<seq<Element>>> {
    if ps == [] then Some([])
    else
      var before, last := RenderItems(r, ps[..|ps| - 1]), r.RenderItem(ps[|ps| - 1]);
      if before.None? || last.None? then None else Some(before.value + [last.value])
  }

  /** `render_feed`; None where it raises. */
  function RenderFeed(r: Renderer, ps: seq<Product>, channel: Channel): Option<Document> {
    var items := RenderItems(r, SortById(r, ps));
    if items.None? then None else Some(Document(channel, items.value))
  }

  function ReadItems(items: seq<seq<Element>>): seq<Product> {
    if items == [] then []
    else
      var last := ParseItem(items[|items| - 1]);
      ReadItems(items[..|items| - 1]) + (if last.Some? then [last.value] else [])
  }

  /** The lines, counted from one, that were rejected. */
  function RowErrors(items: seq<seq<Element>>): seq<nat> {
    if items == [] then []
    else
      RowErrors(items[..|items| - 1]) + (if ParseItem(items[|items| - 1]).None? then [|items|] else [])
  }

  /** The rejected lines are those of the items that cannot be parsed, in order and each once. */
  lemma {:induction false} RowErrorsIff(items: seq<seq<Element>>)
    ensures forall n: nat :: n in RowErrors(items) <==> 1 <= n <= |items| && ParseItem(items[n - 1]).None?
    ensures forall i, j :: 0 <= i < j < |RowErrors(items)| ==> RowErrors(items)[i] < RowErrors(items)[j]
    ensures |ReadItems(items)| + |RowErrors(items)| == |items|
  {
    hide ParseItem;
    if items != [] {
      var before := RowErrors(items[..|items| - 1]);
      RowErrorsIff(items[..|items| - 1]);
      forall i | 0 <= i < |before| ensures before[i] < |items| { assert before[i] in before; }
    }
  }

  lemma {:induction false} RenderItemsAt(r: Renderer, ps: seq<Product>)
    ensures RenderItems(r, ps).Some? <==> forall i :: 0 <= i < |ps| ==> r.RenderItem(ps[i]).Some?
    ensures RenderItems(r, ps).Some? ==>
      && |RenderItems(r, ps).value| == |ps|
      && forall i :: 0 <= i < |ps| ==> r.RenderItem(ps[i]) == Some(RenderItems(r, ps).value[i])
  {
    hide Renderer.RenderItem;
    if ps != [] { RenderItemsAt(r, ps[..|ps| - 1]); }
  }

  lemma {:induction false} ReadItemsAt(items: seq<seq<Element>>)
    requires forall i :: 0 <= i < |items| ==> ParseItem(items[i]).Some?
    ensures |ReadItems(items)| == |items| && RowErrors(items) == []
    ensures forall i :: 0 <= i < |items| ==> ParseItem(items[i]) == Some(ReadItems(items)[i])
  {
    hide ParseItem;
    if items != [] { ReadItemsAt(items[..|items| - 1]); }
  }

  /** A rendered feed is read without a row error, one product per product. */
  lemma RenderedFeedReads(r: Renderer, ps: seq<Product>)
    requires r.Valid() && RenderItems(r, ps).Some?
    ensures
      var items := RenderItems(r, ps).value;
      && RowErrors(items) == [] && |ReadItems(items)| == |items| == |ps|
      && forall i :: 0 <= i < |ps| ==>
        && r.RenderItem(ps[i]) == Some(items[i])
        && ParseItem(items[i]) == Some(ReadItems(items)[i])
  {
    hide ParseItem, Renderer.RenderItem;
    RenderItemsAt(r, ps);
    var items := RenderItems(r, ps).value;
    forall i | 0 <= i < |items| ensures ParseItem(items[i]).Some? { RenderedItemsParse(r, ps[i]); }
    ReadItemsAt(items);
  }

  /** Reading a rendered feed gives the products in id order exactly when every product is clean. */
  lemma FeedReadsBackIff(r: Renderer, ps: seq<Product>, channel: Channel)
    requires r.Valid()
    ensures RenderFeed(r, ps, channel).Some? && ReadItems(RenderFeed(r, ps, channel).value.items) == SortById(r, ps)
      <==> forall p :: p in ps ==> Clean(r, p)
  {
    hide Clean, ParseItem, Renderer.RenderItem, SortById;
    SortKeepsMembers(r, ps);
    SequenceReadsBackIff(r, SortById(r, ps));
  }

  lemma SequenceReadsBackIff(r: Renderer, ps: seq<Product>)
    requires r.Valid()
    ensures RenderItems(r, ps).Some? && ReadItems(RenderItems(r, ps).value) == ps <==>
      forall p :: p in ps ==> Clean(r, p)
  {
    hide Clean, ParseItem, Renderer.RenderItem;
    RenderItemsAt(r, ps);
    forall i | 0 <= i < |ps|
      ensures r.RenderItem(ps[i]).Some? && ParseItem(r.RenderItem(ps[i]).value) == Some(ps[i]) <==> Clean(r, ps[i])
    {
      ReadsBackIff(r, ps[i]);
    }
    if RenderItems(r, ps).Some? {
      RenderedFeedReads(r, ps);
      if ReadItems(RenderItems(r, ps).value) == ps {
        forall p | p in ps ensures Clean(r, p) {
          var i :| 0 <= i < |ps| && ps[i] == p;
          assert Some(RenderItems(r, ps).value[i]) == r.RenderItem(ps[i]);
        }
      }
    }
  }

  // ----- Writing again what was read -----

  /** A registry in which the id is an exported scalar, as the sort and the reader assume. */
  ghost predicate ExportsId(r: Renderer) {
    "id" in r.attributes && r.attributes["id"].exportable && r.attributes["id"].kind.Scalar?
  }

  /** The sort key survives: there is none, or one that is not left out and whose text is trimmed. */
  predicate KeepsId(r: Renderer, p: Product) {
    IdText(r, p) == "" || (!IsEmpty(p["id"]) && Trimmed(IdText(r, p)))
  }

  /** Exactly these ids keep their text when a product is read back. A null id, an empty list or an
      empty dictionary is left out, so it does not, unless its text is empty. */
  lemma IdSurvivesIff(r: Renderer, p: Product)
    requires r.Valid() && ExportsId(r) && r.RenderItem(p).Some?
    ensures ParseItem(r.RenderItem(p).value).Some?
    ensures IdText(r, ParseItem(r.RenderItem(p).value).value) == IdText(r, p) <==> KeepsId(r, p)
  {
    hide ParseItem, Renderer.RenderItem, Trim, Trimmed;
    IdReadsAs(r, p);
    TrimFixes(IdText(r, p));
    TrimShrinks(IdText(r, p));
  }

  /** The text of the id a product is read back with: empty when the id is left out, else trimmed. */
  function ReadId(r: Renderer, p: Product): string {
    if r.Shown(p, "id") then Trim(IdText(r, p)) else ""
  }

  lemma IdReadsAs(r: Renderer, p: Product)
    requires r.Valid() && ExportsId(r) && r.RenderItem(p).Some?
    ensures ParseItem(r.RenderItem(p).value).Some?
    ensures IdText(r, ParseItem(r.RenderItem(p).value).value) == ReadId(r, p)
  {
    hide ParseItem, Renderer.RenderItem, Trim;
    ReadsBackAt(r, p, "id");
    var q := ParseItem(r.RenderItem(p).value).value;
    assert At(q, "id") == Returned(r, p, "id");
    if r.Shown(p, "id") {
      var e := r.ScalarElement("id", p["id"]);
      StripNsOfTag("id");
      ValuesOneMore([], e, "id");
      assert [] + [e] == [e] && Values([], "id") == [];
    }
  }

  /** Sorted by the ids they have, the products are in order by the ids they are read back with. */
  ghost predicate IdsReadInOrder(r: Renderer, ps: seq<Product>) {
    var sorted := SortById(r, ps);
    forall i, j :: 0 <= i < j < |sorted| ==> !Before(ReadId(r, sorted[j]), ReadId(r, sorted[i]))
  }

  /** The products of a rendered feed, as they are read, are still in id order. */
  ghost predicate ReadsInOrder(r: Renderer, ps: seq<Product>, channel: Channel) {
    var doc := RenderFeed(r, ps, channel);
    doc.Some? && ById(r, ReadItems(doc.value.items))
  }

  /** Told from the ids alone. */
  lemma ReadsInOrderIff(r: Renderer, ps: seq<Product>, channel: Channel)
    requires r.Valid() && ExportsId(r) && RenderFeed(r, ps, channel).Some?
    ensures ReadsInOrder(r, ps, channel) <==> IdsReadInOrder(r, ps)
  {
    hide ParseItem, Renderer.RenderItem, SortById, IdText, Before, ReadId;
    var sorted := SortById(r, ps);
    RenderedFeedReads(r, sorted);
    var qs := ReadItems(RenderItems(r, sorted).value);
    forall i | 0 <= i < |sorted| ensures IdText(r, qs[i]) == ReadId(r, sorted[i]) { IdReadsAs(r, sorted[i]); }
  }

  ghost predicate AllSettled(r: Renderer, ps: seq<Product>) {
    forall p :: p in ps ==> SettledItem(r, p)
  }

  /** They are when every id keeps its text. */
  lemma KeptIdsReadInOrder(r: Renderer, ps: seq<Product>, channel: Channel)
    requires r.Valid() && ExportsId(r) && RenderFeed(r, ps, channel).Some?
    requires forall p :: p in ps ==> KeepsId(r, p)
    ensures ReadsInOrder(r, ps, channel)
  {
    hide ParseItem, Renderer.RenderItem, KeepsId, SortById, IdText, Before;
    var sorted := SortById(r, ps);
    SortKeepsMembers(r, ps);
    SortSorts(r, ps);
    RenderedFeedReads(r, sorted);
    var qs := ReadItems(RenderItems(r, sorted).value);
    forall i | 0 <= i < |sorted| ensures IdText(r, qs[i]) == IdText(r, sorted[i]) {
      assert sorted[i] in ps;
      IdSurvivesIff(r, sorted[i]);
    }
  }

  // What reordering keeps: the weight of all items together.

  function ItemWeight(r: Renderer, p: Product): nat {
    if r.RenderItem(p).Some? then Weight(r.RenderItem(p).value) else 0
  }

  function TotalWeight(r: Renderer, ps: seq<Product>): nat {
    if ps == [] then 0 else TotalWeight(r, ps[..|ps| - 1]) + ItemWeight(r, ps[|ps| - 1])
  }

  lemma TotalOneMore(r: Renderer, ps: seq<Product>, p: Product)
    ensures TotalWeight(r, ps + [p]) == TotalWeight(r, ps) + ItemWeight(r, p)
  {
    assert (ps + [p])[..|ps|] == ps;
  }

  lemma {:induction false} InsertKeepsTotal(r: Renderer, s: seq<Product>, p: Product)
    ensures TotalWeight(r, Insert(r, s, p)) == TotalWeight(r, s) + ItemWeight(r, p)
  {
    hide ItemWeight, Before, IdText;
    TotalOneMore(r, s, p);
    if s == [] {
      assert [] + [p] == [p];
    } else if Before(IdText(r, p), IdText(r, s[|s| - 1])) {
      InsertKeepsTotal(r, s[..|s| - 1], p);
      TotalOneMore(r, Insert(r, s[..|s| - 1], p), s[|s| - 1]);
    }
  }

  lemma {:induction false} SortKeepsTotal(r: Renderer, ps: seq<Product>)
    ensures TotalWeight(r, SortById(r, ps)) == TotalWeight(r, ps)
  {
    hide ItemWeight;
    if ps != [] {
      SortKeepsTotal(r, ps[..|ps| - 1]);
      InsertKeepsTotal(r, SortById(r, ps[..|ps| - 1]), ps[|ps| - 1]);
    }
  }

  lemma {:induction false} SameRenderingSameTotal(r: Renderer, ps: seq<Product>, qs: seq<Product>)
    requires |ps| == |qs| && forall i :: 0 <= i < |ps| ==> r.RenderItem(ps[i]) == r.RenderItem(qs[i])
    ensures TotalWeight(r, ps) == TotalWeight(r, qs)
  {
    hide Renderer.RenderItem, Weight;
    if ps != [] { SameRenderingSameTotal(r, ps[..|ps| - 1], qs[..|qs| - 1]); }
  }

  /** Reading every product makes them lighter together unless all of them are settled. */
  lemma {:induction false} TotalShrinks(r: Renderer, ps: seq<Product>, qs: seq<Product>)
    requires r.Valid() && |ps| == |qs|
    requires forall i :: 0 <= i < |ps| ==>
      r.RenderItem(ps[i]).Some? && ParseItem(r.RenderItem(ps[i]).value) == Some(qs[i])
    ensures TotalWeight(r, qs) <= TotalWeight(r, ps)
    ensures TotalWeight(r, qs) == TotalWeight(r, ps) ==> forall p :: p in ps ==> SettledItem(r, p)
  {
    hide Renderer.RenderItem, ParseItem, Weight, SettledItem;
    if ps != [] {
      var rest, last := ps[..|ps| - 1], ps[|ps| - 1];
      assert ps == rest + [last];
      TotalShrinks(r, rest, qs[..|qs| - 1]);
      ItemShrinks(r, last);
      ItemAgainIff(r, last);
    }
  }

  /** Reading a rendered feed and rendering it under the same channel never raises, and gives the
      same document exactly when every product is settled and the products are read in order. */
  lemma FeedAgainIff(r: Renderer, ps: seq<Product>, channel: Channel)
    requires r.Valid() && RenderFeed(r, ps, channel).Some?
    ensures
      var doc := RenderFeed(r, ps, channel).value;
      var again := RenderFeed(r, ReadItems(doc.items), channel);
      again.Some? && (again.value == doc <==> AllSettled(r, ps) && ReadsInOrder(r, ps, channel))
  {
    hide ParseItem, Renderer.RenderItem, SettledItem, SortById, ById;
    var sorted := SortById(r, ps);
    SortKeepsMembers(r, ps);
    RenderedFeedReads(r, sorted);
    var items := RenderItems(r, sorted).value;
    var qs := ReadItems(items);
    forall i | 0 <= i < |sorted|
      ensures r.RenderItem(qs[i]).Some?
      ensures r.RenderItem(qs[i]) == r.RenderItem(sorted[i]) <==> SettledItem(r, sorted[i])
    {
      ItemAgainIff(r, sorted[i]);
    }
    var t := SortById(r, qs);
    SortKeepsMembers(r, qs);
    forall i | 0 <= i < |qs| ensures r.RenderItem(t[i]).Some? { assert t[i] in qs; }
    RenderItemsAt(r, t);
    RenderItemsAt(r, qs);
    SameItemsIff(r, sorted, items, RenderItems(r, qs).value, qs);
    if ById(r, qs) {
      SortKeepsSorted(r, qs);
    } else if RenderItems(r, t) == Some(items) {
      SameDocumentIsSettled(r, sorted, items, qs);
      SameItemsSameOrder(r, items, qs);
    }
  }

  lemma SameDocumentIsSettled(r: Renderer, sorted: seq<Product>, items: seq<seq<Element>>, qs: seq<Product>)
    requires r.Valid() && |sorted| == |items| == |qs| && RenderItems(r, SortById(r, qs)) == Some(items)
    requires forall i :: 0 <= i < |sorted| ==>
      r.RenderItem(sorted[i]) == Some(items[i]) && ParseItem(items[i]) == Some(qs[i])
    ensures forall i :: 0 <= i < |qs| ==> r.RenderItem(qs[i]) == Some(items[i])
  {
    hide ParseItem, Renderer.RenderItem, SettledItem, SortById;
    var t := SortById(r, qs);
    SortKeepsMembers(r, qs);
    RenderItemsAt(r, t);
    SameRenderingSameTotal(r, t, sorted);
    SortKeepsTotal(r, qs);
    TotalShrinks(r, sorted, qs);
    forall i | 0 <= i < |qs| ensures r.RenderItem(qs[i]) == Some(items[i]) {
      assert sorted[i] in sorted;
      ItemAgainIff(r, sorted[i]);
    }
  }

  /** Products that render alike were read alike, so another order of different ones shows. */
  lemma SameItemsSameOrder(r: Renderer, items: seq<seq<Element>>, qs: seq<Product>)
    requires |qs| == |items| && RenderItems(r, SortById(r, qs)) == Some(items)
    requires forall i :: 0 <= i < |qs| ==> r.RenderItem(qs[i]) == Some(items[i]) && ParseItem(items[i]) == Some(qs[i])
    ensures ById(r, qs)
  {
    hide ParseItem, Renderer.RenderItem, SortById, ById;
    var t := SortById(r, qs);
    SortKeepsMembers(r, qs);
    SortSorts(r, qs);
    RenderItemsAt(r, t);
    forall k | 0 <= k < |t| ensures t[k] == qs[k] {
      assert t[k] in qs;
      var j :| 0 <= j < |qs| && qs[j] == t[k];
      assert r.RenderItem(qs[j]) == Some(items[k]);
    }
    assert t == qs;
  }

  lemma SameItemsIff(
    r: Renderer, sorted: seq<Product>, items: seq<seq<Element>>, rebuilt: seq<seq<Element>>, qs: seq<Product>)
    requires |sorted| == |items| == |rebuilt| == |qs|
    requires forall i :: 0 <= i < |sorted| ==>
      && r.RenderItem(sorted[i]) == Some(items[i]) && r.RenderItem(qs[i]) == Some(rebuilt[i])
      && (r.RenderItem(qs[i]) == r.RenderItem(sorted[i]) <==> SettledItem(r, sorted[i]))
    ensures rebuilt == items <==> forall p :: p in sorted ==> SettledItem(r, p)
  {
    hide Renderer.RenderItem, SettledItem;
    if rebuilt == items {
      forall p | p in sorted ensures SettledItem(r, p) {
        var i :| 0 <= i < |sorted| && sorted[i] == p;
        assert rebuilt[i] == items[i];
      }
    }
    if forall p :: p in sorted ==> SettledItem(r, p) {
      forall i | 0 <= i < |sorted| ensures rebuilt[i] == items[i] {
        assert sorted[i] in sorted;
      }
    }
  }

  /** Clean products are settled. */
  lemma CleanIsSettled(r: Renderer, p: Product)
    requires r.Valid() && Clean(r, p)
    ensures SettledItem(r, p)
  {
    hide Clean, ParseItem, Renderer.RenderItem, SettledItem;
    ReadsBackIff(r, p);
    ItemAgainIff(r, p);
  }

  lemma SortTwo(r: Renderer, a: Product, b: Product)
    ensures SortById(r, [a, b]) == if Before(IdText(r, b), IdText(r, a)) then [b, a] else [a, b]
  {
    hide Before, IdText;
    assert [a, b][..1] == [a] && [a][..0] == [] && SortById(r, [a]) == [a];
    assert Insert(r, [], b) == [b];
  }

  lemma RenderTwo(r: Renderer, a: Product, b: Product)
    ensures RenderItems(r, [a, b]) ==
      if r.RenderItem(a).Some? && r.RenderItem(b).Some?
      then Some([r.RenderItem(a).value, r.RenderItem(b).value])
      else None
  {
    hide Renderer.RenderItem;
    RenderOneMore(r, [], a);
    RenderOneMore(r, [a], b);
    assert [] + [a] == [a] && [a] + [b] == [a, b] && RenderItems(r, []) == Some([]);
    if r.RenderItem(a).Some? && r.RenderItem(b).Some? {
      var x, y := r.RenderItem(a).value, r.RenderItem(b).value;
      assert [] + [x] == [x] && [x] + [y] == [x, y];
    }
  }

  lemma RenderOneMore(r: Renderer, ps: seq<Product>, p: Product)
    ensures RenderItems(r, ps + [p]) ==
      if RenderItems(r, ps).Some? && r.RenderItem(p).Some?
      then Some(RenderItems(r, ps).value + [r.RenderItem(p).value])
      else None
  {
    hide Renderer.RenderItem;
    assert (ps + [p])[..|ps|] == ps;
  }

  lemma ReadTwo(x: seq<Element>, y: seq<Element>)
    requires ParseItem(x).Some? && ParseItem(y).Some?
    ensures ReadItems([x, y]) == [ParseItem(x).value, ParseItem(y).value]
  {
    hide ParseItem;
    assert [x, y][..1] == [x] && [x][..0] == [] && ReadItems([x]) == [ParseItem(x).value];
  }

  /** The sort key matters: a product whose id is null is sorted as the text of null, is read back
      without an id, and then comes first, so the document changes although every product is
      settled. */
  lemma NullIdMoves(r: Renderer, a: Product, b: Product, channel: Channel)
    requires r.Valid() && ExportsId(r) && r.RenderItem(a).Some? && r.RenderItem(b).Some?
    requires SettledItem(r, a) && SettledItem(r, b)
    requires KeepsId(r, a) && IdText(r, a) != "" && Before(IdText(r, a), r.show(Null))
    requires "id" in b && b["id"] == Null
    ensures
      var doc := RenderFeed(r, [a, b], channel);
      doc.Some? && RenderFeed(r, ReadItems(doc.value.items), channel) != doc
  {
    hide Renderer.RenderItem, ParseItem, SettledItem, SortById, RenderItems, ReadItems;
    BeforeIsTotal(IdText(r, a), r.show(Null));
    SortTwo(r, a, b);
    RenderTwo(r, a, b);
    ItemAgainIff(r, a);
    ItemAgainIff(r, b);
    var x, y := r.RenderItem(a).value, r.RenderItem(b).value;
    ReadTwo(x, y);
    IdSurvivesIff(r, a);
    ReadsBackAt(r, b, "id");
    assert At(ParseItem(y).value, "id") == Returned(r, b, "id") == None;
    FeedAgainIff(r, [a, b], channel);
    var qs := ReadItems([x, y]);
    assert RenderFeed(r, [a, b], channel) == Some(Document(channel, [x, y]));
    assert Before(IdText(r, qs[1]), IdText(r, qs[0]));
    assert !ById(r, qs) && !ReadsInOrder(r, [a, b], channel);
    forall p | p in [a, b] ensures SettledItem(r, p) {}
  }

  /** A registry whose only attribute is the id. */
  function IdRenderer(): Renderer {
    Renderer(["id"], map["id" := Attribute(Scalar, [], true)], v => "None", fields => [])
  }

  /** Two such products. */
  lemma NullIdWitness(channel: Channel)
    ensures
      var doc := RenderFeed(IdRenderer(), [map["id" := Str("A")], map["id" := Null]], channel);
      doc.Some? && RenderFeed(IdRenderer(), ReadItems(doc.value.items), channel) != doc
  {
    hide RenderFeed, ReadItems, SettledItem;
    var r := IdRenderer();
    var a, b: Product := map["id" := Str("A")], map["id" := Null];
    assert r.order[..0] == [];
    assert r.RenderItem(a).Some? && r.RenderItem(b).Some?;
    WitnessIsSettled(r, a);
    WitnessIsSettled(r, b);
    NullIdMoves(r, a, b, channel);
  }

  lemma WitnessIsSettled(r: Renderer, p: Product)
    requires r == Renderer(["id"], map["id" := Attribute(Scalar, [], true)], r.show, r.keys)
    requires "id" in p && (p["id"] == Str("A") || p["id"] == Null)
    ensures SettledItem(r, p)
  {
  }
}
