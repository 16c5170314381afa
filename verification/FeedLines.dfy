/** Reading a rendered feed through a parser that normalizes line ends, and rendering it again. */
module FeedLines {
  import opened FeedXml
  import opened Rerender
  import opened Shrinking
  import opened LineEnds
  import opened FeedDocument
  import opened Wrappers

  function NormalizedItems(items: seq<seq<Element>>): seq<seq<Element>> {
    seq(|items|, i requires 0 <= i < |items| => NormalizedAll(items[i]))
  }

  predicate NoReturnsIn(items: seq<seq<Element>>) {
    forall i :: 0 <= i < |items| ==> NoReturns(items[i])
  }

  lemma NormalizedItemsIff(items: seq<seq<Element>>)
    ensures NormalizedItems(items) == items <==> NoReturnsIn(items)
    ensures NoReturnsIn(NormalizedItems(items))
  {
    hide NormalizedAll, NoReturns;
    forall i | 0 <= i < |items|
      ensures NormalizedAll(items[i]) == items[i] <==> NoReturns(items[i])
      ensures NoReturns(NormalizedAll(items[i]))
    {
      NormalizedIff(items[i]);
    }
    if NormalizedItems(items) == items {
      forall i | 0 <= i < |items| ensures NoReturns(items[i]) { assert NormalizedItems(items)[i] == items[i]; }
    }
  }

  function NormalProducts(r: Renderer, ps: seq<Product>): seq<Product> {
    seq(|ps|, i requires 0 <= i < |ps| => NormalProduct(r, ps[i]))
  }

  /** What the parser reports of rendered items is read without a row error, and rendering what is
      read never raises. */
  lemma NormalizedItemsRead(r: Renderer, ps: seq<Product>, items: seq<seq<Element>>)
    requires r.Valid() && Prints(r) && RenderItems(r, ps) == Some(items)
    ensures |items| == |ps| && |ReadItems(NormalizedItems(items))| == |ps|
    ensures forall i :: 0 <= i < |ps| ==>
      && r.RenderItem(ps[i]) == Some(items[i])
      && r.RenderItem(NormalProducts(r, ps)[i]) == Some(NormalizedItems(items)[i])
      && ParseItem(NormalizedItems(items)[i]) == Some(ReadItems(NormalizedItems(items))[i])
      && r.RenderItem(ReadItems(NormalizedItems(items))[i]).Some?
  {
    hide Renderer.RenderItem, ParseItem, NormalProduct, NormalizedAll;
    RenderItemsAt(r, ps);
    forall i | 0 <= i < |ps|
      ensures r.RenderItem(NormalProducts(r, ps)[i]) == Some(NormalizedItems(items)[i])
      ensures ParseItem(NormalizedItems(items)[i]).Some?
      ensures r.RenderItem(ParseItem(NormalizedItems(items)[i]).value).Some?
    {
      ItemNormalizes(r, ps[i]);
      ItemAgainIff(r, NormalProduct(r, ps[i]));
    }
    ReadItemsAt(NormalizedItems(items));
  }

  lemma {:induction false} ReportedIsLighter(r: Renderer, ps: seq<Product>, qs: seq<Product>)
    requires |ps| == |qs|
    requires forall i :: 0 <= i < |ps| ==>
      && r.RenderItem(ps[i]).Some? && r.RenderItem(qs[i]).Some?
      && r.RenderItem(ps[i]).value == NormalizedAll(r.RenderItem(qs[i]).value)
    ensures TotalWeight(r, ps) <= TotalWeight(r, qs)
  {
    hide Renderer.RenderItem, Weight, NormalizedAll;
    if ps != [] {
      ReportedIsLighter(r, ps[..|ps| - 1], qs[..|qs| - 1]);
      NormalizingLightens(r.RenderItem(qs[|qs| - 1]).value);
    }
  }

  /** A feed rendered again that the parser reports like the first one is what it reported of it. */
  lemma SameReportSameItems(r: Renderer, ps: seq<Product>, items: seq<seq<Element>>, again: seq<seq<Element>>)
    requires r.Valid() && Prints(r) && RenderItems(r, ps) == Some(items)
    requires RenderItems(r, SortById(r, ReadItems(NormalizedItems(items)))) == Some(again)
    requires NormalizedItems(again) == NormalizedItems(items)
    ensures again == NormalizedItems(items)
  {
    hide Renderer.RenderItem, ParseItem, NormalizedAll, NoReturns, SortById, SettledItem, Prints, NormalProduct;
    hide TotalWeight, RenderItems, ReadItems;
    var normals, reported := NormalProducts(r, ps), NormalizedItems(items);
    var qs := ReadItems(reported);
    var t := SortById(r, qs);
    NormalizedItemsRead(r, ps, items);
    SortKeepsMembers(r, qs);
    RenderItemsAt(r, t);
    SortKeepsTotal(r, qs);
    forall k | 0 <= k < |t|
      ensures r.RenderItem(normals[k]).value == NormalizedAll(r.RenderItem(t[k]).value)
    {
      assert NormalizedItems(again)[k] == reported[k];
    }
    ReportedIsLighter(r, normals, t);
    TotalShrinks(r, normals, qs);
    SettledReadBack(r, normals, reported, qs);
    NormalizedItemsIff(items);
    forall k | 0 <= k < |again| ensures again[k] == reported[k] {
      assert t[k] in qs;
      var j :| 0 <= j < |qs| && qs[j] == t[k];
      assert again[k] == reported[j];
      NormalizedIff(again[k]);
      assert NormalizedItems(again)[k] == reported[k];
    }
  }

  lemma SettledReadBack(r: Renderer, ps: seq<Product>, items: seq<seq<Element>>, qs: seq<Product>)
    requires r.Valid() && |ps| == |items| == |qs|
    requires forall i :: 0 <= i < |ps| ==>
      && r.RenderItem(ps[i]) == Some(items[i]) && ParseItem(items[i]) == Some(qs[i])
      && SettledItem(r, ps[i])
    ensures forall i :: 0 <= i < |qs| ==> r.RenderItem(qs[i]) == Some(items[i])
  {
    hide Renderer.RenderItem, ParseItem, SettledItem;
    forall i | 0 <= i < |qs| ensures r.RenderItem(qs[i]) == Some(items[i]) { ItemAgainIff(r, ps[i]); }
  }

  /** Reading a rendered feed through such a parser and rendering it never raises, and gives the
      same document exactly when no text holds a carriage return, every product is settled and the
      products are read in id order. */
  lemma ReportedFeedAgainIff(r: Renderer, ps: seq<Product>, channel: Channel)
    requires r.Valid() && Prints(r) && RenderFeed(r, ps, channel).Some?
    ensures
      var doc := RenderFeed(r, ps, channel).value;
      var again := RenderFeed(r, ReadItems(NormalizedItems(doc.items)), channel);
      && again.Some?
      && (again.value == doc <==> NoReturnsIn(doc.items) && AllSettled(r, ps) && ReadsInOrder(r, ps, channel))
      && (NormalizedItems(again.value.items) == NormalizedItems(doc.items) ==>
        again.value.items == NormalizedItems(doc.items))
  {
    hide Renderer.RenderItem, ParseItem, NormalizedAll, NoReturns, SortById, AllSettled, ReadsInOrder, Prints;
    var sorted := SortById(r, ps);
    var items := RenderItems(r, sorted).value;
    NormalizedItemsRead(r, sorted, items);
    var qs := ReadItems(NormalizedItems(items));
    SortKeepsMembers(r, qs);
    forall i | 0 <= i < |qs| ensures r.RenderItem(SortById(r, qs)[i]).Some? { assert SortById(r, qs)[i] in qs; }
    RenderItemsAt(r, SortById(r, qs));
    var again := RenderItems(r, SortById(r, qs)).value;
    if NormalizedItems(again) == NormalizedItems(items) { SameReportSameItems(r, sorted, items, again); }
    NormalizedItemsIff(items);
    if NoReturnsIn(items) { FeedAgainIff(r, ps, channel); }
  }
}
