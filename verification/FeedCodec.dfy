/** The loops that write a feed and read one, proved against the functions that specify them. */
module FeedCodec {
  import opened Hashing
  import opened FeedXml
  import opened FeedDocument
  import opened Wrappers

  method StructuredBody(r: Renderer, fields: seq<string>, value: map<string, Json>) returns (parts: seq<Element>)
    ensures parts == r.Body(fields, value)
  {
    parts := [];
    for i := 0 to |fields|
      invariant parts == r.Body(fields[..i], value)
    {
      assert fields[..i + 1][..i] == fields[..i];
      assert parts + [] == parts;
      if fields[i] in value && !IsEmpty(value[fields[i]]) {
        parts := parts + [r.ScalarElement(fields[i], value[fields[i]])];
      }
    }
    assert fields[..|fields|] == fields;
  }

  /** Groups of a repeated attribute; items that are no dictionaries are passed over. */
  method StructuredParts(r: Renderer, name: string, fields: seq<string>, items: seq<Json>) returns (parts: seq<Element>)
    ensures parts == r.StructuredItems(name, fields, items)
  {
    parts := [];
    for i := 0 to |items|
      invariant parts == r.StructuredItems(name, fields, items[..i])
    {
      assert items[..i + 1][..i] == items[..i];
      assert parts + [] == parts;
      if items[i].Obj? && !IsEmpty(items[i]) {
        var body := StructuredBody(r, fields, items[i].fields);
        if body != [] { parts := parts + [Element(Tag(name), "", body)]; }
      }
    }
    assert items[..|items|] == items;
  }

  /** The elements of a repeated scalar; empty items are passed over. */
  method ScalarParts(r: Renderer, name: string, items: seq<Json>) returns (parts: seq<Element>)
    ensures parts == r.ScalarItems(name, items)
  {
    parts := [];
    for i := 0 to |items|
      invariant parts == r.ScalarItems(name, items[..i])
    {
      assert items[..i + 1][..i] == items[..i];
      assert parts + [] == parts;
      if !IsEmpty(items[i]) { parts := parts + [r.ScalarElement(name, items[i])]; }
    }
    assert items[..|items|] == items;
  }

  /** `_render_attribute`, called on values that are not empty; None where it raises. */
  method AttributeParts(r: Renderer, name: string, v: Json) returns (parts: Option<seq<Element>>)
    requires name in r.attributes && !IsEmpty(v)
    ensures parts == r.RenderAttribute(name, v)
  {
    hide Renderer.Body, Renderer.ScalarItems, Renderer.StructuredItems;
    var attribute := r.attributes[name];
    match attribute.kind {
      case Scalar => return Some([r.ScalarElement(name, v)]);
      case Structured =>
        if !v.Obj? { return None; }
        var body := StructuredBody(r, attribute.fields, v.fields);
        return Some(if body == [] then [] else [Element(Tag(name), "", body)]);
      case RepeatedScalar =>
        var items := r.Iterate(v);
        if items.None? { return None; }
        var elements := ScalarParts(r, name, items.value);
        return Some(elements);
      case RepeatedStructured =>
        var items := r.Iterate(v);
        if items.None? { return None; }
        var elements := StructuredParts(r, name, attribute.fields, items.value);
        return Some(elements);
    }
  }

  method RenderProduct(r: Renderer, p: Product) returns (chunks: Option<seq<Element>>)
    requires r.Valid()
    ensures chunks == r.RenderItem(p)
  {
    hide Renderer.RenderAttribute;
    var written: seq<Element> := [];
    for i := 0 to |r.order|
      invariant r.RenderAttributes(p, r.order[..i]) == Some(written)
    {
      var name := r.order[i];
      assert r.order[..i + 1][..i] == r.order[..i];
      if r.Shown(p, name) {
        var elements := AttributeParts(r, name, p[name]);
        if elements.None? {
          StaysRaised(r, p, i + 1);
          return None;
        }
        written := written + elements.value;
      }
    }
    assert r.order[..|r.order|] == r.order;
    chunks := Some(written);
  }

  lemma {:induction false} StaysRaised(r: Renderer, p: Product, n: nat)
    requires n <= |r.order| && r.RenderAttributes(p, r.order[..n]).None?
    ensures r.RenderItem(p).None?
    decreases |r.order| - n
  {
    if n < |r.order| {
      assert r.order[..n + 1][..n] == r.order[..n];
      StaysRaised(r, p, n + 1);
    } else {
      assert r.order[..n] == r.order;
    }
  }

  method WriteFeed(r: Renderer, products: seq<Product>, channel: Channel) returns (feed: Option<Document>)
    requires r.Valid()
    ensures feed == RenderFeed(r, products, channel)
  {
    hide Renderer.RenderItem;
    var sorted := SortById(r, products);
    var items := [];
    RenderItemsAt(r, sorted);
    for i := 0 to |sorted|
      invariant RenderItems(r, sorted[..i]) == Some(items)
    {
      assert sorted[..i + 1][..i] == sorted[..i];
      var item := RenderProduct(r, sorted[i]);
      if item.None? { return None; }
      items := items + [item.value];
    }
    assert sorted[..|sorted|] == sorted;
    feed := Some(Document(channel, items));
  }

  method ReadChildren(children: seq<Element>) returns (result: Product)
    ensures result == ElementToDict(children)
  {
    result := map[];
    for i := 0 to |children|
      invariant result == ElementToDict(children[..i])
    {
      var child := children[i];
      assert children[..i + 1][..i] == children[..i];
      var value: Json;
      if Trim(child.text) != "" && |child.children| == 0 {
        result := Put(result, StripNs(child.tag), Str(Trim(child.text)));
      } else if |child.children| > 0 {
        var inner := ReadChildren(child.children);
        result := Put(result, StripNs(child.tag), Obj(inner));
      }
    }
    assert children[..|children|] == children;
  }

  method ReadProduct(children: seq<Element>) returns (product: Option<Product>)
    ensures product == ParseItem(children)
  {
    var result: Product := map[];
    ParseItemReads(children);
    for i := 0 to |children|
      invariant ParseItem(children[..i]) == Some(result)
    {
      var child := children[i];
      assert children[..i + 1][..i] == children[..i];
      if Trim(child.text) != "" && |child.children| > 0 {
        assert child in children;
        return None;
      }
      if |child.children| > 0 {
        var inner := ReadChildren(child.children);
        result := Put(result, StripNs(child.tag), Obj(inner));
      } else if Trim(child.text) != "" {
        result := Put(result, StripNs(child.tag), Str(Trim(child.text)));
      }
    }
    assert children[..|children|] == children;
    product := Some(result);
  }

  /** The update both readers make: a new key, a second value, or one more. */
  method Put(p: Product, key: string, value: Json) returns (q: Product)
    ensures q == Add(p, key, value)
    ensures forall k :: k in p && k != key ==> k in q && q[k] == p[k]
  {
    q := p;
    if key in q {
      var existing := q[key];
      if existing.Arr? { q := q[key := Arr(existing.items + [value])]; } else { q := q[key := Arr([existing, value])]; }
    } else {
      q := q[key := value];
    }
  }

  method ReadFeed(items: seq<seq<Element>>) returns (products: seq<Product>, errors: seq<nat>)
    ensures products == ReadItems(items) && errors == RowErrors(items)
  {
    products, errors := [], [];
    for i := 0 to |items|
      invariant products == ReadItems(items[..i]) && errors == RowErrors(items[..i])
    {
      assert items[..i + 1][..i] == items[..i];
      assert products + [] == products && errors + [] == errors;
      var product := ReadProduct(items[i]);
      if product.Some? { products := products + [product.value]; } else { errors := errors + [i + 1]; }
    }
    assert items[..|items|] == items;
  }
}
