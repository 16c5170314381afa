/** Which products survive being rendered and read back, and what that makes of rollbacks. */
module RoundTrip {
  import opened Hashing
  import opened FeedXml
  import opened Wrappers

  // ----- Values of one attribute -----

  predicate CleanText(v: Json) {
    v.Str? && Trimmed(v.text)
  }

  predicate CleanItem(v: Json, fields: seq<string>) {
    v.Obj? && v.fields != map[] && forall k :: k in v.fields ==> k in fields && CleanText(v.fields[k])
  }

  /** The values that survive: trimmed, non-blank texts, known sub-fields only, and repeated
      attributes with at least two items. A repeated scalar may also be a bare one-letter text,
      which the renderer takes for a list of its letters. */
  predicate CleanValue(attribute: Attribute, v: Json) {
    match attribute.kind
    case Scalar => CleanText(v)
    case RepeatedScalar =>
      || (v.Arr? && |v.items| >= 2 && forall i :: 0 <= i < |v.items| ==> CleanText(v.items[i]))
      || (CleanText(v) && |v.text| == 1)
    case Structured => CleanItem(v, attribute.fields)
    case RepeatedStructured =>
      v.Arr? && |v.items| >= 2 && forall i :: 0 <= i < |v.items| ==> CleanItem(v.items[i], attribute.fields)
  }

  predicate Clean(r: Renderer, p: Product) {
    forall name :: name in p ==> r.Shown(p, name) && CleanValue(r.attributes[name], p[name])
  }

  // ----- Elements by key -----

  lemma {:induction false} ValuesOfConcat(a: seq<Element>, b: seq<Element>, key: string)
    ensures Values(a + b, key) == Values(a, key) + Values(b, key)
  {
    if b == [] {
      assert a + b == a;
    } else {
      var rest, last := b[..|b| - 1], b[|b| - 1];
      assert (a + b)[..|a + b| - 1] == a + rest;
      ValuesOfConcat(a, rest, key);
    }
  }

  ghost predicate TaggedAll(es: seq<Element>, name: string) {
    forall e :: e in es ==> StripNs(e.tag) == name
  }

  lemma {:induction false} ValuesOfOthers(es: seq<Element>, name: string, key: string)
    requires TaggedAll(es, name) && key != name
    ensures Values(es, key) == []
  {
    if es != [] {
      assert es[|es| - 1] in es;
      ValuesOfOthers(es[..|es| - 1], name, key);
    }
  }

  lemma {:induction false} ScalarItemsTagged(r: Renderer, name: string, items: seq<Json>)
    ensures TaggedAll(r.ScalarItems(name, items), name) && Unmixed(r.ScalarItems(name, items))
  {
    if items != [] {
      ScalarItemsTagged(r, name, items[..|items| - 1]);
      StripNsOfTag(name);
    }
  }

  lemma {:induction false} StructuredItemsTagged(r: Renderer, name: string, fields: seq<string>, items: seq<Json>)
    ensures TaggedAll(r.StructuredItems(name, fields, items), name) && Unmixed(r.StructuredItems(name, fields, items))
  {
    if items != [] {
      StructuredItemsTagged(r, name, fields, items[..|items| - 1]);
      StripNsOfTag(name);
    }
  }

  lemma AttributeTagged(r: Renderer, name: string, v: Json)
    requires name in r.attributes && r.RenderAttribute(name, v).Some?
    ensures TaggedAll(r.RenderAttribute(name, v).value, name) && Unmixed(r.RenderAttribute(name, v).value)
  {
    StripNsOfTag(name);
    match r.attributes[name].kind
    case RepeatedScalar => ScalarItemsTagged(r, name, r.Iterate(v).value);
    case RepeatedStructured => StructuredItemsTagged(r, name, r.attributes[name].fields, r.Iterate(v).value);
    case _ =>
  }

  /** The elements read under one key are those of that attribute, if it is shown. */
  lemma {:induction false} ValuesOfAttributes(r: Renderer, p: Product, names: seq<string>, key: string)
    requires forall i, j :: 0 <= i < j < |names| ==> names[i] != names[j]
    requires r.RenderAttributes(p, names).Some?
    ensures Unmixed(r.RenderAttributes(p, names).value)
    ensures key in names && r.Shown(p, key) ==>
      r.RenderAttribute(key, p[key]).Some?
      && Values(r.RenderAttributes(p, names).value, key) == Values(r.RenderAttribute(key, p[key]).value, key)
    ensures !(key in names && r.Shown(p, key)) ==> Values(r.RenderAttributes(p, names).value, key) == []
  {
    hide Renderer.RenderAttribute, Values;
    NoValues(key);
    if names != [] {
      var rest, last := names[..|names| - 1], names[|names| - 1];
      assert names == rest + [last];
      ValuesOfAttributes(r, p, rest, key);
      if r.Shown(p, last) {
        var elements := r.RenderAttribute(last, p[last]).value;
        AttributeTagged(r, last, p[last]);
        ValuesOfConcat(r.RenderAttributes(p, rest).value, elements, key);
        if key != last { ValuesOfOthers(elements, last, key); }
      }
    }
  }

  lemma NoValues(key: string)
    ensures Values([], key) == []
  {
  }

  // ----- One attribute there and back -----

  /** What a list of scalars reads back as: the trimmed texts of its non-blank items. */
  function ReadTexts(r: Renderer, items: seq<Json>): seq<Json> {
    if items == [] then []
    else
      var last := items[|items| - 1];
      ReadTexts(r, items[..|items| - 1]) +
      (if !IsEmpty(last) && Trim(r.Text(last)) != "" then [Str(Trim(r.Text(last)))] else [])
  }

  lemma {:induction false} ScalarItemsRead(r: Renderer, name: string, items: seq<Json>)
    ensures Values(r.ScalarItems(name, items), name) == ReadTexts(r, items)
  {
    StripNsOfTag(name);
    if items != [] {
      var rest, last := items[..|items| - 1], items[|items| - 1];
      ScalarItemsRead(r, name, rest);
      var before := r.ScalarItems(name, rest);
      if IsEmpty(last) {
        assert r.ScalarItems(name, items) == before + [] == before;
        assert ReadTexts(r, items) == ReadTexts(r, rest) + [] == ReadTexts(r, rest);
      } else {
        assert r.ScalarItems(name, items) == before + [r.ScalarElement(name, last)];
        ValuesOneMore(before, r.ScalarElement(name, last), name);
      }
    }
  }

  /** Whether a scalar reads back, and as itself. */
  lemma TextReadsIff(r: Renderer, v: Json)
    ensures !IsEmpty(v) && Trim(r.Text(v)) != "" && Str(Trim(r.Text(v))) == v <==> CleanText(v)
    ensures Trim(r.Text(v)) != "" ==> CleanText(Str(Trim(r.Text(v))))
  {
    TrimShrinks(r.Text(v));
    if v.Str? { TrimFixes(v.text); }
  }

  ghost predicate AllClean(items: seq<Json>) {
    forall i :: 0 <= i < |items| ==> CleanText(items[i])
  }

  lemma AllCleanOneMore(items: seq<Json>, last: Json)
    ensures AllClean(items + [last]) <==> AllClean(items) && CleanText(last)
  {
    hide CleanText;
    var longer := items + [last];
    assert longer[|items|] == last && forall i :: 0 <= i < |items| ==> longer[i] == items[i];
  }

  /** The items read back are the items rendered exactly when every item is a clean text. */
  lemma {:induction false} ReadTextsIff(r: Renderer, items: seq<Json>)
    ensures |ReadTexts(r, items)| <= |items|
    ensures ReadTexts(r, items) == items <==> AllClean(items)
  {
    hide CleanText, Trim, IsEmpty, AllClean;
    if items != [] {
      var rest, last := items[..|items| - 1], items[|items| - 1];
      ReadTextsIff(r, rest);
      TextReadsIff(r, last);
      AllCleanOneMore(rest, last);
      assert items == rest + [last];
      AppendInjective(ReadTexts(r, rest), rest, last, ReadTexts(r, items));
    } else {
      NoneUnclean();
    }
  }

  lemma NoneUnclean()
    ensures AllClean([])
  {
  }

  /** A list that grows by at most one value equals a list one longer only part by part. */
  lemma AppendInjective<T>(a: seq<T>, b: seq<T>, last: T, longer: seq<T>)
    requires |a| <= |b| && (longer == a || (|longer| == |a| + 1 && longer[..|a|] == a))
    ensures longer == b + [last] <==> a == b && longer == a + [last]
  {
    if longer == b + [last] {
      assert |longer| == |b| + 1;
      assert longer[..|b|] == b;
    }
  }

  /** The dictionary an item's sub-fields read back as. */
  function ReadBody(r: Renderer, fields: seq<string>, value: map<string, Json>): Product {
    map k | k in value && k in fields && !IsEmpty(value[k]) && Trim(r.Text(value[k])) != "" ::
      Str(Trim(r.Text(value[k])))
  }

  lemma {:induction false} BodyValues(r: Renderer, fields: seq<string>, value: map<string, Json>, key: string)
    requires forall i, j :: 0 <= i < j < |fields| ==> fields[i] != fields[j]
    ensures Values(r.Body(fields, value), key) ==
      if key in ReadBody(r, fields, value) then [ReadBody(r, fields, value)[key]] else []
  {
    if fields != [] {
      var rest, last := fields[..|fields| - 1], fields[|fields| - 1];
      assert fields == rest + [last];
      StripNsOfTag(last);
      BodyValues(r, rest, value, key);
      var before := r.Body(rest, value);
      if last in value && !IsEmpty(value[last]) {
        assert r.Body(fields, value) == before + [r.ScalarElement(last, value[last])];
        ValuesOneMore(before, r.ScalarElement(last, value[last]), key);
      } else {
        assert r.Body(fields, value) == before + [] == before;
      }
    }
  }

  lemma BodyReads(r: Renderer, fields: seq<string>, value: map<string, Json>)
    requires forall i, j :: 0 <= i < j < |fields| ==> fields[i] != fields[j]
    ensures ElementToDict(r.Body(fields, value)) == ReadBody(r, fields, value)
  {
    var p, q := ElementToDict(r.Body(fields, value)), ReadBody(r, fields, value);
    ElementToDictReads(r.Body(fields, value));
    forall k ensures At(p, k) == At(q, k) {
      BodyValues(r, fields, value, k);
      assert At(p, k) == Collapse(Values(r.Body(fields, value), k));
    }
    SameAt(p, q);
  }

  lemma SameAt(p: Product, q: Product)
    requires forall k :: At(p, k) == At(q, k)
    ensures p == q
  {
    forall k ensures (k in p <==> k in q) && (k in p ==> p[k] == q[k]) {
      assert At(p, k) == At(q, k);
    }
  }

  lemma {:induction false} BodyIsEmptyIff(r: Renderer, fields: seq<string>, value: map<string, Json>)
    ensures r.Body(fields, value) == [] <==> forall k :: k in fields && k in value ==> IsEmpty(value[k])
  {
    if fields != [] {
      var rest, last := fields[..|fields| - 1], fields[|fields| - 1];
      assert fields == rest + [last];
      BodyIsEmptyIff(r, rest, value);
    }
  }

  /** An item survives exactly when it is clean. */
  lemma ItemReadsIff(r: Renderer, name: string, fields: seq<string>, v: Json)
    requires forall i, j :: 0 <= i < j < |fields| ==> fields[i] != fields[j]
    ensures Values(r.StructuredItem(name, fields, v), name) == [v] <==> CleanItem(v, fields)
    ensures |Values(r.StructuredItem(name, fields, v), name)| <= 1
  {
    StripNsOfTag(name);
    var es := r.StructuredItem(name, fields, v);
    if v.Obj? && v.fields != map[] {
      BodyReads(r, fields, v.fields);
      BodyIsEmptyIff(r, fields, v.fields);
      if es != [] {
        assert es[..0] == [];
        assert Values(es, name) == [Obj(ReadBody(r, fields, v.fields))];
      }
      ReadBodyIff(r, fields, v.fields);
      if CleanItem(v, fields) {
        var k :| k in v.fields;
        assert CleanText(v.fields[k]) && !IsEmpty(v.fields[k]);
      }
    }
  }

  lemma ReadBodyIff(r: Renderer, fields: seq<string>, value: map<string, Json>)
    ensures ReadBody(r, fields, value) == value <==> forall k :: k in value ==> k in fields && CleanText(value[k])
  {
    var q := ReadBody(r, fields, value);
    forall k | k in value
      ensures (k in q && q[k] == value[k]) <==> (k in fields && CleanText(value[k]))
    {
      TrimShrinks(r.Text(value[k]));
      if value[k].Str? { TrimFixes(value[k].text); }
    }
  }

  lemma {:induction false} ItemsReadIff(r: Renderer, name: string, fields: seq<string>, items: seq<Json>)
    requires forall i, j :: 0 <= i < j < |fields| ==> fields[i] != fields[j]
    ensures |Values(r.StructuredItems(name, fields, items), name)| <= |items|
    ensures Values(r.StructuredItems(name, fields, items), name) == items <==>
      forall i :: 0 <= i < |items| ==> CleanItem(items[i], fields)
  {
    if items != [] {
      var rest, last := items[..|items| - 1], items[|items| - 1];
      assert items == rest + [last];
      ItemsReadIff(r, name, fields, rest);
      ItemReadsIff(r, name, fields, last);
      var before, own := r.StructuredItems(name, fields, rest), r.StructuredItem(name, fields, last);
      ValuesOfConcat(before, own, name);
      var read := Values(r.StructuredItems(name, fields, items), name);
      if read == items {
        assert |Values(before, name)| == |rest| && |Values(own, name)| == 1;
        assert read[..|rest|] == Values(before, name) && read[|rest|..] == Values(own, name);
        assert items[..|rest|] == rest && items[|rest|..] == [last];
      }
    }
  }

  // ----- Whole attributes and products -----

  /** Rendering a value gives elements that read back as the value. */
  predicate Survives(r: Renderer, name: string, v: Json)
    requires name in r.attributes
  {
    var elements := r.RenderAttribute(name, v);
    elements.Some? && Collapse(Values(elements.value, name)) == Some(v)
  }

  lemma ScalarSurvivesIff(r: Renderer, name: string, v: Json)
    requires name in r.attributes && r.attributes[name].kind.Scalar? && !IsEmpty(v)
    ensures Survives(r, name, v) <==> CleanText(v)
  {
    StripNsOfTag(name);
    var e := r.ScalarElement(name, v);
    ValuesOneMore([], e, name);
    assert [] + [e] == [e] && Values([], name) == [];
    TextReadsIff(r, v);
  }

  lemma CollapseIsListIff(values: seq<Json>, items: seq<Json>)
    requires forall i :: 0 <= i < |values| ==> !values[i].Arr?
    ensures Collapse(values) == Some(Arr(items)) <==> |items| >= 2 && values == items
  {
  }

  lemma RepeatedScalarSurvivesIff(r: Renderer, name: string, v: Json)
    requires name in r.attributes && r.attributes[name].kind.RepeatedScalar? && !IsEmpty(v)
    ensures Survives(r, name, v) <==> CleanValue(r.attributes[name], v)
  {
    hide CleanText, Trim, Collapse, Values;
    var items := r.Iterate(v);
    if items.Some? {
      var values := ReadTexts(r, items.value);
      ScalarItemsRead(r, name, items.value);
      ReadTextsIff(r, items.value);
      assert Survives(r, name, v) <==> Collapse(values) == Some(v);
      match v
      case Arr(list) =>
        ValuesAreNotLists(r.ScalarItems(name, list), name);
        CollapseIsListIff(values, list);
        CleanTextIsText(v);
      case Str(s) => LettersSurviveIff(r, s);
      case Obj(fields) =>
        ReadTextsAreTexts(r, items.value);
        CollapseOfTexts(values);
        CleanTextIsText(v);
    } else {
      CleanTextIsText(v);
    }
  }

  lemma CleanTextIsText(v: Json)
    ensures CleanText(v) ==> v.Str? && v.text != ""
  {
  }

  lemma {:induction false} ReadTextsAreTexts(r: Renderer, items: seq<Json>)
    ensures |ReadTexts(r, items)| <= |items|
    ensures forall i :: 0 <= i < |ReadTexts(r, items)| ==> ReadTexts(r, items)[i].Str?
  {
    if items != [] { ReadTextsAreTexts(r, items[..|items| - 1]); }
  }

  lemma CollapseOfTexts(values: seq<Json>)
    requires forall i :: 0 <= i < |values| ==> values[i].Str?
    ensures Collapse(values).Some? ==> Collapse(values).value.Str? || Collapse(values).value.Arr?
    ensures Collapse(values).Some? && Collapse(values).value.Str? ==> values == [Collapse(values).value]
  {
  }

  function Letters(s: string): seq<Json> {
    seq(|s|, i requires 0 <= i < |s| => Str([s[i]]))
  }

  /** A bare text under a repeated attribute survives only when it is one letter long. */
  lemma LettersSurviveIff(r: Renderer, s: string)
    requires s != ""
    ensures Collapse(ReadTexts(r, Letters(s))) == Some(Str(s)) <==> CleanText(Str(s)) && |s| == 1
  {
    hide Trim, IsEmpty, AllClean;
    var values := ReadTexts(r, Letters(s));
    ReadTextsAreTexts(r, Letters(s));
    CollapseOfTexts(values);
    ReadTextsIff(r, Letters(s));
    if |s| == 1 {
      assert [s[0]] == s;
      assert Letters(s) == [Str(s)];
      OneClean(Str(s));
      if CleanText(Str(s)) { assert values == [Str(s)]; }
    } else {
      ReadLettersAreShort(r, s);
    }
  }

  lemma OneClean(v: Json)
    ensures AllClean([v]) <==> CleanText(v)
  {
    AllCleanOneMore([], v);
    NoneUnclean();
    assert [] + [v] == [v];
  }

  lemma ReadLettersAreShort(r: Renderer, s: string)
    ensures forall i :: 0 <= i < |ReadTexts(r, Letters(s))| ==>
      ReadTexts(r, Letters(s))[i].Str? && |ReadTexts(r, Letters(s))[i].text| <= 1
  {
    ReadTextsAreShort(r, Letters(s));
  }

  lemma {:induction false} ReadTextsAreShort(r: Renderer, items: seq<Json>)
    requires forall i :: 0 <= i < |items| ==> |r.Text(items[i])| <= 1
    ensures forall i :: 0 <= i < |ReadTexts(r, items)| ==>
      ReadTexts(r, items)[i].Str? && |ReadTexts(r, items)[i].text| <= 1
  {
    hide Trim, IsEmpty;
    if items != [] {
      ReadTextsAreShort(r, items[..|items| - 1]);
      TrimShrinks(r.Text(items[|items| - 1]));
    }
  }

  lemma StructuredSurvivesIff(r: Renderer, name: string, v: Json)
    requires r.Valid() && name in r.attributes && r.attributes[name].kind.Structured? && !IsEmpty(v)
    ensures Survives(r, name, v) <==> CleanItem(v, r.attributes[name].fields)
  {
    hide Values;
    if v.Obj? {
      ItemReadsIff(r, name, r.attributes[name].fields, v);
      var values := Values(r.StructuredItem(name, r.attributes[name].fields, v), name);
      assert Collapse(values) == Some(v) <==> values == [v];
    }
  }

  lemma EmptyReads()
    ensures forall key :: Collapse(Values([], key)) == None
  {
  }

  lemma {:induction false} NoItems(r: Renderer, name: string, fields: seq<string>, items: seq<Json>)
    requires forall i :: 0 <= i < |items| ==> !items[i].Obj?
    ensures r.StructuredItems(name, fields, items) == []
  {
    if items != [] { NoItems(r, name, fields, items[..|items| - 1]); }
  }

  lemma RepeatedStructuredSurvivesIff(r: Renderer, name: string, v: Json)
    requires r.Valid() && name in r.attributes && r.attributes[name].kind.RepeatedStructured? && !IsEmpty(v)
    ensures Survives(r, name, v) <==> CleanValue(r.attributes[name], v)
  {
    hide CleanItem, IsEmpty, Collapse, Values;
    var fields := r.attributes[name].fields;
    EmptyReads();
    match v
    case Arr(items) =>
      ItemsReadIff(r, name, fields, items);
      ValuesAreNotLists(r.StructuredItems(name, fields, items), name);
      CollapseIsListIff(Values(r.StructuredItems(name, fields, items), name), items);
    case Str(_) => NoItems(r, name, fields, r.Iterate(v).value);
    case Obj(_) => NoItems(r, name, fields, r.Iterate(v).value);
    case _ =>
  }

  /** An attribute value comes back from the feed as it was exactly when it is clean. */
  lemma SurvivesIff(r: Renderer, name: string, v: Json)
    requires r.Valid() && name in r.attributes && !IsEmpty(v)
    ensures Survives(r, name, v) <==> CleanValue(r.attributes[name], v)
  {
    match r.attributes[name].kind
    case Scalar => ScalarSurvivesIff(r, name, v);
    case RepeatedScalar => RepeatedScalarSurvivesIff(r, name, v);
    case Structured => StructuredSurvivesIff(r, name, v);
    case RepeatedStructured => RepeatedStructuredSurvivesIff(r, name, v);
  }

  /** A repeated attribute with one item never survives: it is read back as the bare item. */
  lemma OneItemDoesNotSurvive(r: Renderer, name: string, item: Json)
    requires r.Valid() && name in r.attributes
    requires r.attributes[name].kind.RepeatedScalar? || r.attributes[name].kind.RepeatedStructured?
    ensures !Survives(r, name, Arr([item]))
    ensures r.attributes[name].kind.RepeatedScalar? && CleanText(item) ==>
      Collapse(Values(r.RenderAttribute(name, Arr([item])).value, name)) == Some(item)
    ensures r.attributes[name].kind.RepeatedStructured? && CleanItem(item, r.attributes[name].fields) ==>
      Collapse(Values(r.RenderAttribute(name, Arr([item])).value, name)) == Some(item)
  {
    hide Survives, Values, ReadTexts, Trim, CleanItem, Renderer.ScalarItems, Renderer.StructuredItems;
    SurvivesIff(r, name, Arr([item]));
    if r.attributes[name].kind.RepeatedScalar? {
      ScalarItemsRead(r, name, [item]);
      ReadTextsIff(r, [item]);
      OneClean(item);
    } else {
      ItemsReadIff(r, name, r.attributes[name].fields, [item]);
    }
  }

  lemma {:induction false} RendersIff(r: Renderer, p: Product, names: seq<string>)
    ensures r.RenderAttributes(p, names).Some? <==>
      forall name :: name in names && r.Shown(p, name) ==> r.RenderAttribute(name, p[name]).Some?
  {
    if names != [] {
      var rest, last := names[..|names| - 1], names[|names| - 1];
      assert names == rest + [last];
      RendersIff(r, p, rest);
    }
  }

  /** What rendering never does: produce an item the reader rejects. */
  lemma RenderedItemsParse(r: Renderer, p: Product)
    requires r.Valid() && r.RenderItem(p).Some?
    ensures ParseItem(r.RenderItem(p).value).Some?
  {
    ParseItemReads(r.RenderItem(p).value);
    ValuesOfAttributes(r, p, r.order, "");
  }

  function Returned(r: Renderer, p: Product, key: string): Option<Json> {
    if !r.Shown(p, key) then None
    else
      var elements := r.RenderAttribute(key, p[key]);
      if elements.None? then None else Collapse(Values(elements.value, key))
  }

  /** The value a rendered product reads back with under one key. */
  lemma ReadsBackAt(r: Renderer, p: Product, key: string)
    requires r.Valid() && r.RenderItem(p).Some?
    ensures ParseItem(r.RenderItem(p).value).Some?
    ensures r.Shown(p, key) ==> r.RenderAttribute(key, p[key]).Some?
    ensures At(ParseItem(r.RenderItem(p).value).value, key) == Returned(r, p, key)
  {
    RenderedItemsParse(r, p);
    ParseItemReads(r.RenderItem(p).value);
    ValuesOfAttributes(r, p, r.order, key);
    assert At(ParseItem(r.RenderItem(p).value).value, key) == Collapse(Values(r.RenderItem(p).value, key));
  }

  /** A product comes back from the feed as far as it was shown exactly when what is shown of it
      is clean. */
  lemma VisibleReadsBackIff(r: Renderer, p: Product)
    requires r.Valid()
    ensures r.RenderItem(p).Some? && ParseItem(r.RenderItem(p).value) == Some(r.Visible(p)) <==> Clean(r, r.Visible(p))
  {
    hide CleanValue;
    RendersIff(r, p, r.order);
    forall name | r.Shown(p, name)
      ensures Survives(r, name, p[name]) <==> CleanValue(r.attributes[name], p[name])
    {
      SurvivesIff(r, name, p[name]);
    }
    if r.RenderItem(p).Some? {
      var q := ParseItem(r.RenderItem(p).value);
      RenderedItemsParse(r, p);
      forall key ensures At(q.value, key) == Returned(r, p, key) {
        ReadsBackAt(r, p, key);
      }
      VisibleAtIff(r, p, q.value);
    }
  }

  lemma VisibleAtIff(r: Renderer, p: Product, q: Product)
    requires forall name :: r.Shown(p, name) ==> r.RenderAttribute(name, p[name]).Some?
    requires forall key :: At(q, key) == Returned(r, p, key)
    ensures q == r.Visible(p) <==> forall name :: r.Shown(p, name) ==> Survives(r, name, p[name])
  {
    if forall name :: r.Shown(p, name) ==> Survives(r, name, p[name]) {
      forall key ensures At(q, key) == At(r.Visible(p), key) { }
      SameAt(q, r.Visible(p));
    }
    if q == r.Visible(p) {
      forall name | r.Shown(p, name) ensures Survives(r, name, p[name]) {
        assert At(q, name) == Some(p[name]);
      }
    }
  }

  /** What is not shown takes no part in rendering. */
  lemma {:induction false} RenderSeesVisibleOnly(r: Renderer, p: Product, names: seq<string>)
    ensures r.RenderAttributes(r.Visible(p), names) == r.RenderAttributes(p, names)
  {
    if names != [] { RenderSeesVisibleOnly(r, p, names[..|names| - 1]); }
  }

  /** A product comes back whole exactly when all of it is shown and clean. */
  lemma ReadsBackIff(r: Renderer, p: Product)
    requires r.Valid()
    ensures r.RenderItem(p).Some? && ParseItem(r.RenderItem(p).value) == Some(p) <==> Clean(r, p)
  {
    hide CleanValue;
    VisibleReadsBackIff(r, p);
    if Clean(r, p) { assert r.Visible(p) == p; }
    if r.RenderItem(p).Some? && ParseItem(r.RenderItem(p).value) == Some(p) {
      forall name | name in p ensures r.Shown(p, name) {
        ReadsBackAt(r, p, name);
        assert At(p, name).Some?;
      }
      assert r.Visible(p) == p;
    }
  }
}
