/** What a parser makes of line ends: section 2.11 of XML 1.0 has it report every carriage return,
    with a line feed after it or not, as one line feed. */
module LineEnds {
  import opened Hashing
  import opened FeedXml
  import opened Rerender
  import opened Shrinking
  import opened Wrappers

  // ----- Texts -----

  function Normalized(s: string): string {
    if s == "" then ""
    else if s[0] != '\r' then [s[0]] + Normalized(s[1..])
    else if |s| > 1 && s[1] == '\n' then "\n" + Normalized(s[2..])
    else "\n" + Normalized(s[1..])
  }

  lemma {:induction false} NormalizedFacts(s: string)
    ensures '\r' !in Normalized(s) && |Normalized(s)| <= |s|
    ensures Normalized(s) == "" <==> s == ""
    ensures Normalized(s) == s <==> '\r' !in s
  {
    if s != "" {
      var rest := if s[0] == '\r' && |s| > 1 && s[1] == '\n' then s[2..] else s[1..];
      NormalizedFacts(rest);
      assert s == [s[0]] + s[1..];
    }
  }

  /** Each line end becomes one line feed, and everything else stays. */
  lemma {:induction false} LineEndIs(line: string, rest: string)
    requires '\r' !in line
    ensures Normalized(line) == line
    ensures Normalized(line + "\r\n" + rest) == line + "\n" + Normalized(rest)
    ensures rest == "" || rest[0] != '\n' ==> Normalized(line + "\r" + rest) == line + "\n" + Normalized(rest)
  {
    var a, b := line + "\r\n" + rest, line + "\r" + rest;
    if line == "" {
      assert a[1] == '\n' && a[2..] == rest && b[1..] == rest;
    } else {
      LineEndIs(line[1..], rest);
      assert a[1..] == line[1..] + "\r\n" + rest && b[1..] == line[1..] + "\r" + rest;
      assert line == [line[0]] + line[1..];
    }
  }

  // ----- Elements -----

  /** Only elements without children have a text of their own. */
  function NormalizedText(e: Element): string {
    if e.children == [] then Normalized(e.text) else e.text
  }

  function NormalizedAll(es: seq<Element>): seq<Element> {
    if es == [] then []
    else
      var last := es[|es| - 1];
      NormalizedAll(es[..|es| - 1]) + [Element(last.tag, NormalizedText(last), NormalizedAll(last.children))]
  }

  predicate NoReturns(es: seq<Element>) {
    es == [] ||
    var last := es[|es| - 1];
    NoReturns(es[..|es| - 1]) && (last.children == [] ==> '\r' !in last.text) && NoReturns(last.children)
  }

  lemma NormalizedOneMore(es: seq<Element>, e: Element)
    ensures NormalizedAll(es + [e]) ==
      NormalizedAll(es) + [Element(e.tag, NormalizedText(e), NormalizedAll(e.children))]
  {
    assert (es + [e])[..|es|] == es;
  }

  lemma {:induction false} NormalizedOfConcat(a: seq<Element>, b: seq<Element>)
    ensures NormalizedAll(a + b) == NormalizedAll(a) + NormalizedAll(b)
  {
    hide NormalizedAll, Normalized;
    if b == [] {
      NothingNormalizes();
      assert a + b == a && NormalizedAll(a) + [] == NormalizedAll(a);
    } else {
      var rest, last := b[..|b| - 1], b[|b| - 1];
      NormalizedOfConcat(a, rest);
      NormalizedOneMore(a + rest, last);
      NormalizedOneMore(rest, last);
      assert a + b == (a + rest) + [last] && b == rest + [last];
    }
  }

  /** Exactly the elements without a carriage return are reported as they are. */
  lemma {:induction false} NormalizedIff(es: seq<Element>)
    ensures |NormalizedAll(es)| == |es|
    ensures NormalizedAll(es) == es <==> NoReturns(es)
    ensures NoReturns(NormalizedAll(es))
  {
    if es != [] {
      var rest, last := es[..|es| - 1], es[|es| - 1];
      var e := Element(last.tag, NormalizedText(last), NormalizedAll(last.children));
      NormalizedIff(rest);
      NormalizedIff(last.children);
      NormalizedFacts(last.text);
      assert es == rest + [last];
      assert NormalizedAll(es)[..|rest|] == NormalizedAll(rest);
      assert NormalizedAll(es)[|rest|] == e;
    }
  }

  lemma {:induction false} NormalizingLightens(es: seq<Element>)
    ensures Weight(NormalizedAll(es)) <= Weight(es)
  {
    hide Cost;
    if es != [] {
      var rest, last := es[..|es| - 1], es[|es| - 1];
      NormalizingLightens(rest);
      NormalizingLightens(last.children);
      NormalizedFacts(last.text);
      if |NormalizedText(last)| < |last.text| { CostGrows(|NormalizedText(last)|, |last.text|); }
      WeightOneMore(NormalizedAll(rest), Element(last.tag, NormalizedText(last), NormalizedAll(last.children)));
    }
  }

  // ----- The elements of a product, normalized, are those of another product -----

  /** Python's `str` of a value that is no string is never empty. */
  ghost predicate Prints(r: Renderer) {
    forall v: Json :: !v.Str? ==> r.show(v) != ""
  }

  function NormalText(r: Renderer, v: Json): Json {
    Str(Normalized(r.Text(v)))
  }

  lemma TextNormalizes(r: Renderer, name: string, v: Json)
    requires Prints(r) && !IsEmpty(v)
    ensures !IsEmpty(NormalText(r, v))
    ensures NormalizedAll([r.ScalarElement(name, v)]) == [r.ScalarElement(name, NormalText(r, v))]
  {
    NormalizedFacts(r.Text(v));
    NormalizedOneMore([], r.ScalarElement(name, v));
    assert [] + [r.ScalarElement(name, v)] == [r.ScalarElement(name, v)];
  }

  function NormalTexts(r: Renderer, items: seq<Json>): seq<Json> {
    if items == [] then []
    else
      var last := items[|items| - 1];
      NormalTexts(r, items[..|items| - 1]) + (if IsEmpty(last) then [] else [NormalText(r, last)])
  }

  lemma {:induction false} ScalarItemsNormalize(r: Renderer, name: string, items: seq<Json>)
    requires Prints(r)
    ensures NormalizedAll(r.ScalarItems(name, items)) == r.ScalarItems(name, NormalTexts(r, items))
  {
    hide Prints, Normalized, NormalizedAll, IsEmpty;
    if items == [] {
      NothingNormalizes();
    } else {
      var rest, last := items[..|items| - 1], items[|items| - 1];
      var before, normal := r.ScalarItems(name, rest), NormalTexts(r, rest);
      ScalarItemsNormalize(r, name, rest);
      assert before + [] == before && normal + [] == normal;
      if !IsEmpty(last) {
        TextNormalizes(r, name, last);
        NormalizedOfConcat(before, [r.ScalarElement(name, last)]);
        ScalarItemsOneMore(r, name, normal, NormalText(r, last));
      }
    }
  }

  lemma NothingNormalizes()
    ensures NormalizedAll([]) == [] && Normalized("") == ""
  {
  }

  function NormalBody(r: Renderer, fields: seq<string>, value: map<string, Json>): map<string, Json> {
    map k | k in value && k in fields && !IsEmpty(value[k]) :: NormalText(r, value[k])
  }

  lemma {:induction false} BodyNormalizes(r: Renderer, fields: seq<string>, sub: seq<string>, value: map<string, Json>)
    requires Prints(r) && forall k :: k in sub ==> k in fields
    ensures NormalizedAll(r.Body(sub, value)) == r.Body(sub, NormalBody(r, fields, value))
  {
    hide Prints, Normalized, NormalizedAll, IsEmpty;
    if sub == [] {
      NothingNormalizes();
    } else {
      var rest, last := sub[..|sub| - 1], sub[|sub| - 1];
      var before, normal := r.Body(rest, value), r.Body(rest, NormalBody(r, fields, value));
      BodyNormalizes(r, fields, rest, value);
      assert before + [] == before && normal + [] == normal;
      if last in value && !IsEmpty(value[last]) {
        TextNormalizes(r, last, value[last]);
        NormalizedOfConcat(before, [r.ScalarElement(last, value[last])]);
      }
    }
  }

  lemma GroupNormalizes(r: Renderer, name: string, fields: seq<string>, v: Json)
    requires Prints(r) && v.Obj? && !IsEmpty(v)
    ensures NormalizedAll(r.StructuredItem(name, fields, v)) ==
      r.StructuredItem(name, fields, Obj(NormalBody(r, fields, v.fields)))
  {
    hide Prints, NormalBody, NormalizedAll, Normalized, Renderer.Body;
    NothingNormalizes();
    var body, normal := r.Body(fields, v.fields), r.Body(fields, NormalBody(r, fields, v.fields));
    BodyNormalizes(r, fields, fields, v.fields);
    NormalizedIff(body);
    if NormalBody(r, fields, v.fields) == map[] { BodyOfNothing(r, fields); }
    var e := Element(Tag(name), "", body);
    NormalizedOneMore([], e);
    assert [] + [e] == [e];
  }

  function NormalGroups(r: Renderer, fields: seq<string>, items: seq<Json>): seq<Json> {
    if items == [] then []
    else
      var last := items[|items| - 1];
      NormalGroups(r, fields, items[..|items| - 1]) +
      (if last.Obj? && !IsEmpty(last) then [Obj(NormalBody(r, fields, last.fields))] else [])
  }

  lemma {:induction false} GroupsNormalize(r: Renderer, name: string, fields: seq<string>, items: seq<Json>)
    requires Prints(r)
    ensures NormalizedAll(r.StructuredItems(name, fields, items)) ==
      r.StructuredItems(name, fields, NormalGroups(r, fields, items))
  {
    hide Prints, NormalizedAll, NormalBody;
    if items == [] {
      NothingNormalizes();
    } else {
      var rest, last := items[..|items| - 1], items[|items| - 1];
      var before, own := r.StructuredItems(name, fields, rest), r.StructuredItem(name, fields, last);
      var normal := NormalGroups(r, fields, rest);
      GroupsNormalize(r, name, fields, rest);
      NormalizedOfConcat(before, own);
      if last.Obj? && !IsEmpty(last) {
        GroupNormalizes(r, name, fields, last);
        var w := Obj(NormalBody(r, fields, last.fields));
        assert (normal + [w])[..|normal|] == normal;
      } else {
        assert before + [] == before && normal + [] == normal;
      }
    }
  }

  /** A value whose rendering is the normalized rendering of `v`. */
  function NormalValue(r: Renderer, name: string, v: Json): Json
    requires name in r.attributes
  {
    var attribute := r.attributes[name];
    match attribute.kind
    case Scalar => NormalText(r, v)
    case RepeatedScalar => Arr(if r.Iterate(v).Some? then NormalTexts(r, r.Iterate(v).value) else [])
    case Structured => Obj(if v.Obj? then NormalBody(r, attribute.fields, v.fields) else map[])
    case RepeatedStructured =>
      Arr(if r.Iterate(v).Some? then NormalGroups(r, attribute.fields, r.Iterate(v).value) else [])
  }

  lemma NothingRendered(r: Renderer, name: string, fields: seq<string>)
    ensures r.ScalarItems(name, []) == [] && r.StructuredItems(name, fields, []) == []
    ensures r.StructuredItem(name, fields, Obj(map[])) == []
  {
    hide Prints;
    NothingInBody(r, fields);
  }

  lemma {:induction false} NothingInBody(r: Renderer, fields: seq<string>)
    ensures r.Body(fields, map[]) == []
  {
    if fields != [] { NothingInBody(r, fields[..|fields| - 1]); }
  }

  ghost predicate ValueNormalizes(r: Renderer, name: string, v: Json)
    requires name in r.attributes && r.RenderAttribute(name, v).Some?
  {
    var w, es := NormalValue(r, name, v), NormalizedAll(r.RenderAttribute(name, v).value);
    if IsEmpty(w) then es == [] else r.RenderAttribute(name, w) == Some(es)
  }

  lemma AttributeNormalizes(r: Renderer, name: string, v: Json)
    requires Prints(r) && name in r.attributes && !IsEmpty(v) && r.RenderAttribute(name, v).Some?
    ensures ValueNormalizes(r, name, v)
  {
    hide Prints, ValueNormalizes;
    if r.attributes[name].kind.Scalar? || r.attributes[name].kind.RepeatedScalar? {
      TextsNormalize(r, name, v);
    } else {
      StructuresNormalize(r, name, v);
    }
  }

  lemma TextsNormalize(r: Renderer, name: string, v: Json)
    requires Prints(r) && name in r.attributes && !IsEmpty(v) && r.RenderAttribute(name, v).Some?
    requires r.attributes[name].kind.Scalar? || r.attributes[name].kind.RepeatedScalar?
    ensures ValueNormalizes(r, name, v)
  {
    NothingRendered(r, name, []);
    hide Prints, NormalText, NormalTexts, NormalizedAll, Renderer.ScalarElement, Renderer.ScalarItems;
    if r.attributes[name].kind.Scalar? {
      TextNormalizes(r, name, v);
    } else {
      ScalarItemsNormalize(r, name, r.Iterate(v).value);
    }
  }

  lemma StructuresNormalize(r: Renderer, name: string, v: Json)
    requires Prints(r) && name in r.attributes && !IsEmpty(v) && r.RenderAttribute(name, v).Some?
    requires !r.attributes[name].kind.Scalar? && !r.attributes[name].kind.RepeatedScalar?
    ensures ValueNormalizes(r, name, v)
  {
    var fields := r.attributes[name].fields;
    NothingRendered(r, name, fields);
    hide Prints, NormalGroups, NormalBody, NormalizedAll, Renderer.StructuredItem, Renderer.StructuredItems;
    var w := NormalValue(r, name, v);
    assert IsEmpty(w) ==> w == Obj(map[]) || w == Arr([]);
    hide IsEmpty;
    if r.attributes[name].kind.Structured? {
      GroupNormalizes(r, name, fields, v);
    } else {
      GroupsNormalize(r, name, fields, r.Iterate(v).value);
    }
  }

  /** The product that a parser which normalizes line ends might as well have been given. */
  function NormalProduct(r: Renderer, p: Product): Product {
    map name | name in p && r.Shown(p, name) :: NormalValue(r, name, p[name])
  }

  lemma {:induction false} AttributesNormalize(r: Renderer, p: Product, names: seq<string>)
    requires Prints(r) && r.RenderAttributes(p, names).Some?
    ensures r.RenderAttributes(NormalProduct(r, p), names) == Some(NormalizedAll(r.RenderAttributes(p, names).value))
  {
    hide Prints, NormalizedAll, NormalValue, Renderer.RenderAttribute;
    if names == [] {
      NothingNormalizes();
    } else {
      var rest, name := names[..|names| - 1], names[|names| - 1];
      AttributesNormalize(r, p, rest);
      var before := r.RenderAttributes(p, rest).value;
      if r.Shown(p, name) {
        AttributeNormalizes(r, name, p[name]);
        NormalizedOfConcat(before, r.RenderAttribute(name, p[name]).value);
        assert NormalizedAll(before) + [] == NormalizedAll(before);
      }
    }
  }

  lemma ItemNormalizes(r: Renderer, p: Product)
    requires Prints(r) && r.RenderItem(p).Some?
    ensures r.RenderItem(NormalProduct(r, p)) == Some(NormalizedAll(r.RenderItem(p).value))
  {
    AttributesNormalize(r, p, r.order);
  }
}
