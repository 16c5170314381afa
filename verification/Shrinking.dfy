/** Every round of reading and rendering that changes something makes the feed lighter, so no
    number of rounds, and no reordering, leads back to where it started. */
module Shrinking {
  import opened Hashing
  import opened FeedXml
  import opened RoundTrip
  import opened Rerender
  import opened Wrappers

  /** The weight of a text. Growing faster than its length, it exceeds that of the letters together. */
  function Cost(n: nat): nat {
    n * n + 1
  }

  lemma CostGrows(m: nat, n: nat)
    requires m < n
    ensures Cost(m) < Cost(n)
  {
    var d := n - m;
    assert n * n == m * m + 2 * m * d + d * d;
    assert d * d >= 1 && m * d >= 0;
  }

  lemma LettersCostLess(n: nat)
    requires n >= 2
    ensures 2 * n < Cost(n)
  {
    assert n * n >= 2 * n;
  }

  function Weight(es: seq<Element>): nat {
    if es == [] then 0
    else
      var last := es[|es| - 1];
      Weight(es[..|es| - 1]) + Cost(|last.text|) + Weight(last.children)
  }

  /** No heavier, and lighter if different at all. */
  ghost predicate Shrinks(es: seq<Element>, again: seq<Element>) {
    Weight(again) <= Weight(es) && (Weight(again) == Weight(es) ==> again == es)
  }

  lemma WeightOneMore(es: seq<Element>, e: Element)
    ensures Weight(es + [e]) == Weight(es) + Cost(|e.text|) + Weight(e.children)
  {
    assert (es + [e])[..|es|] == es;
  }

  lemma {:induction false} WeightOfConcat(a: seq<Element>, b: seq<Element>)
    ensures Weight(a + b) == Weight(a) + Weight(b)
  {
    if b == [] {
      assert a + b == a;
    } else {
      var rest, last := b[..|b| - 1], b[|b| - 1];
      WeightOfConcat(a, rest);
      WeightOneMore(a + rest, last);
      assert a + b == (a + rest) + [last];
    }
  }

  lemma WeightOfOne(e: Element)
    ensures Weight([e]) == Cost(|e.text|) + Weight(e.children) && Weight([]) == 0
  {
    WeightOneMore([], e);
    assert [] + [e] == [e];
  }

  lemma Joined(a: seq<Element>, a': seq<Element>, b: seq<Element>, b': seq<Element>)
    requires Shrinks(a, a') && Shrinks(b, b')
    ensures Shrinks(a + b, a' + b')
  {
    hide Weight;
    WeightOfConcat(a, b);
    WeightOfConcat(a', b');
  }

  // ----- Lists of scalars -----

  /** One text, trimmed, or dropped when nothing is left. */
  lemma TextShrinks(r: Renderer, name: string, v: Json)
    ensures
      var t := Trim(r.Text(v));
      Shrinks([r.ScalarElement(name, v)], if t == "" then [] else [r.ScalarElement(name, Str(t))])
  {
    hide Trim, Cost;
    var e, t := r.ScalarElement(name, v), Trim(r.Text(v));
    TrimShrinks(r.Text(v));
    WeightOfOne(e);
    WeightOfOne(r.ScalarElement(name, Str(t)));
    CostIsPositive(|e.text|);
    if |t| < |r.Text(v)| { CostGrows(|t|, |r.Text(v)|); }
  }

  lemma CostIsPositive(n: nat)
    ensures Cost(n) >= 1
  {
  }

  lemma {:induction false} ScalarItemsShrink(r: Renderer, name: string, items: seq<Json>)
    ensures Shrinks(r.ScalarItems(name, items), r.ScalarItems(name, ReadTexts(r, items)))
  {
    hide Trim, Shrinks;
    if items == [] {
      NothingShrinks();
    } else {
      var rest, last := items[..|items| - 1], items[|items| - 1];
      var before, read := r.ScalarItems(name, rest), ReadTexts(r, rest);
      var again := r.ScalarItems(name, read);
      ScalarItemsShrink(r, name, rest);
      if IsEmpty(last) {
        assert before + [] == before && read + [] == read;
      } else {
        var t := Trim(r.Text(last));
        TextShrinks(r, name, last);
        Joined(before, again, [r.ScalarElement(name, last)], if t == "" then [] else [r.ScalarElement(name, Str(t))]);
        ScalarItemsOneMore(r, name, read, Str(t));
        assert read + [] == read && again + [] == again;
      }
    }
  }

  lemma NothingShrinks()
    ensures Shrinks([], [])
  {
  }

  lemma {:induction false} LettersWeight(r: Renderer, name: string, t: string)
    ensures Weight(r.ScalarItems(name, Letters(t))) == 2 * |t|
  {
    hide Cost, Renderer.ScalarElement;
    if t != "" {
      var rest, last := t[..|t| - 1], Str([t[|t| - 1]]);
      LettersWeight(r, name, rest);
      assert Letters(t) == Letters(rest) + [last];
      ScalarItemsOneMore(r, name, Letters(rest), last);
      WeightOneMore(r.ScalarItems(name, Letters(rest)), r.ScalarElement(name, last));
      LetterWeight(r, name, t[|t| - 1]);
    }
  }

  lemma LetterWeight(r: Renderer, name: string, c: char)
    ensures !IsEmpty(Str([c]))
    ensures var e := r.ScalarElement(name, Str([c])); Cost(|e.text|) + Weight(e.children) == 2
  {
  }

  /** A single text of several letters falls apart into lighter ones. */
  lemma LettersShrink(r: Renderer, name: string, items: seq<Json>, t: string)
    requires ReadTexts(r, items) == [Str(t)] && t != ""
    ensures Shrinks(r.ScalarItems(name, items), r.ScalarItems(name, Letters(t)))
  {
    hide Weight, ReadTexts, Cost;
    ScalarItemsShrink(r, name, items);
    LettersWeight(r, name, t);
    ScalarItemsOneMore(r, name, [], Str(t));
    WeightOfOne(r.ScalarElement(name, Str(t)));
    assert [] + [Str(t)] == [Str(t)] && [] + [r.ScalarElement(name, Str(t))] == [r.ScalarElement(name, Str(t))];
    if |t| == 1 {
      assert [t[0]] == t && Letters(t) == [Str(t)];
    } else {
      LettersCostLess(|t|);
    }
  }

  lemma RepeatedScalarShrinks(r: Renderer, name: string, v: Json)
    requires name in r.attributes && r.attributes[name].kind.RepeatedScalar?
    requires r.RenderAttribute(name, v).Some?
    ensures
      var es := r.RenderAttribute(name, v).value;
      Again(r, name, es).Some? && Shrinks(es, Again(r, name, es).value)
  {
    hide Trim, Shrinks, ReadTexts, Values, CleanText;
    var items := r.Iterate(v).value;
    var es, values := r.ScalarItems(name, items), ReadTexts(r, items);
    ScalarItemsShrink(r, name, items);
    ScalarItemsRead(r, name, items);
    ReadTextsAreClean(r, items);
    if |values| == 0 {
      assert values == [] && r.ScalarItems(name, []) == [];
    } else if |values| == 1 {
      assert AllClean(values) && CleanText(values[0]);
      CleanTextIsText(values[0]);
      assert r.Iterate(values[0]).value == Letters(values[0].text);
      LettersShrink(r, name, items, values[0].text);
    }
  }

  lemma CleanTextIsText(v: Json)
    requires CleanText(v)
    ensures v.Str? && v.text != ""
  {
  }

  // ----- Dictionaries -----

  lemma {:induction false} BodyShrinks(r: Renderer, fields: seq<string>, sub: seq<string>, value: map<string, Json>)
    requires forall k :: k in sub ==> k in fields
    ensures Shrinks(r.Body(sub, value), r.Body(sub, ReadBody(r, fields, value)))
  {
    hide Trim, Shrinks;
    if sub == [] {
      NothingShrinks();
    } else {
      var rest, last := sub[..|sub| - 1], sub[|sub| - 1];
      var before, again := r.Body(rest, value), r.Body(rest, ReadBody(r, fields, value));
      BodyShrinks(r, fields, rest, value);
      assert before + [] == before && again + [] == again;
      if last in value && !IsEmpty(value[last]) {
        var t := Trim(r.Text(value[last]));
        TextShrinks(r, last, value[last]);
        Joined(
          before, again, [r.ScalarElement(last, value[last])], if t == "" then [] else [r.ScalarElement(last, Str(t))]);
      }
    }
  }

  lemma GroupShrinks(r: Renderer, name: string, fields: seq<string>, v: Json)
    requires v.Obj?
    ensures Shrinks(r.StructuredItem(name, fields, v),
      r.StructuredItem(name, fields, Obj(ReadBody(r, fields, v.fields))))
  {
    hide Cost, ReadBody;
    var body, again := r.Body(fields, v.fields), r.Body(fields, ReadBody(r, fields, v.fields));
    BodyShrinks(r, fields, fields, v.fields);
    if r.StructuredItem(name, fields, v) == [] {
      EmptyBodyStays(r, fields, v.fields);
    }
    CostIsPositive(0);
    WeightOfOne(Element(Tag(name), "", body));
    WeightOfOne(Element(Tag(name), "", again));
  }

  /** What renders to nothing is read as nothing. */
  lemma EmptyBodyStays(r: Renderer, fields: seq<string>, value: map<string, Json>)
    requires value == map[] || r.Body(fields, value) == []
    ensures r.Body(fields, ReadBody(r, fields, value)) == []
  {
    BodyShrinks(r, fields, fields, value);
    if value == map[] { assert ReadBody(r, fields, value) == map[]; BodyOfNothing(r, fields); }
  }

  lemma {:induction false} BodyOfNothing(r: Renderer, fields: seq<string>)
    ensures r.Body(fields, map[]) == []
  {
    if fields != [] { BodyOfNothing(r, fields[..|fields| - 1]); }
  }

  lemma {:induction false} GroupsShrink(r: Renderer, name: string, fields: seq<string>, items: seq<Json>)
    requires forall i, j :: 0 <= i < j < |fields| ==> fields[i] != fields[j]
    ensures Shrinks(r.StructuredItems(name, fields, items),
      r.StructuredItems(name, fields, ReadGroups(r, name, fields, items)))
  {
    hide Shrinks, Values, ReadBody;
    if items == [] {
      NothingShrinks();
      NothingRead(name);
    } else {
      var rest, last := items[..|items| - 1], items[|items| - 1];
      var before, own := r.StructuredItems(name, fields, rest), r.StructuredItem(name, fields, last);
      var read := ReadGroups(r, name, fields, rest);
      var again := r.StructuredItems(name, fields, read);
      GroupsShrink(r, name, fields, rest);
      ValuesOfConcat(before, own, name);
      if own == [] {
        assert before + own == before;
        NothingRead(name);
        assert read + [] == read;
      } else {
        GroupAgain(r, name, fields, last);
        GroupShrinks(r, name, fields, last);
        var w := Obj(ReadBody(r, fields, last.fields));
        assert (read + [w])[..|read|] == read;
        Joined(before, again, own, r.StructuredItem(name, fields, w));
      }
    }
  }

  // ----- Attributes, items, feeds -----

  lemma AttributeShrinks(r: Renderer, name: string, v: Json)
    requires r.Valid() && name in r.attributes && r.RenderAttribute(name, v).Some?
    ensures
      var es := r.RenderAttribute(name, v).value;
      Again(r, name, es).Some? && Shrinks(es, Again(r, name, es).value)
  {
    hide Shrinks;
    match r.attributes[name].kind
    case Scalar => ScalarShrinks(r, name, v);
    case RepeatedScalar => RepeatedScalarShrinks(r, name, v);
    case Structured => StructuredShrinks(r, name, v);
    case RepeatedStructured => RepeatedStructuredShrinks(r, name, v);
  }

  lemma ScalarShrinks(r: Renderer, name: string, v: Json)
    requires name in r.attributes && r.attributes[name].kind.Scalar?
    ensures
      var es := r.RenderAttribute(name, v).value;
      Again(r, name, es).Some? && Shrinks(es, Again(r, name, es).value)
  {
    hide Trim, Shrinks;
    StripNsOfTag(name);
    var e := r.ScalarElement(name, v);
    ValuesOneMore([], e, name);
    assert [] + [e] == [e] && Values([], name) == [];
    TextShrinks(r, name, v);
  }

  lemma StructuredShrinks(r: Renderer, name: string, v: Json)
    requires r.Valid() && name in r.attributes && r.attributes[name].kind.Structured?
    requires r.RenderAttribute(name, v).Some?
    ensures
      var es := r.RenderAttribute(name, v).value;
      Again(r, name, es).Some? && Shrinks(es, Again(r, name, es).value)
  {
    hide Trimmed, TrimmedGroups, ReadBody, Shrinks;
    var fields := r.attributes[name].fields;
    NothingShrinks();
    if r.StructuredItem(name, fields, v) != [] {
      GroupAgain(r, name, fields, v);
      GroupShrinks(r, name, fields, v);
    } else {
      NothingRead(name);
    }
  }

  lemma RepeatedStructuredShrinks(r: Renderer, name: string, v: Json)
    requires r.Valid() && name in r.attributes && r.attributes[name].kind.RepeatedStructured?
    requires r.RenderAttribute(name, v).Some?
    ensures
      var es := r.RenderAttribute(name, v).value;
      Again(r, name, es).Some? && Shrinks(es, Again(r, name, es).value)
  {
    hide TrimmedGroups, Values, Shrinks, Weight;
    var fields := r.attributes[name].fields;
    var items := r.Iterate(v).value;
    var es, values := r.StructuredItems(name, fields, items), ReadGroups(r, name, fields, items);
    GroupsAgain(r, name, fields, items);
    GroupsShrink(r, name, fields, items);
    if |values| == 0 {
      assert values == [];
    } else if |values| == 1 {
      SingleGroupGoes(r, name, es, values[0]);
      GoneShrinks(es);
    }
  }

  /** A single group is read back as a bare dictionary, whose keys render to nothing. */
  lemma SingleGroupGoes(r: Renderer, name: string, es: seq<Element>, value: Json)
    requires name in r.attributes && r.attributes[name].kind.RepeatedStructured?
    requires Values(es, name) == [value] && value.Obj?
    ensures Again(r, name, es) == Some([])
  {
    hide Values;
    if value.fields != map[] { NoItems(r, name, r.attributes[name].fields, r.Iterate(value).value); }
  }

  lemma GoneShrinks(es: seq<Element>)
    ensures Shrinks(es, [])
  {
  }

  lemma {:induction false} AttributesShrink(r: Renderer, p: Product, q: Product, names: seq<string>)
    requires r.Valid() && r.RenderItem(p).Some? && ParseItem(r.RenderItem(p).value) == Some(q)
    requires forall name :: name in names ==> name in r.order
    ensures r.RenderAttributes(p, names).Some? && r.RenderAttributes(q, names).Some?
    ensures Shrinks(r.RenderAttributes(p, names).value, r.RenderAttributes(q, names).value)
  {
    hide Shrinks, ParseItem, Renderer.RenderAttribute, Renderer.RenderItem, Again, Settled;
    if names == [] {
      NothingShrinks();
    } else {
      var rest, name := names[..|names| - 1], names[|names| - 1];
      AttributesShrink(r, p, q, rest);
      PieceAgain(r, p, q, name);
      var before, again := r.RenderAttributes(p, rest).value, r.RenderAttributes(q, rest).value;
      var own, own' := Piece(r, p, name).value, Piece(r, q, name).value;
      if r.Shown(p, name) { AttributeShrinks(r, name, p[name]); } else { NothingShrinks(); }
      Joined(before, again, own, own');
      assert before + [] == before && again + [] == again;
    }
  }

  /** Reading and rendering a product makes its elements lighter unless it leaves them as they are. */
  lemma ItemShrinks(r: Renderer, p: Product)
    requires r.Valid() && r.RenderItem(p).Some?
    ensures
      var q := ParseItem(r.RenderItem(p).value);
      && q.Some? && r.RenderItem(q.value).Some?
      && Shrinks(r.RenderItem(p).value, r.RenderItem(q.value).value)
  {
    hide Shrinks, ParseItem, Renderer.RenderAttributes;
    ItemAgainIff(r, p);
    AttributesShrink(r, p, ParseItem(r.RenderItem(p).value).value, r.order);
  }
}
