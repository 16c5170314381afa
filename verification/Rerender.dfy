/** When rendering what was read from a rendered feed gives the same feed again, byte for byte:
    the question a rollback asks. */
module Rerender {
  import opened AttributeKinds
  import opened Hashing
  import opened FeedXml
  import opened RoundTrip
  import opened Wrappers

  predicate TrimmedTexts(es: seq<Element>) {
    forall i :: 0 <= i < |es| ==> Trimmed(es[i].text)
  }

  predicate TrimmedGroups(es: seq<Element>) {
    forall i :: 0 <= i < |es| ==> TrimmedTexts(es[i].children)
  }

  /** The elements of one attribute that rendering leaves alone: no text blank or with spaces at
      an end, and no single element under a repeated attribute, unless it is one letter. */
  predicate Settled(kind: Kind, es: seq<Element>) {
    match kind
    case Scalar => TrimmedTexts(es)
    case RepeatedScalar => TrimmedTexts(es) && (|es| == 1 ==> |es[0].text| == 1)
    case Structured => TrimmedGroups(es)
    case RepeatedStructured => TrimmedGroups(es) && |es| != 1
  }

  /** The elements of one attribute, read and rendered again. */
  function Again(r: Renderer, name: string, es: seq<Element>): Option<seq<Element>>
    requires name in r.attributes
  {
    var w := Collapse(Values(es, name));
    if w.None? || IsEmpty(w.value) then Some([]) else r.RenderAttribute(name, w.value)
  }

  lemma TrimmedOneMore(es: seq<Element>, e: Element)
    ensures TrimmedTexts(es + [e]) <==> TrimmedTexts(es) && Trimmed(e.text)
    ensures TrimmedGroups(es + [e]) <==> TrimmedGroups(es) && TrimmedTexts(e.children)
  {
    hide Trimmed;
    var longer := es + [e];
    assert longer[|es|] == e && forall i :: 0 <= i < |es| ==> longer[i] == es[i];
    forall i | 0 <= i < |longer| && TrimmedTexts(es) && Trimmed(e.text) ensures Trimmed(longer[i].text) {
      assert i == |es| || longer[i] == es[i];
    }
  }

  // ----- Lists of scalars -----

  lemma ScalarItemsOneMore(r: Renderer, name: string, items: seq<Json>, last: Json)
    ensures r.ScalarItems(name, items + [last]) ==
      r.ScalarItems(name, items) + (if IsEmpty(last) then [] else [r.ScalarElement(name, last)])
  {
    assert (items + [last])[..|items|] == items;
  }

  lemma {:induction false} ScalarItemsAgain(r: Renderer, name: string, items: seq<Json>)
    ensures |ReadTexts(r, items)| <= |r.ScalarItems(name, items)|
    ensures |r.ScalarItems(name, ReadTexts(r, items))| == |ReadTexts(r, items)|
    ensures r.ScalarItems(name, ReadTexts(r, items)) == r.ScalarItems(name, items) <==>
      TrimmedTexts(r.ScalarItems(name, items))
  {
    hide Trim, Trimmed, TrimmedTexts;
    if items != [] {
      var rest, last := items[..|items| - 1], items[|items| - 1];
      ScalarItemsAgain(r, name, rest);
      var before := r.ScalarItems(name, rest);
      if IsEmpty(last) {
        assert r.ScalarItems(name, items) == before + [] == before;
        assert ReadTexts(r, items) == ReadTexts(r, rest) + [] == ReadTexts(r, rest);
      } else {
        ScalarItemAgain(r, name, items, rest, last);
      }
    } else {
      NoTexts();
    }
  }

  lemma NoTexts()
    ensures TrimmedTexts([]) && TrimmedGroups([])
  {
  }

  lemma ScalarItemAgain(r: Renderer, name: string, items: seq<Json>, rest: seq<Json>, last: Json)
    requires items == rest + [last] && !IsEmpty(last)
    requires |ReadTexts(r, rest)| <= |r.ScalarItems(name, rest)|
    requires |r.ScalarItems(name, ReadTexts(r, rest))| == |ReadTexts(r, rest)|
    requires r.ScalarItems(name, ReadTexts(r, rest)) == r.ScalarItems(name, rest) <==>
      TrimmedTexts(r.ScalarItems(name, rest))
    ensures |ReadTexts(r, items)| <= |r.ScalarItems(name, items)|
    ensures |r.ScalarItems(name, ReadTexts(r, items))| == |ReadTexts(r, items)|
    ensures r.ScalarItems(name, ReadTexts(r, items)) == r.ScalarItems(name, items) <==>
      TrimmedTexts(r.ScalarItems(name, items))
  {
    hide Trim, Trimmed, TrimmedTexts;
    assert items[..|items| - 1] == rest;
    var before, e, again := r.ScalarItems(name, rest), r.ScalarElement(name, last), ReadTexts(r, rest);
    var t := r.Text(last);
    TrimFixes(t);
    TrimmedOneMore(before, e);
    assert r.ScalarItems(name, items) == before + [e];
    if Trim(t) == "" {
      assert ReadTexts(r, items) == again + [] == again;
    } else {
      assert ReadTexts(r, items) == again + [Str(Trim(t))];
      ScalarItemsOneMore(r, name, again, Str(Trim(t)));
      var rebuilt := r.ScalarElement(name, Str(Trim(t)));
      AppendInjective(r.ScalarItems(name, again), before, e, r.ScalarItems(name, again) + [rebuilt]);
      assert r.ScalarItems(name, again) + [rebuilt] == r.ScalarItems(name, again) + [e] <==> rebuilt == e by {
        assert (r.ScalarItems(name, again) + [rebuilt])[|again|] == rebuilt;
        assert (r.ScalarItems(name, again) + [e])[|again|] == e;
      }
    }
  }

  lemma {:induction false} ReadsFirst(r: Renderer, items: seq<Json>)
    requires items != [] && !IsEmpty(items[0]) && Trim(r.Text(items[0])) != ""
    ensures |ReadTexts(r, items)| >= 1
  {
    hide Trim;
    if |items| > 1 { ReadsFirst(r, items[..|items| - 1]); }
  }

  /** A trimmed text of two letters or more has at least two letters that are read. */
  lemma LettersRead(r: Renderer, t: string)
    requires Trimmed(t) && |t| >= 2
    ensures |ReadTexts(r, Letters(t))| >= 2
  {
    hide Trim, Trimmed;
    TrimmedEnds(t);
    TrimFixes([t[0]]);
    TrimFixes([t[|t| - 1]]);
    var items := Letters(t);
    assert r.Text(items[0]) == [t[0]] && r.Text(items[|t| - 1]) == [t[|t| - 1]];
    ReadsFirst(r, items[..|t| - 1]);
  }

  lemma TrimmedEnds(t: string)
    requires Trimmed(t)
    ensures Trimmed([t[0]]) && Trimmed([t[|t| - 1]])
  {
  }

  lemma {:induction false} LettersRender(r: Renderer, name: string, t: string)
    ensures |r.ScalarItems(name, Letters(t))| == |t|
  {
    if t != "" {
      var rest := t[..|t| - 1];
      LettersRender(r, name, rest);
      assert Letters(t)[..|t| - 1] == Letters(rest);
    }
  }

  lemma {:induction false} ReadTextsAreClean(r: Renderer, items: seq<Json>)
    ensures AllClean(ReadTexts(r, items))
  {
    hide Trim, CleanText;
    if items != [] {
      var rest, last := items[..|items| - 1], items[|items| - 1];
      ReadTextsAreClean(r, rest);
      TextReadsIff(r, last);
      if !IsEmpty(last) && Trim(r.Text(last)) != "" {
        AllCleanOneMore(ReadTexts(r, rest), Str(Trim(r.Text(last))));
      } else {
        assert ReadTexts(r, items) == ReadTexts(r, rest) + [] == ReadTexts(r, rest);
      }
    }
  }

  /** One text read back is rendered letter by letter. */
  lemma LettersAgain(r: Renderer, name: string, items: seq<Json>, t: string)
    requires ReadTexts(r, items) == [Str(t)]
    ensures r.ScalarItems(name, Letters(t)) == r.ScalarItems(name, items) <==>
      Settled(RepeatedScalar, r.ScalarItems(name, items))
  {
    hide Trim, Trimmed, ReadTexts;
    var es := r.ScalarItems(name, items);
    ScalarItemsAgain(r, name, items);
    LettersRender(r, name, t);
    ReadTextsAreClean(r, items);
    assert CleanText(ReadTexts(r, items)[0]);
    assert |r.ScalarItems(name, [Str(t)])| == 1 && r.ScalarItems(name, [Str(t)])[0].text == t;
    if |t| == 1 {
      assert [t[0]] == t;
      assert Letters(t) == [Str(t)];
    } else {
      TrimmedIsNotBlank(t);
      LettersRead(r, t);
      ScalarItemsRead(r, name, items);
      ScalarItemsRead(r, name, Letters(t));
    }
  }

  lemma TrimmedIsNotBlank(t: string)
    ensures Trimmed(t) ==> t != ""
  {
  }

  lemma RepeatedScalarAgainIff(r: Renderer, name: string, v: Json)
    requires name in r.attributes && r.attributes[name].kind == RepeatedScalar
    requires r.RenderAttribute(name, v).Some?
    ensures
      var es := r.RenderAttribute(name, v).value;
      Again(r, name, es).Some? && (Again(r, name, es).value == es <==> Settled(RepeatedScalar, es))
  {
    hide Trim, Trimmed, TrimmedTexts, ReadTexts, Values;
    var items := r.Iterate(v).value;
    var es, values := r.ScalarItems(name, items), ReadTexts(r, items);
    ScalarItemsAgain(r, name, items);
    ScalarItemsRead(r, name, items);
    ReadTextsAreClean(r, items);
    if |values| == 0 {
      assert values == [] && r.ScalarItems(name, []) == [];
      NoTexts();
    } else if |values| == 1 {
      assert AllClean(values) && CleanText(values[0]);
      TrimmedIsNotBlank(values[0].text);
      assert r.Iterate(values[0]).value == Letters(values[0].text);
      LettersAgain(r, name, items, values[0].text);
    }
  }

  lemma ScalarAgainIff(r: Renderer, name: string, v: Json)
    requires name in r.attributes && r.attributes[name].kind == Scalar
    ensures
      var es := r.RenderAttribute(name, v).value;
      Again(r, name, es).Some? && (Again(r, name, es).value == es <==> Settled(Scalar, es))
  {
    hide Trim, Trimmed;
    StripNsOfTag(name);
    var e := r.ScalarElement(name, v);
    ValuesOneMore([], e, name);
    assert [] + [e] == [e] && Values([], name) == [];
    TrimFixes(r.Text(v));
  }

  // ----- Dictionaries -----

  lemma {:induction false} BodyAgain(r: Renderer, fields: seq<string>, sub: seq<string>, value: map<string, Json>)
    requires forall k :: k in sub ==> k in fields
    ensures |r.Body(sub, ReadBody(r, fields, value))| <= |r.Body(sub, value)|
    ensures r.Body(sub, ReadBody(r, fields, value)) == r.Body(sub, value) <==> TrimmedTexts(r.Body(sub, value))
  {
    hide Trim, Trimmed, TrimmedTexts;
    if sub != [] {
      var rest, last := sub[..|sub| - 1], sub[|sub| - 1];
      BodyAgain(r, fields, rest, value);
      var before, again := r.Body(rest, value), r.Body(rest, ReadBody(r, fields, value));
      if last in value && !IsEmpty(value[last]) {
        BodyFieldAgain(r, fields, sub, value);
      } else {
        assert r.Body(sub, value) == before + [] == before;
        assert r.Body(sub, ReadBody(r, fields, value)) == again + [] == again;
      }
    } else {
      NoTexts();
    }
  }

  lemma BodyFieldAgain(r: Renderer, fields: seq<string>, sub: seq<string>, value: map<string, Json>)
    requires sub != [] && sub[|sub| - 1] in fields && sub[|sub| - 1] in value && !IsEmpty(value[sub[|sub| - 1]])
    requires
      var rest := sub[..|sub| - 1];
      && |r.Body(rest, ReadBody(r, fields, value))| <= |r.Body(rest, value)|
      && (r.Body(rest, ReadBody(r, fields, value)) == r.Body(rest, value) <==> TrimmedTexts(r.Body(rest, value)))
    ensures |r.Body(sub, ReadBody(r, fields, value))| <= |r.Body(sub, value)|
    ensures r.Body(sub, ReadBody(r, fields, value)) == r.Body(sub, value) <==> TrimmedTexts(r.Body(sub, value))
  {
    hide Trim, Trimmed, TrimmedTexts;
    var rest, last := sub[..|sub| - 1], sub[|sub| - 1];
    var before, again := r.Body(rest, value), r.Body(rest, ReadBody(r, fields, value));
    var e, t := r.ScalarElement(last, value[last]), r.Text(value[last]);
    TrimFixes(t);
    TrimmedOneMore(before, e);
    assert r.Body(sub, value) == before + [e];
    if Trim(t) == "" {
      assert r.Body(sub, ReadBody(r, fields, value)) == again + [] == again;
    } else {
      var rebuilt := r.ScalarElement(last, Str(Trim(t)));
      assert r.Body(sub, ReadBody(r, fields, value)) == again + [rebuilt];
      AppendInjective(again, before, e, again + [rebuilt]);
      LastsEqual(again, rebuilt, e);
    }
  }

  lemma LastsEqual<T>(s: seq<T>, a: T, b: T)
    ensures s + [a] == s + [b] <==> a == b
  {
    assert (s + [a])[|s|] == a && (s + [b])[|s|] == b;
  }

  /** One dictionary read back and rendered again. */
  lemma GroupAgain(r: Renderer, name: string, fields: seq<string>, v: Json)
    requires forall i, j :: 0 <= i < j < |fields| ==> fields[i] != fields[j]
    requires r.StructuredItem(name, fields, v) != []
    ensures v.Obj? && Values(r.StructuredItem(name, fields, v), name) == [Obj(ReadBody(r, fields, v.fields))]
    ensures
      var again := r.StructuredItem(name, fields, Obj(ReadBody(r, fields, v.fields)));
      && |again| <= 1
      && (again == r.StructuredItem(name, fields, v) <==> TrimmedGroups(r.StructuredItem(name, fields, v)))
  {
    hide Trimmed;
    StripNsOfTag(name);
    var es, q := r.StructuredItem(name, fields, v), ReadBody(r, fields, v.fields);
    BodyReads(r, fields, v.fields);
    BodyAgain(r, fields, fields, v.fields);
    assert es[..0] == [];
    assert Values(es, name) == [Obj(q)];
    BodyIsEmptyIff(r, fields, q);
    TrimmedOneMore([], es[0]);
    NoTexts();
    assert [] + [es[0]] == es;
  }

  lemma StructuredAgainIff(r: Renderer, name: string, v: Json)
    requires r.Valid() && name in r.attributes && r.attributes[name].kind == Structured
    requires r.RenderAttribute(name, v).Some?
    ensures
      var es := r.RenderAttribute(name, v).value;
      Again(r, name, es).Some? && (Again(r, name, es).value == es <==> Settled(Structured, es))
  {
    hide Trimmed, TrimmedGroups, ReadBody;
    var fields := r.attributes[name].fields;
    if r.StructuredItem(name, fields, v) != [] {
      GroupAgain(r, name, fields, v);
    } else {
      NoTexts();
    }
  }

  /** What every item of a list of dictionaries reads back as. */
  function ReadGroups(r: Renderer, name: string, fields: seq<string>, items: seq<Json>): seq<Json> {
    Values(r.StructuredItems(name, fields, items), name)
  }

  lemma {:induction false} GroupsAgain(r: Renderer, name: string, fields: seq<string>, items: seq<Json>)
    requires forall i, j :: 0 <= i < j < |fields| ==> fields[i] != fields[j]
    ensures |ReadGroups(r, name, fields, items)| == |r.StructuredItems(name, fields, items)|
    ensures |r.StructuredItems(name, fields, ReadGroups(r, name, fields, items))| <=
      |ReadGroups(r, name, fields, items)|
    ensures r.StructuredItems(name, fields, ReadGroups(r, name, fields, items)) ==
      r.StructuredItems(name, fields, items)
      <==> TrimmedGroups(r.StructuredItems(name, fields, items))
    ensures forall i :: 0 <= i < |ReadGroups(r, name, fields, items)| ==> ReadGroups(r, name, fields, items)[i].Obj?
  {
    hide TrimmedGroups, Values, ReadBody;
    if items != [] {
      var rest, last := items[..|items| - 1], items[|items| - 1];
      GroupsAgain(r, name, fields, rest);
      var before, own := r.StructuredItems(name, fields, rest), r.StructuredItem(name, fields, last);
      ValuesOfConcat(before, own, name);
      if own == [] {
        assert before + own == before;
      } else {
        GroupAgain(r, name, fields, last);
        var read, w := ReadGroups(r, name, fields, rest), Obj(ReadBody(r, fields, last.fields));
        assert ReadGroups(r, name, fields, items) == read + [w];
        assert (read + [w])[..|read|] == read;
        var again, extra := r.StructuredItems(name, fields, read), r.StructuredItem(name, fields, w);
        assert r.StructuredItems(name, fields, read + [w]) == again + extra;
        TrimmedOneMore(before, own[0]);
        TrimmedOneMore([], own[0]);
        NoTexts();
        assert own == [own[0]] && [] + [own[0]] == own;
        if |extra| == 0 {
          assert again + extra == again;
        } else {
          assert extra == [extra[0]];
          AppendInjective(again, before, own[0], again + extra);
          LastsEqual(again, extra[0], own[0]);
        }
      }
    } else {
      NoTexts();
      NothingRead(name);
    }
  }

  lemma NothingRead(name: string)
    ensures Values([], name) == []
  {
  }

  lemma RepeatedStructuredAgainIff(r: Renderer, name: string, v: Json)
    requires r.Valid() && name in r.attributes && r.attributes[name].kind == RepeatedStructured
    requires r.RenderAttribute(name, v).Some?
    ensures
      var es := r.RenderAttribute(name, v).value;
      Again(r, name, es).Some? && (Again(r, name, es).value == es <==> Settled(RepeatedStructured, es))
  {
    hide TrimmedGroups, Values;
    var fields := r.attributes[name].fields;
    var items := r.Iterate(v).value;
    var values := ReadGroups(r, name, fields, items);
    GroupsAgain(r, name, fields, items);
    if |values| == 0 {
      NoTexts();
    } else if |values| == 1 {
      assert values[0].Obj?;
      if values[0].fields != map[] {
        var letters := r.Iterate(values[0]);
        NoItems(r, name, fields, letters.value);
      }
    }
  }

  /** Reading and rendering the elements of an attribute never raises, and gives the same
      elements exactly when they are settled. */
  lemma AgainIff(r: Renderer, name: string, v: Json)
    requires r.Valid() && name in r.attributes && r.RenderAttribute(name, v).Some?
    ensures
      var es := r.RenderAttribute(name, v).value;
      && Again(r, name, es).Some?
      && (Again(r, name, es).value == es <==> Settled(r.attributes[name].kind, es))
  {
    match r.attributes[name].kind
    case Scalar => ScalarAgainIff(r, name, v);
    case RepeatedScalar => RepeatedScalarAgainIff(r, name, v);
    case Structured => StructuredAgainIff(r, name, v);
    case RepeatedStructured => RepeatedStructuredAgainIff(r, name, v);
  }

  // ----- Whole items -----

  /** The elements one attribute of a product contributes. */
  function Piece(r: Renderer, p: Product, name: string): Option<seq<Element>> {
    if r.Shown(p, name) then r.RenderAttribute(name, p[name]) else Some([])
  }

  function Own(es: seq<Element>, name: string): seq<Element> {
    if es == [] then []
    else
      var last := es[|es| - 1];
      Own(es[..|es| - 1], name) + (if StripNs(last.tag) == name then [last] else [])
  }

  lemma {:induction false} OwnOfConcat(a: seq<Element>, b: seq<Element>, name: string)
    ensures Own(a + b, name) == Own(a, name) + Own(b, name)
  {
    if b == [] {
      assert a + b == a;
    } else {
      var rest := b[..|b| - 1];
      assert (a + b)[..|a + b| - 1] == a + rest;
      OwnOfConcat(a, rest, name);
    }
  }

  lemma {:induction false} OwnOfTagged(es: seq<Element>, tag: string, name: string)
    requires TaggedAll(es, tag)
    ensures Own(es, name) == if tag == name then es else []
  {
    if es != [] {
      assert es[|es| - 1] in es;
      OwnOfTagged(es[..|es| - 1], tag, name);
    }
  }

  lemma PieceTagged(r: Renderer, p: Product, name: string)
    requires Piece(r, p, name).Some?
    ensures TaggedAll(Piece(r, p, name).value, name)
  {
    if r.Shown(p, name) { AttributeTagged(r, name, p[name]); }
  }

  /** The elements of an item under one name are those of that attribute. */
  lemma {:induction false} OwnIsPiece(r: Renderer, p: Product, names: seq<string>, name: string)
    requires forall i, j :: 0 <= i < j < |names| ==> names[i] != names[j]
    requires r.RenderAttributes(p, names).Some?
    ensures name in names ==>
      Piece(r, p, name).Some? && Own(r.RenderAttributes(p, names).value, name) == Piece(r, p, name).value
    ensures name !in names ==> Own(r.RenderAttributes(p, names).value, name) == []
  {
    hide Renderer.RenderAttribute;
    if names != [] {
      var rest, last := names[..|names| - 1], names[|names| - 1];
      assert names == rest + [last];
      OwnIsPiece(r, p, rest, name);
      var before, own := r.RenderAttributes(p, rest).value, Piece(r, p, last).value;
      assert before + [] == before;
      assert r.RenderAttributes(p, names).value == before + own;
      PieceTagged(r, p, last);
      OwnOfConcat(before, own, name);
      OwnOfTagged(own, last, name);
    }
  }

  lemma {:induction false} SamePieces(r: Renderer, p: Product, q: Product, names: seq<string>)
    requires forall name :: name in names ==> Piece(r, p, name) == Piece(r, q, name)
    ensures r.RenderAttributes(p, names) == r.RenderAttributes(q, names)
  {
    hide Renderer.RenderAttribute;
    if names != [] {
      var rest, last := names[..|names| - 1], names[|names| - 1];
      assert names == rest + [last];
      SamePieces(r, p, q, rest);
      assert Piece(r, p, last) == Piece(r, q, last);
      if r.RenderAttributes(p, rest).Some? {
        assert r.RenderAttributes(p, rest).value + [] == r.RenderAttributes(p, rest).value;
      }
    }
  }

  /** Two products render alike exactly when each attribute of theirs does. */
  lemma RenderAlikeIff(r: Renderer, p: Product, q: Product)
    requires r.Valid() && r.RenderItem(p).Some? && r.RenderItem(q).Some?
    ensures r.RenderItem(p) == r.RenderItem(q) <==>
      forall name :: name in r.order ==> Piece(r, p, name) == Piece(r, q, name)
  {
    hide Renderer.RenderAttribute, Renderer.RenderAttributes, Piece;
    if r.RenderItem(p) == r.RenderItem(q) {
      forall name | name in r.order ensures Piece(r, p, name) == Piece(r, q, name) {
        OwnIsPiece(r, p, r.order, name);
        OwnIsPiece(r, q, r.order, name);
      }
    }
    if forall name :: name in r.order ==> Piece(r, p, name) == Piece(r, q, name) { SamePieces(r, p, q, r.order); }
  }

  ghost predicate SettledItem(r: Renderer, p: Product) {
    forall name :: r.Shown(p, name) && r.RenderAttribute(name, p[name]).Some? ==>
      Settled(r.attributes[name].kind, r.RenderAttribute(name, p[name]).value)
  }

  lemma PieceAgain(r: Renderer, p: Product, q: Product, name: string)
    requires r.Valid() && name in r.order && r.RenderItem(p).Some? && ParseItem(r.RenderItem(p).value) == Some(q)
    ensures Piece(r, p, name).Some? && Piece(r, q, name).Some?
    ensures Piece(r, q, name) == if r.Shown(p, name) then Again(r, name, Piece(r, p, name).value) else Some([])
    ensures Piece(r, p, name) == Piece(r, q, name) <==>
      (r.Shown(p, name) ==> Settled(r.attributes[name].kind, Piece(r, p, name).value))
  {
    hide Settled, Collapse, Values, ParseItem;
    ReadsBackAt(r, p, name);
    RendersIff(r, p, r.order);
    if r.Shown(p, name) {
      AgainIff(r, name, p[name]);
      assert Piece(r, q, name) == Again(r, name, Piece(r, p, name).value);
    }
  }

  /** Rendering what was read from a rendered product never raises, and gives the same elements
      exactly when they are settled. */
  lemma ItemAgainIff(r: Renderer, p: Product)
    requires r.Valid() && r.RenderItem(p).Some?
    ensures
      var q := ParseItem(r.RenderItem(p).value);
      && q.Some? && r.RenderItem(q.value).Some?
      && (r.RenderItem(q.value) == r.RenderItem(p) <==> SettledItem(r, p))
  {
    hide Settled, ParseItem, Renderer.RenderAttributes;
    RenderedItemsParse(r, p);
    var q := ParseItem(r.RenderItem(p).value).value;
    forall name | name in r.order
      ensures Piece(r, p, name).Some? && Piece(r, q, name).Some?
      ensures Piece(r, p, name) == Piece(r, q, name) <==>
        (r.Shown(p, name) ==> Settled(r.attributes[name].kind, Piece(r, p, name).value))
    {
      PieceAgain(r, p, q, name);
    }
    RendersIff(r, q, r.order);
    forall name | name in r.order && r.Shown(q, name) ensures r.RenderAttribute(name, q[name]).Some? {
      assert Piece(r, q, name).Some?;
    }
    RenderAlikeIff(r, p, q);
    SettledPieces(r, p);
  }

  lemma SettledPieces(r: Renderer, p: Product)
    requires r.Valid() && forall name :: name in r.order ==> Piece(r, p, name).Some?
    ensures SettledItem(r, p) <==> forall name :: name in r.order ==>
      (r.Shown(p, name) ==> Settled(r.attributes[name].kind, Piece(r, p, name).value))
  {
    hide Settled;
    if SettledItem(r, p) {
      forall name | name in r.order && r.Shown(p, name)
        ensures Settled(r.attributes[name].kind, Piece(r, p, name).value)
      {
        assert r.RenderAttribute(name, p[name]).Some?;
      }
    }
    if forall name :: name in r.order ==>
      (r.Shown(p, name) ==> Settled(r.attributes[name].kind, Piece(r, p, name).value))
    {
      forall name | r.Shown(p, name) && r.RenderAttribute(name, p[name]).Some?
        ensures Settled(r.attributes[name].kind, r.RenderAttribute(name, p[name]).value)
      {
        assert name in r.order;
        assert Piece(r, p, name).Some?;
      }
    }
  }
}
