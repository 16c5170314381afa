/** Which elements a rendered product has: those of its exported attributes, in registry order. */
module RenderMeaning {
  import opened FeedXml
  import opened Hashing
  import opened Wrappers

  /** `at` lists the wanted positions, in order. */
  ghost predicate Lists(at: seq<nat>, wanted: set<nat>) {
    && (forall i, j :: 0 <= i < j < |at| ==> at[i] < at[j])
    && (forall n: nat :: n in at <==> n in wanted)
  }

  lemma ListsOneMore(at: seq<nat>, wanted: set<nat>, n: nat)
    requires Lists(at, wanted) && forall m :: m in wanted ==> m < n
    ensures Lists(at + [n], wanted + {n})
  {
    forall i | 0 <= i < |at| ensures at[i] < n { assert at[i] in at; }
  }

  ghost predicate IsBlank(v: Json) {
    v == Null || v == Str("") || v == Arr([]) || v == Obj(map[])
  }

  ghost predicate HasText(r: Renderer, e: Element, name: string, v: Json) {
    && e.tag == "{http://base.google.com/schemas/1.0}" + name && e.children == []
    && e.text == if v.Str? then v.text else r.show(v)
  }

  ghost function NotBlank(items: seq<Json>): set<nat> {
    set i: nat | i < |items| && !IsBlank(items[i])
  }

  /** One element for each item that is not blank, in order. */
  ghost predicate TextsShown(r: Renderer, name: string, items: seq<Json>, es: seq<Element>) {
    exists at :: Lists(at, NotBlank(items)) && TextsAt(r, name, items, es, at)
  }

  ghost predicate TextsAt(r: Renderer, name: string, items: seq<Json>, es: seq<Element>, at: seq<nat>) {
    && |es| == |at|
    && forall i :: 0 <= i < |at| ==> at[i] < |items| && HasText(r, es[i], name, items[at[i]])
  }

  ghost function FieldsShown(fields: seq<string>, value: map<string, Json>): set<nat> {
    set i: nat | i < |fields| && fields[i] in value && !IsBlank(value[fields[i]])
  }

  /** One element for each known sub-field that is not blank, in registry order. */
  ghost predicate FieldsAreShown(r: Renderer, fields: seq<string>, value: map<string, Json>, es: seq<Element>) {
    exists at :: Lists(at, FieldsShown(fields, value)) && FieldsAt(r, fields, value, es, at)
  }

  ghost predicate FieldsAt(r: Renderer, fields: seq<string>, value: map<string, Json>, es: seq<Element>, at: seq<nat>) {
    && |es| == |at|
    && forall i :: 0 <= i < |at| ==>
      at[i] < |fields| && fields[at[i]] in value && HasText(r, es[i], fields[at[i]], value[fields[at[i]]])
  }

  ghost function GroupsShown(fields: seq<string>, items: seq<Json>): set<nat> {
    set i: nat | i < |items| && items[i].Obj? && FieldsShown(fields, items[i].fields) != {}
  }

  ghost predicate IsGroup(r: Renderer, e: Element, name: string, fields: seq<string>, v: Json) {
    && v.Obj? && e.tag == "{http://base.google.com/schemas/1.0}" + name && e.text == ""
    && FieldsAreShown(r, fields, v.fields, e.children)
  }

  /** One element for each dictionary that shows some sub-field, in order. */
  ghost predicate GroupsAreShown(r: Renderer, name: string, fields: seq<string>, items: seq<Json>, es: seq<Element>) {
    exists at :: Lists(at, GroupsShown(fields, items)) && GroupsAt(r, name, fields, items, es, at)
  }

  ghost predicate GroupsAt(
    r: Renderer, name: string, fields: seq<string>, items: seq<Json>, es: seq<Element>, at: seq<nat>)
  {
    && |es| == |at|
    && forall i :: 0 <= i < |at| ==> at[i] < |items| && IsGroup(r, es[i], name, fields, items[at[i]])
  }

  /** What a loop over a value visits: items, the letters of a text, or the keys of a dictionary. */
  ghost predicate Visits(r: Renderer, v: Json, items: seq<Json>) {
    match v
    case Arr(list) => items == list
    case Str(s) => |items| == |s| && forall i :: 0 <= i < |s| ==> items[i] == Str([s[i]])
    case Obj(fields) =>
      var ks := r.keys(fields);
      |items| == |ks| && forall i :: 0 <= i < |ks| ==> items[i] == Str(ks[i])
    case _ => false
  }

  /** The elements of an attribute of each kind. */
  ghost predicate Renders(r: Renderer, name: string, attribute: Attribute, v: Json, es: seq<Element>) {
    match attribute.kind
    case Scalar => |es| == 1 && HasText(r, es[0], name, v)
    case RepeatedScalar => exists items :: Visits(r, v, items) && TextsShown(r, name, items, es)
    case Structured => v.Obj? && GroupsAreShown(r, name, attribute.fields, [v], es)
    case RepeatedStructured =>
      exists items :: Visits(r, v, items) && GroupsAreShown(r, name, attribute.fields, items, es)
  }

  // ----- The loops -----

  lemma {:induction false} TextsAreShown(r: Renderer, name: string, items: seq<Json>) returns (at: seq<nat>)
    ensures Lists(at, NotBlank(items)) && TextsAt(r, name, items, r.ScalarItems(name, items), at)
  {
    hide IsBlank, HasText;
    if items == [] {
      at := [];
    } else {
      var n := |items| - 1;
      at := TextsAreShown(r, name, items[..n]);
      ElementHasText(r, name, items[n]);
      assert NotBlank(items) == NotBlank(items[..n]) + if IsBlank(items[n]) then {} else {n};
      BlankIsEmpty(items[n]);
      if !IsBlank(items[n]) {
        ListsOneMore(at, NotBlank(items[..n]), n);
        at := at + [n];
      }
    }
  }

  lemma ElementHasText(r: Renderer, name: string, v: Json)
    ensures HasText(r, r.ScalarElement(name, v), name, v)
  {
  }

  lemma BlankIsEmpty(v: Json)
    ensures IsBlank(v) <==> IsEmpty(v)
  {
  }

  lemma {:induction false} BodyIsShown(r: Renderer, fields: seq<string>, value: map<string, Json>)
    returns (at: seq<nat>)
    ensures Lists(at, FieldsShown(fields, value)) && FieldsAt(r, fields, value, r.Body(fields, value), at)
  {
    hide IsBlank, HasText;
    if fields == [] {
      at := [];
    } else {
      var n := |fields| - 1;
      var before := FieldsShown(fields[..n], value);
      at := BodyIsShown(r, fields[..n], value);
      var shown := fields[n] in value && !IsBlank(value[fields[n]]);
      assert FieldsShown(fields, value) == before + if shown then {n} else {};
      if fields[n] in value {
        BlankIsEmpty(value[fields[n]]);
        ElementHasText(r, fields[n], value[fields[n]]);
      }
      if shown {
        ListsOneMore(at, before, n);
        at := at + [n];
      }
    }
  }

  lemma NothingListed(at: seq<nat>, wanted: set<nat>)
    requires Lists(at, wanted)
    ensures at == [] <==> wanted == {}
  {
    if at != [] { assert at[0] in at; }
    if n :| n in wanted { assert n in at; }
  }

  lemma ItemIsShown(r: Renderer, name: string, fields: seq<string>, v: Json)
    ensures
      var es := r.StructuredItem(name, fields, v);
      if v.Obj? && FieldsShown(fields, v.fields) != {} then |es| == 1 && IsGroup(r, es[0], name, fields, v)
        else es == []
  {
    hide Renderer.Body;
    if v.Obj? {
      var at := BodyIsShown(r, fields, v.fields);
      NothingListed(at, FieldsShown(fields, v.fields));
    }
  }

  lemma {:induction false} GroupsShownBy(r: Renderer, name: string, fields: seq<string>, items: seq<Json>)
    returns (at: seq<nat>)
    ensures Lists(at, GroupsShown(fields, items))
    ensures GroupsAt(r, name, fields, items, r.StructuredItems(name, fields, items), at)
  {
    hide FieldsShown, IsGroup, Renderer.StructuredItem;
    if items == [] {
      at := [];
    } else {
      var n := |items| - 1;
      var before := GroupsShown(fields, items[..n]);
      at := GroupsShownBy(r, name, fields, items[..n]);
      ItemIsShown(r, name, fields, items[n]);
      var shown := items[n].Obj? && FieldsShown(fields, items[n].fields) != {};
      assert GroupsShown(fields, items) == before + if shown then {n} else {};
      if shown {
        ListsOneMore(at, before, n);
        at := at + [n];
      }
    }
  }

  lemma IterateVisits(r: Renderer, v: Json)
    ensures r.Iterate(v).Some? ==> Visits(r, v, r.Iterate(v).value)
    ensures forall items :: Visits(r, v, items) ==> r.Iterate(v) == Some(items)
  {
    forall items | Visits(r, v, items) ensures r.Iterate(v) == Some(items) {
      assert r.Iterate(v).Some? && r.Iterate(v).value == items;
    }
  }

  /** Rendering an attribute gives the elements of its kind, or raises where a value of that kind
      cannot be visited. */
  lemma AttributeRenders(r: Renderer, name: string, v: Json)
    requires name in r.attributes
    ensures r.RenderAttribute(name, v).Some? ==>
      Renders(r, name, r.attributes[name], v, r.RenderAttribute(name, v).value)
    ensures r.RenderAttribute(name, v).None? <==>
      match r.attributes[name].kind
      case Scalar => false
      case Structured => !v.Obj?
      case _ => !(v.Arr? || v.Str? || v.Obj?)
  {
    hide Renderer.Iterate, Visits, Renderer.StructuredItem, Renderer.ScalarItems, HasText;
    var attribute := r.attributes[name];
    IterateVisits(r, v);
    VisitsIff(r, v);
    match attribute.kind {
      case Scalar => ElementHasText(r, name, v);
      case RepeatedScalar =>
        if r.Iterate(v).Some? { var at := TextsAreShown(r, name, r.Iterate(v).value); }
      case Structured =>
        if v.Obj? {
          var at := GroupsShownBy(r, name, attribute.fields, [v]);
          OneItem(r, name, attribute.fields, v);
        }
      case RepeatedStructured =>
        if r.Iterate(v).Some? { var at := GroupsShownBy(r, name, attribute.fields, r.Iterate(v).value); }
    }
  }

  lemma VisitsIff(r: Renderer, v: Json)
    ensures r.Iterate(v).Some? <==> v.Arr? || v.Str? || v.Obj?
  {
  }

  lemma OneItem(r: Renderer, name: string, fields: seq<string>, v: Json)
    ensures r.StructuredItems(name, fields, [v]) == r.StructuredItem(name, fields, v)
  {
    assert [v][..0] == [];
    assert r.StructuredItems(name, fields, []) == [];
  }

  // ----- Products -----

  /** The attribute is exported, and the product has a value for it that is not blank. */
  ghost predicate Exported(r: Renderer, p: Product, name: string) {
    name in r.attributes && r.attributes[name].exportable && name in p && !IsBlank(p[name])
  }

  function Flat(parts: seq<seq<Element>>): seq<Element> {
    if parts == [] then [] else Flat(parts[..|parts| - 1]) + parts[|parts| - 1]
  }

  /** The elements of one attribute: none where it is not exported. */
  ghost predicate PartIs(r: Renderer, p: Product, name: string, part: seq<Element>) {
    if Exported(r, p, name) then Renders(r, name, r.attributes[name], p[name], part) else part == []
  }

  ghost predicate PartsAre(r: Renderer, p: Product, names: seq<string>, parts: seq<seq<Element>>) {
    |parts| == |names| && forall i :: 0 <= i < |names| ==> PartIs(r, p, names[i], parts[i])
  }

  /** The elements a name adds. */
  ghost function Own(r: Renderer, p: Product, name: string): Option<seq<Element>> {
    if r.Shown(p, name) then r.RenderAttribute(name, p[name]) else Some([])
  }

  lemma OwnIsPart(r: Renderer, p: Product, name: string)
    ensures Own(r, p, name).Some? ==> PartIs(r, p, name, Own(r, p, name).value)
  {
    hide Renders, Renderer.RenderAttribute, IsBlank;
    if name in p { BlankIsEmpty(p[name]); }
    if Exported(r, p, name) { AttributeRenders(r, name, p[name]); }
  }

  lemma OneMoreName(r: Renderer, p: Product, names: seq<string>)
    requires names != []
    ensures
      var before, own := r.RenderAttributes(p, names[..|names| - 1]), Own(r, p, names[|names| - 1]);
      r.RenderAttributes(p, names) ==
        if before.None? || own.None? then None else Some(before.value + own.value)
  {
    hide Renderer.RenderAttribute;
    var before := r.RenderAttributes(p, names[..|names| - 1]);
    if before.Some? { assert before.value + [] == before.value; }
  }

  lemma {:induction false} AttributesRender(r: Renderer, p: Product, names: seq<string>)
    returns (parts: seq<seq<Element>>)
    requires r.RenderAttributes(p, names).Some?
    ensures PartsAre(r, p, names, parts) && Flat(parts) == r.RenderAttributes(p, names).value
  {
    hide PartIs, Own;
    if names == [] {
      parts := [];
    } else {
      var n := |names| - 1;
      OneMoreName(r, p, names);
      hide Renderer.RenderAttributes;
      var before := AttributesRender(r, p, names[..n]);
      OwnIsPart(r, p, names[n]);
      parts := before + [Own(r, p, names[n]).value];
      assert parts[..n] == before;
    }
  }

  lemma {:induction false} AttributesRaise(r: Renderer, p: Product, names: seq<string>)
    ensures r.RenderAttributes(p, names).None? <==>
      exists name :: name in names && Exported(r, p, name) && r.RenderAttribute(name, p[name]).None?
  {
    hide Renderer.RenderAttribute, IsBlank;
    if names != [] {
      var n := |names| - 1;
      AttributesRaise(r, p, names[..n]);
      assert names == names[..n] + [names[n]];
      if names[n] in p { BlankIsEmpty(p[names[n]]); }
    }
  }

  /** A product is rendered as the elements of its exported attributes, in registry order, and
      rendering raises exactly when one of these cannot be rendered. */
  lemma ItemIsRendered(r: Renderer, p: Product)
    ensures r.RenderItem(p).Some? ==>
      exists parts :: PartsAre(r, p, r.order, parts) && r.RenderItem(p).value == Flat(parts)
    ensures r.RenderItem(p).None? <==>
      exists name :: name in r.order && Exported(r, p, name) && r.RenderAttribute(name, p[name]).None?
  {
    hide Exported, PartsAre;
    AttributesRaise(r, p, r.order);
    if r.RenderItem(p).Some? { var parts := AttributesRender(r, p, r.order); }
  }
}
