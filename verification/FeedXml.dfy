/** Rendering products as the items of an XML feed, and reading the items back. Documents are
    element trees: the text a parser reports is the unescaped text between the tags. */
module FeedXml {
  import opened AttributeKinds
  import opened Hashing
  import opened Wrappers

  datatype Element = Element(tag: string, text: string, children: seq<Element>)

  datatype Attribute = Attribute(kind: Kind, fields: seq<string>, exportable: bool)

  type Product = map<string, Json>

  // ----- Texts -----

  predicate IsSpace(c: char) {
    var n := c as int;
    9 <= n <= 13 || 28 <= n <= 32 || n == 0x85 || n == 0xA0 || n == 0x1680 || 0x2000 <= n <= 0x200A
    || n == 0x2028 || n == 0x2029 || n == 0x202F || n == 0x205F || n == 0x3000
  }

  function TrimLeft(s: string): string {
    if s != "" && IsSpace(s[0]) then TrimLeft(s[1..]) else s
  }

  function Trim(s: string): string {
    TrimRight(TrimLeft(s))
  }

  function TrimRight(s: string): string {
    if s != "" && IsSpace(s[|s| - 1]) then TrimRight(s[..|s| - 1]) else s
  }

  /** A text that survives trimming: not blank, and no space at either end. */
  predicate Trimmed(s: string) {
    s != "" && !IsSpace(s[0]) && !IsSpace(s[|s| - 1])
  }

  lemma TrimFixes(s: string)
    ensures Trim(s) == s && s != "" <==> Trimmed(s)
  {
    TrimShrinks(s);
  }

  lemma {:induction false} TrimLeftShrinks(s: string)
    ensures |TrimLeft(s)| <= |s|
    ensures TrimLeft(s) != "" ==> !IsSpace(TrimLeft(s)[0])
    ensures |TrimLeft(s)| == |s| ==> TrimLeft(s) == s
  {
    if s != "" && IsSpace(s[0]) { TrimLeftShrinks(s[1..]); }
  }

  lemma {:induction false} TrimRightShrinks(s: string)
    ensures |TrimRight(s)| <= |s|
    ensures TrimRight(s) == s[..|TrimRight(s)|]
    ensures TrimRight(s) != "" ==> !IsSpace(TrimRight(s)[|TrimRight(s)| - 1])
  {
    if s != "" && IsSpace(s[|s| - 1]) { TrimRightShrinks(s[..|s| - 1]); }
  }

  lemma TrimShrinks(s: string)
    ensures |Trim(s)| <= |s|
    ensures Trim(s) != "" ==> Trimmed(Trim(s))
    ensures |Trim(s)| == |s| ==> Trim(s) == s
  {
    TrimLeftShrinks(s);
    TrimRightShrinks(TrimLeft(s));
  }

  /** `_strip_ns`: what follows the first closing brace. */
  function StripNs(tag: string): string {
    var rest := AfterBrace(tag);
    if rest.Some? then rest.value else tag
  }

  function AfterBrace(tag: string): Option<string> {
    if tag == "" then None else if tag[0] == '}' then Some(tag[1..]) else AfterBrace(tag[1..])
  }

  const NAMESPACE := "{http://base.google.com/schemas/1.0}"

  /** The tag a parser reports for `<g:name>`. */
  function Tag(name: string): string {
    NAMESPACE + name
  }

  lemma {:induction false} AfterBraceSkips(head: string, tail: string)
    requires forall i :: 0 <= i < |head| ==> head[i] != '}'
    ensures AfterBrace(head + "}" + tail) == Some(tail)
  {
    var s := head + "}" + tail;
    if head == "" {
      assert s[1..] == tail;
    } else {
      assert s[1..] == head[1..] + "}" + tail;
      AfterBraceSkips(head[1..], tail);
    }
  }

  lemma StripNsOfTag(name: string)
    ensures StripNs(Tag(name)) == name
  {
    var head := "{http://base.google.com/schemas/1.0";
    assert Tag(name) == head + "}" + name;
    AfterBraceSkips(head, name);
  }

  // ----- Rendering -----

  function IsEmpty(v: Json): bool {
    v == Null || v == Str("") || v == Arr([]) || v == Obj(map[])
  }

  /** A registry, with Python's `str` of values that are not strings and the key order of its
      dictionaries, neither of which a JSON value fixes. */
  datatype Renderer = Renderer(
    order: seq<string>,
    attributes: map<string, Attribute>,
    show: Json -> string,
    keys: map<string, Json> -> seq<string>)
  {
    ghost predicate Valid() {
      && (forall i, j :: 0 <= i < j < |order| ==> order[i] != order[j])
      && (forall a :: a in order <==> a in attributes)
      && (forall a :: a in attributes ==>
        forall i, j :: 0 <= i < j < |attributes[a].fields| ==> attributes[a].fields[i] != attributes[a].fields[j])
    }

    function Text(v: Json): string {
      if v.Str? then v.text else show(v)
    }

    function ScalarElement(name: string, v: Json): Element {
      Element(Tag(name), Text(v), [])
    }

    /** Sub-field elements in registry order, empty ones left out. */
    function Body(fields: seq<string>, value: map<string, Json>): seq<Element> {
      if fields == [] then []
      else
        var last := fields[|fields| - 1];
        Body(fields[..|fields| - 1], value) +
        (if last in value && !IsEmpty(value[last]) then [ScalarElement(last, value[last])] else [])
    }

    /** What a loop over the value visits; None where Python raises TypeError. */
    function Iterate(v: Json): Option<seq<Json>> {
      match v
      case Arr(items) => Some(items)
      case Str(s) => Some(seq(|s|, i requires 0 <= i < |s| => Str([s[i]])))
      case Obj(fields) => var ks := keys(fields); Some(seq(|ks|, i requires 0 <= i < |ks| => Str(ks[i])))
      case _ => None
    }

    function ScalarItems(name: string, items: seq<Json>): seq<Element> {
      if items == [] then []
      else
        var last := items[|items| - 1];
        ScalarItems(name, items[..|items| - 1]) + (if IsEmpty(last) then [] else [ScalarElement(name, last)])
    }

    function StructuredItem(name: string, fields: seq<string>, v: Json): seq<Element> {
      if !v.Obj? || IsEmpty(v) || Body(fields, v.fields) == [] then []
      else [Element(Tag(name), "", Body(fields, v.fields))]
    }

    function StructuredItems(name: string, fields: seq<string>, items: seq<Json>): seq<Element> {
      if items == [] then []
      else
        StructuredItems(name, fields, items[..|items| - 1]) + StructuredItem(name, fields, items[|items| - 1])
    }

    /** The elements of one non-empty attribute; None where rendering raises. */
    function RenderAttribute(name: string, v: Json): Option<seq<Element>>
      requires name in attributes
    {
      var attribute := attributes[name];
      match attribute.kind
      case Scalar => Some([ScalarElement(name, v)])
      case RepeatedScalar =>
        var items := Iterate(v);
        if items.None? then None else Some(ScalarItems(name, items.value))
      case Structured => if v.Obj? then Some(StructuredItem(name, attribute.fields, v)) else None
      case RepeatedStructured =>
        var items := Iterate(v);
        if items.None? then None else Some(StructuredItems(name, attribute.fields, items.value))
    }

    /** Whether an attribute of a product is rendered at all. */
    predicate Shown(p: Product, name: string) {
      name in attributes && attributes[name].exportable && name in p && !IsEmpty(p[name])
    }

    function RenderAttributes(p: Product, names: seq<string>): Option<seq<Element>> {
      if names == [] then Some([])
      else
        var before, last := RenderAttributes(p, names[..|names| - 1]), names[|names| - 1];
        if before.None? then None
        else if !Shown(p, last) then before
        else
          var elements := RenderAttribute(last, p[last]);
          if elements.None? then None else Some(before.value + elements.value)
    }

    function RenderItem(p: Product): Option<seq<Element>> {
      RenderAttributes(p, order)
    }

    /** The product as far as the feed shows it. */
    function Visible(p: Product): Product {
      map name | name in p && Shown(p, name) :: p[name]
    }
  }

  // ----- Reading -----

  /** A repeated key turns its value into a list and further ones append to it. */
  function Add(p: Product, key: string, value: Json): Product {
    if key !in p then p[key := value]
    else if p[key].Arr? then p[key := Arr(p[key].items + [value])]
    else p[key := Arr([p[key], value])]
  }

  function ElementToDict(children: seq<Element>): Product {
    if children == [] then map[]
    else
      var before, child := ElementToDict(children[..|children| - 1]), children[|children| - 1];
      if child.children != [] then Add(before, StripNs(child.tag), Obj(ElementToDict(child.children)))
      else if Trim(child.text) != "" then Add(before, StripNs(child.tag), Str(Trim(child.text)))
      else before
  }

  /** None where an element mixes text and children, which makes the row an error. */
  function ParseItem(children: seq<Element>): Option<Product> {
    if children == [] then Some(map[])
    else
      var before, child := ParseItem(children[..|children| - 1]), children[|children| - 1];
      if before.None? || (child.children != [] && Trim(child.text) != "") then None
      else if child.children != [] then Some(Add(before.value, StripNs(child.tag), Obj(ElementToDict(child.children))))
      else if Trim(child.text) != "" then Some(Add(before.value, StripNs(child.tag), Str(Trim(child.text))))
      else before
  }

  // ----- Reading by key -----

  /** The value one element contributes, if any. */
  function ValueOf(e: Element): Option<Json> {
    if e.children != [] then Some(Obj(ElementToDict(e.children)))
    else if Trim(e.text) != "" then Some(Str(Trim(e.text)))
    else None
  }

  /** The values of all elements with one key, in order. */
  function Values(children: seq<Element>, key: string): seq<Json> {
    if children == [] then []
    else
      var last := children[|children| - 1];
      Values(children[..|children| - 1], key) +
      (if StripNs(last.tag) == key && ValueOf(last).Some? then [ValueOf(last).value] else [])
  }

  /** No value, the value, or the list of values. */
  function Collapse(values: seq<Json>): Option<Json> {
    if values == [] then None else if |values| == 1 then Some(values[0]) else Some(Arr(values))
  }

  ghost predicate ReadsAs(p: Product, children: seq<Element>) {
    forall key :: At(p, key) == Collapse(Values(children, key))
  }

  lemma {:induction false} ValuesAreNotLists(children: seq<Element>, key: string)
    ensures forall i :: 0 <= i < |Values(children, key)| ==> !Values(children, key)[i].Arr?
  {
    if children != [] { ValuesAreNotLists(children[..|children| - 1], key); }
  }

  lemma ValuesOneMore(children: seq<Element>, e: Element, key: string)
    ensures Values(children + [e], key) ==
      Values(children, key) + (if StripNs(e.tag) == key && ValueOf(e).Some? then [ValueOf(e).value] else [])
  {
    assert (children + [e])[..|children|] == children;
  }

  lemma AddReads(p: Product, children: seq<Element>, e: Element)
    requires ReadsAs(p, children) && ValueOf(e).Some?
    ensures ReadsAs(Add(p, StripNs(e.tag), ValueOf(e).value), children + [e])
  {
    forall k ensures At(Add(p, StripNs(e.tag), ValueOf(e).value), k) == Collapse(Values(children + [e], k)) {
      AddReadsAt(p, children, e, k);
    }
  }

  lemma AddReadsAt(p: Product, children: seq<Element>, e: Element, k: string)
    requires ReadsAs(p, children) && ValueOf(e).Some?
    ensures At(Add(p, StripNs(e.tag), ValueOf(e).value), k) == Collapse(Values(children + [e], k))
  {
    var key, v, values := StripNs(e.tag), ValueOf(e).value, Values(children, k);
    ValuesOneMore(children, e, k);
    ValuesAreNotLists(children, k);
    assert At(p, k) == Collapse(values);
    if k == key {
      assert Values(children + [e], k) == values + [v];
      AddCollapses(p, key, v, values);
    } else {
      assert Values(children + [e], k) == values + [] == values;
      assert At(Add(p, key, v), k) == At(p, k);
    }
  }

  lemma AddCollapses(p: Product, key: string, v: Json, values: seq<Json>)
    requires At(p, key) == Collapse(values) && forall i :: 0 <= i < |values| ==> !values[i].Arr?
    ensures At(Add(p, key, v), key) == Collapse(values + [v])
  {
    if |values| == 0 {
      assert values + [v] == [v];
    } else if |values| == 1 {
      assert values + [v] == [values[0], v];
    } else {
      assert p[key] == Arr(values);
    }
  }

  lemma SkipReads(p: Product, children: seq<Element>, e: Element)
    requires ReadsAs(p, children) && ValueOf(e).None?
    ensures ReadsAs(p, children + [e])
  {
    forall k ensures At(p, k) == Collapse(Values(children + [e], k)) {
      ValuesOneMore(children, e, k);
      assert Values(children, k) + [] == Values(children, k);
      assert At(p, k) == Collapse(Values(children, k));
    }
  }

  lemma {:induction false} ElementToDictReads(children: seq<Element>)
    ensures ReadsAs(ElementToDict(children), children)
  {
    if children != [] {
      var rest, last := children[..|children| - 1], children[|children| - 1];
      ElementToDictReads(rest);
      assert children == rest + [last];
      if ValueOf(last).Some? {
        AddReads(ElementToDict(rest), rest, last);
      } else {
        SkipReads(ElementToDict(rest), rest, last);
      }
    }
  }

  ghost predicate Unmixed(children: seq<Element>) {
    forall e :: e in children ==> e.children == [] || Trim(e.text) == ""
  }

  lemma {:induction false} ParseItemReads(children: seq<Element>)
    ensures ParseItem(children).Some? <==> Unmixed(children)
    ensures ParseItem(children).Some? ==> ReadsAs(ParseItem(children).value, children)
  {
    if children != [] {
      var rest, last := children[..|children| - 1], children[|children| - 1];
      ParseItemReads(rest);
      assert children == rest + [last];
      if ParseItem(children).Some? {
        if ValueOf(last).Some? { AddReads(ParseItem(rest).value, rest, last); }
        else { SkipReads(ParseItem(rest).value, rest, last); }
      }
    }
  }
}
