/** Applying rules to product objects. None of the methods here modifies anything that existed
    before the call: products, their lists and dictionaries, and the configuration, whose values
    end up inside products, are only ever copied. */
module RulePlugin {
  import opened Hashing
  import opened IndexedPath
  import opened RuleConditions
  import opened RuleActions
  import opened Wrappers

  class DictObject {
    var fields: map<string, Json>

    constructor (fields: map<string, Json>)
      ensures this.fields == fields
    {
      this.fields := fields;
    }
  }

  /** A list item: a dictionary object, or a value that is no dictionary. */
  datatype Element = Atom(v: Json) | Nested(d: DictObject)

  class ListObject {
    var items: seq<Element>

    constructor (items: seq<Element>)
      ensures this.items == items
    {
      this.items := items;
    }
  }

  /** A value of a product: a list object, or a value that is no list. */
  datatype Value = Whole(v: Json) | Listed(l: ListObject)

  class ProductObject {
    var fields: map<string, Value>

    constructor (fields: map<string, Value>)
      ensures this.fields == fields
    {
      this.fields := fields;
    }
  }

  // ----- What the objects stand for -----

  function ElementView(e: Element): Json
    reads if e.Nested? then {e.d} else {}
  {
    match e
    case Atom(v) => v
    case Nested(d) => Obj(d.fields)
  }

  function Dicts(items: seq<Element>): set<DictObject> {
    set e | e in items && e.Nested? :: e.d
  }

  function ItemsView(items: seq<Element>): seq<Json>
    reads Dicts(items)
  {
    seq(|items|, i requires 0 <= i < |items| reads Dicts(items) => ElementView(items[i]))
  }

  function ValueView(v: Value): Json
    reads if v.Listed? then {v.l} else {}
    reads if v.Listed? then Dicts(v.l.items) else {}
  {
    match v
    case Whole(j) => j
    case Listed(l) => Arr(ItemsView(l.items))
  }

  function Lists(fields: map<string, Value>): set<ListObject> {
    set k | k in fields && fields[k].Listed? :: fields[k].l
  }

  function InnerDicts(lists: set<ListObject>): set<DictObject>
    reads lists
  {
    set l, d | l in lists && d in Dicts(l.items) :: d
  }

  function View(fields: map<string, Value>): Product
    reads Lists(fields), InnerDicts(Lists(fields))
  {
    map k | k in fields :: ValueView(fields[k])
  }

  /** Values have one shape: lists are list objects, and dictionaries inside lists dictionary
      objects. */
  predicate WellShaped(v: Value)
    reads if v.Listed? then {v.l} else {}
  {
    match v
    case Whole(j) => !j.Arr?
    case Listed(l) => forall i :: 0 <= i < |l.items| ==> l.items[i].Atom? ==> !l.items[i].v.Obj?
  }

  predicate AllShaped(fields: map<string, Value>)
    reads Lists(fields)
  {
    forall k :: k in fields ==> WellShaped(fields[k])
  }

  function ActionView(a: Action<Value>): Action<Json>
    reads if a.value.Listed? then {a.value.l} else {}
    reads if a.value.Listed? then Dicts(a.value.l.items) else {}
  {
    Action(a.op, a.field, ValueView(a.value), a.find, a.with_, a.sensitive)
  }

  lemma PutView(fields: map<string, Value>, k: string, v: Value)
    ensures View(fields[k := v]) == View(fields)[k := ValueView(v)]
    ensures AllShaped(fields) && WellShaped(v) ==> AllShaped(fields[k := v])
  {
  }

  lemma DropView(fields: map<string, Value>, k: string)
    ensures View(fields - {k}) == View(fields) - {k}
    ensures AllShaped(fields) ==> AllShaped(fields - {k})
  {
  }

  // ----- Elements -----

  /** Dictionaries made during this call, no two items the same object. */
  ghost predicate Apart(items: seq<Element>) {
    forall i, j :: 0 <= i < j < |items| && items[i].Nested? && items[j].Nested? ==> items[i].d != items[j].d
  }

  /** A list of `n` items or more in which every dictionary is new: copies, then empty ones. */
  method FreshItems(items: seq<Element>, n: nat) returns (bucket: seq<Element>)
    requires forall i :: 0 <= i < |items| ==> items[i].Atom? ==> !items[i].v.Obj?
    ensures ItemsView(bucket) == Pad(old(ItemsView(items)), n, Obj(map[]))
    ensures forall i :: 0 <= i < |bucket| ==> bucket[i].Nested? ==> fresh(bucket[i].d)
    ensures forall i :: 0 <= i < |bucket| ==> bucket[i].Atom? ==> !bucket[i].v.Obj?
    ensures Apart(bucket)
  {
    bucket := [];
    ghost var view := ItemsView(items);
    for i := 0 to |items|
      invariant |bucket| == i
      invariant forall k :: 0 <= k < i ==> ElementView(bucket[k]) == view[k]
      invariant forall k :: 0 <= k < i ==> bucket[k].Nested? ==> fresh(bucket[k].d)
      invariant forall k :: 0 <= k < i ==> bucket[k].Atom? ==> !bucket[k].v.Obj?
      invariant Apart(bucket)
    {
      assert ElementView(items[i]) == view[i];
      match items[i] {
        case Atom(v) => bucket := bucket + [Atom(v)];
        case Nested(d) =>
          var own := new DictObject(d.fields);
          bucket := bucket + [Nested(own)];
      }
    }
    while |bucket| < n
      invariant |view| <= |bucket| && (|bucket| == |view| || |bucket| <= n)
      invariant forall k :: 0 <= k < |bucket| ==> ElementView(bucket[k]) == if k < |view| then view[k] else Obj(map[])
      invariant forall k :: 0 <= k < |bucket| ==> bucket[k].Nested? ==> fresh(bucket[k].d)
      invariant forall k :: 0 <= k < |bucket| ==> bucket[k].Atom? ==> !bucket[k].v.Obj?
      invariant Apart(bucket)
    {
      var empty := new DictObject(map[]);
      bucket := bucket + [Nested(empty)];
    }
    assert ItemsView(bucket) == Pad(view, n, Obj(map[]));
  }

  function ListIn(fields: map<string, Value>, attr: string): seq<Element>
    reads Lists(fields)
  {
    if attr in fields && fields[attr].Listed? then fields[attr].l.items else []
  }

  lemma ListInView(fields: map<string, Value>, attr: string)
    requires AllShaped(fields)
    ensures ItemsOf(View(fields), attr) == ItemsView(ListIn(fields, attr))
    ensures attr in fields ==> (ValueView(fields[attr]).Arr? <==> fields[attr].Listed?)
  {
  }

  /** The product with another list under one key. */
  method WithList(p: ProductObject, attr: string, bucket: seq<Element>) returns (next: ProductObject)
    requires AllShaped(p.fields) && forall i :: 0 <= i < |bucket| ==> bucket[i].Atom? ==> !bucket[i].v.Obj?
    ensures fresh(next) && AllShaped(next.fields)
    ensures View(next.fields) == old(View(p.fields))[attr := Arr(old(ItemsView(bucket)))]
  {
    var list := new ListObject(bucket);
    next := new ProductObject(p.fields[attr := Listed(list)]);
    assert ItemsView(bucket) == old(ItemsView(bucket));
    forall k | k in p.fields ensures ValueView(p.fields[k]) == old(ValueView(p.fields[k])) {}
    assert View(p.fields) == old(View(p.fields));
    PutView(p.fields, attr, Listed(list));
  }

  /** Products look the same as long as their lists and dictionaries are untouched. */
  twostate lemma SameView(fields: map<string, Value>)
    requires forall l :: l in Lists(fields) ==> unchanged(l)
    requires forall d :: d in old(InnerDicts(Lists(fields))) ==> unchanged(d)
    ensures View(fields) == old(View(fields))
    ensures old(AllShaped(fields)) ==> AllShaped(fields)
  {
    forall k | k in fields ensures ValueView(fields[k]) == old(ValueView(fields[k])) {
      if fields[k].Listed? {
        var l := fields[k].l;
        assert l in Lists(fields);
        forall d | d in Dicts(l.items) ensures unchanged(d) { assert d in old(InnerDicts(Lists(fields))); }
        assert ItemsView(l.items) == old(ItemsView(l.items));
      }
    }
  }

  /** A shallow copy of a product. */
  method CopyProduct(p: ProductObject) returns (next: ProductObject)
    requires AllShaped(p.fields)
    ensures fresh(next) && AllShaped(next.fields) && View(next.fields) == old(View(p.fields))
  {
    next := new ProductObject(p.fields);
    forall k | k in p.fields ensures ValueView(p.fields[k]) == old(ValueView(p.fields[k])) {}
  }

  function PadElements(items: seq<Element>, n: nat): seq<Element> {
    if |items| >= n then items else items + seq(n - |items|, _ => Atom(Str("")))
  }

  method PadTexts(items: seq<Element>, n: nat) returns (bucket: seq<Element>)
    ensures bucket == PadElements(items, n)
  {
    bucket := items;
    while |bucket| < n
      invariant |items| <= |bucket| && (|bucket| == |items| || |bucket| <= n)
      invariant bucket == items + seq(|bucket| - |items|, _ => Atom(Str("")))
    {
      bucket := bucket + [Atom(Str(""))];
    }
  }

  lemma PadView(items: seq<Element>, n: nat)
    ensures ItemsView(PadElements(items, n)) == Pad(ItemsView(items), n, Str(""))
  {
  }

  lemma SetView(items: seq<Element>, i: nat, v: Json)
    requires i < |items|
    ensures ItemsView(items[i := Atom(v)]) == ItemsView(items)[i := v]
  {
  }

  lemma CutView(items: seq<Element>, i: nat)
    requires i < |items|
    ensures ItemsView(items[..i] + items[i + 1..]) == ItemsView(items)[..i] + ItemsView(items)[i + 1..]
  {
  }

  /** Removing or clearing an element; a list too short is left as it is. */
  method CutElement(py: Python, rp: Replacer, p: ProductObject, attr: string, n: nat, a: Action<Value>, op: Op)
    returns (next: ProductObject)
    requires n >= 1 && AllShaped(p.fields) && (op == Remove || op == Clear)
    ensures fresh(next) && AllShaped(next.fields)
    ensures Some(View(next.fields)) == ApplyToElement(py, rp, old(View(p.fields)), attr, n, old(ActionView(a)), op)
  {
    hide NewText, View;
    var bucket := ListIn(p.fields, attr);
    ListInView(p.fields, attr);
    if |bucket| < n {
      next := CopyProduct(p);
      return;
    }
    CutView(bucket, n - 1);
    SetView(bucket, n - 1, Str(""));
    bucket := if op == Remove then bucket[..n - 1] + bucket[n..] else bucket[n - 1 := Atom(Str(""))];
    next := WithList(p, attr, bucket);
  }

  /** Writing text over an element, after filling the list up with empty texts. */
  method WriteElement(py: Python, rp: Replacer, p: ProductObject, attr: string, n: nat, a: Action<Value>, op: Op)
    returns (q: Option<ProductObject>)
    requires n >= 1 && AllShaped(p.fields) && op != Remove && op != Clear
    ensures q.Some? ==> fresh(q.value) && AllShaped(q.value.fields)
    ensures (if q.Some? then Some(View(q.value.fields)) else None) ==
      ApplyToElement(py, rp, old(View(p.fields)), attr, n, old(ActionView(a)), op)
  {
    hide NewText, View, ElementView, Pad, ActionView;
    var act, list := ActionView(a), ListIn(p.fields, attr);
    var bucket := PadTexts(list, n);
    SameView(p.fields);
    ListInView(p.fields, attr);
    PadView(list, n);
    assert ItemsView(bucket)[n - 1] == ElementView(bucket[n - 1]);
    var text := NewText(py, rp, act, op, act.value, ElementView(bucket[n - 1]));
    if text.None? { return None; }
    SetView(bucket, n - 1, Str(text.value));
    var next := WithList(p, attr, bucket[n - 1 := Atom(Str(text.value))]);
    q := Some(next);
  }

  /** Changes one dictionary of a list in place. */
  method EditDict(bucket: seq<Element>, i: nat, fields: map<string, Json>)
    requires i < |bucket| && bucket[i].Nested? && Apart(bucket)
    modifies bucket[i].d
    ensures ItemsView(bucket) == old(ItemsView(bucket))[i := Obj(fields)]
  {
    bucket[i].d.fields := fields;
    forall k | 0 <= k < |bucket| && k != i ensures ElementView(bucket[k]) == old(ElementView(bucket[k])) {}
  }

  /** The list after an action on a sub-field of one of its elements, written into a new copy. */
  method WriteSub(
    py: Python, rp: Replacer, p: ProductObject, attr: string, n: nat, sub: string, a: Action<Value>, op: Op)
    returns (q: Option<ProductObject>)
    requires n >= 1 && AllShaped(p.fields)
    ensures q.Some? ==> fresh(q.value) && AllShaped(q.value.fields)
    ensures (if q.Some? then Some(View(q.value.fields)) else None) ==
      ApplyToSub(py, rp, old(View(p.fields)), attr, n, sub, old(ActionView(a)), op)
  {
    hide NewValue, View, Put, Lookup;
    ListInView(p.fields, attr);
    var act := ActionView(a);
    var bucket := FreshItems(ListIn(p.fields, attr), n);
    ghost var padded := ItemsView(bucket);
    assert padded == Pad(ItemsOf(old(View(p.fields)), attr), n, Obj(map[]));
    assert padded[n - 1] == ElementView(bucket[n - 1]);
    if bucket[n - 1].Atom? { return None; }
    var element := bucket[n - 1].d;
    var v := NewValue(py, rp, act, op, Lookup(element.fields, sub));
    if v.None? { return None; }
    EditDict(bucket, n - 1, Put(element.fields, sub, v.value));
    SameView(p.fields);
    var next := WithList(p, attr, bucket);
    q := Some(next);
  }

  lemma LookupView(fields: map<string, Value>, k: string)
    ensures Lookup(View(fields), k) == if k in fields then ValueView(fields[k]) else Null
  {
  }

  /** An action on a path without an index. Setting puts the configured value itself, not a copy,
      into the product. */
  method WriteWhole(py: Python, rp: Replacer, p: ProductObject, field: string, a: Action<Value>, op: Op)
    returns (q: Option<ProductObject>)
    requires AllShaped(p.fields) && WellShaped(a.value)
    ensures q.Some? ==> fresh(q.value) && AllShaped(q.value.fields)
    ensures
      var v := NewValue(py, rp, old(ActionView(a)), op, Lookup(old(View(p.fields)), field));
      (if q.Some? then Some(View(q.value.fields)) else None) ==
        if v.None? then None else Some(Put(old(View(p.fields)), field, v.value))
  {
    hide NewText, View, ValueView;
    var current := if field in p.fields then ValueView(p.fields[field]) else Null;
    LookupView(p.fields, field);
    if op == Remove {
      DropView(p.fields, field);
      var next := WithFields(p.fields - {field});
      return Some(next);
    }
    var value := a.value;
    if op == Clear {
      value := Whole(Str(""));
      TextView("");
    } else if op != Set {
      var text := NewText(py, rp, ActionView(a), op, ActionView(a).value, current);
      if text.None? { return None; }
      value := Whole(Str(text.value));
      TextView(text.value);
    }
    PutView(p.fields, field, value);
    var next := WithFields(p.fields[field := value]);
    q := Some(next);
  }

  lemma TextView(text: string)
    ensures ValueView(Whole(Str(text))) == Str(text) && WellShaped(Whole(Str(text)))
  {
  }

  method WithFields(fields: map<string, Value>) returns (next: ProductObject)
    requires AllShaped(fields)
    ensures fresh(next) && AllShaped(next.fields) && View(next.fields) == old(View(fields))
  {
    next := new ProductObject(fields);
    SameView(fields);
  }

  /** `apply_action` on a product object. */
  method ApplyAction(py: Python, rp: Replacer, p: ProductObject, a: Action<Value>) returns (q: Option<ProductObject>)
    requires AllShaped(p.fields) && WellShaped(a.value)
    ensures q.Some? ==> fresh(q.value) && AllShaped(q.value.fields)
    ensures (if q.Some? then Some(View(q.value.fields)) else None) ==
      Apply(py, rp, old(View(p.fields)), old(ActionView(a)))
  {
    hide View, ApplyToSub, ApplyToElement, NewValue, Put, Lookup;
    if a.op.None? { return None; }
    if a.op.value == Ai {
      var same := CopyProduct(p);
      return Some(same);
    }
    if a.field.None? { return None; }
    var path, op := RulePath(a.field.value), a.op.value;
    if path.None? { return None; }
    IndexIsPositive(a.field.value);
    if path.value.index.Some? {
      if path.value.sub.Some? {
        q := WriteSub(py, rp, p, path.value.attr, path.value.index.value, path.value.sub.value, a, op);
      } else if op == Remove || op == Clear {
        var next := CutElement(py, rp, p, path.value.attr, path.value.index.value, a, op);
        q := Some(next);
      } else {
        q := WriteElement(py, rp, p, path.value.attr, path.value.index.value, a, op);
      }
    } else {
      q := WriteWhole(py, rp, p, a.field.value, a, op);
    }
  }

  // ----- Rule lists -----

  function ActionLists(actions: seq<Action<Value>>): set<ListObject> {
    set a | a in actions && a.value.Listed? :: a.value.l
  }

  function ActionViews(actions: seq<Action<Value>>): seq<Action<Json>>
    reads ActionLists(actions), InnerDicts(ActionLists(actions))
  {
    seq(|actions|, i requires 0 <= i < |actions| reads ActionLists(actions), InnerDicts(ActionLists(actions)) =>
      ActionView(actions[i]))
  }

  predicate ActionsShaped(actions: seq<Action<Value>>)
    reads ActionLists(actions)
  {
    forall i :: 0 <= i < |actions| ==> WellShaped(actions[i].value)
  }

  twostate lemma SameActions(actions: seq<Action<Value>>)
    requires forall l :: l in ActionLists(actions) ==> unchanged(l)
    requires forall d :: d in old(InnerDicts(ActionLists(actions))) ==> unchanged(d)
    ensures ActionViews(actions) == old(ActionViews(actions))
    ensures old(ActionsShaped(actions)) ==> ActionsShaped(actions)
  {
    forall i | 0 <= i < |actions| ensures ActionView(actions[i]) == old(ActionView(actions[i])) {
      var a := actions[i];
      if a.value.Listed? {
        var l := a.value.l;
        assert l in ActionLists(actions);
        forall d | d in Dicts(l.items) ensures unchanged(d) { assert d in old(InnerDicts(ActionLists(actions))); }
        assert ItemsView(l.items) == old(ItemsView(l.items));
      }
    }
  }

  /** One action of a list, the list itself being left as it was. */
  method ApplyNth(py: Python, rp: Replacer, p: ProductObject, actions: seq<Action<Value>>, i: nat)
    returns (q: Option<ProductObject>)
    requires AllShaped(p.fields) && ActionsShaped(actions) && i < |actions|
    ensures ActionViews(actions) == old(ActionViews(actions)) && ActionsShaped(actions)
    ensures q.Some? ==> fresh(q.value) && AllShaped(q.value.fields)
    ensures (if q.Some? then Some(View(q.value.fields)) else None) ==
      Apply(py, rp, old(View(p.fields)), ActionViews(actions)[i])
  {
    hide View, Apply;
    assert ActionView(actions[i]) == ActionViews(actions)[i];
    q := ApplyAction(py, rp, p, actions[i]);
    SameActions(actions);
  }

  method ApplyActions(py: Python, rp: Replacer, p: ProductObject, actions: seq<Action<Value>>)
    returns (q: Option<ProductObject>)
    requires AllShaped(p.fields) && ActionsShaped(actions)
    ensures q.Some? ==> AllShaped(q.value.fields) && (q.value == p || fresh(q.value))
    ensures (if q.Some? then Some(View(q.value.fields)) else None) ==
      ApplyAll(py, rp, old(View(p.fields)), old(ActionViews(actions)))
  {
    hide View, Apply;
    ghost var view, views := View(p.fields), ActionViews(actions);
    var current := p;
    for i := 0 to |actions|
      invariant AllShaped(current.fields) && (current == p || fresh(current))
      invariant ActionViews(actions) == views && ActionsShaped(actions)
      invariant Some(View(current.fields)) == ApplyAll(py, rp, view, views[..i])
    {
      assert views[..i + 1][..i] == views[..i];
      var next := ApplyNth(py, rp, current, actions, i);
      if next.None? {
        ActionsStayRaised(py, rp, view, views, i + 1);
        return None;
      }
      current := next.value;
    }
    assert views[..|views|] == views;
    q := Some(current);
  }

  lemma {:induction false} ActionsStayRaised(py: Python, rp: Replacer, p: Product, actions: seq<Action<Json>>, n: nat)
    requires n <= |actions| && ApplyAll(py, rp, p, actions[..n]).None?
    ensures ApplyAll(py, rp, p, actions).None?
    decreases |actions| - n
  {
    hide Apply;
    if n < |actions| {
      assert actions[..n + 1][..n] == actions[..n];
      ActionsStayRaised(py, rp, p, actions, n + 1);
    } else {
      assert actions[..n] == actions;
    }
  }

  function RuleLists(rules: seq<Rule<Value>>): set<ListObject> {
    set r, l | r in rules && l in ActionLists(r.then_) :: l
  }

  function RuleView(rule: Rule<Value>): Rule<Json>
    reads ActionLists(rule.then_), InnerDicts(ActionLists(rule.then_))
  {
    Rule(rule.active, rule.when, ActionViews(rule.then_))
  }

  function RuleViews(rules: seq<Rule<Value>>): seq<Rule<Json>>
    reads RuleLists(rules), InnerDicts(RuleLists(rules))
  {
    seq(|rules|, i requires 0 <= i < |rules| reads RuleLists(rules), InnerDicts(RuleLists(rules)) => RuleView(rules[i]))
  }

  predicate RulesShaped(rules: seq<Rule<Value>>)
    reads RuleLists(rules)
  {
    forall i :: 0 <= i < |rules| ==> ActionsShaped(rules[i].then_)
  }

  twostate lemma SameRules(rules: seq<Rule<Value>>)
    requires forall l :: l in RuleLists(rules) ==> unchanged(l)
    requires forall d :: d in old(InnerDicts(RuleLists(rules))) ==> unchanged(d)
    ensures RuleViews(rules) == old(RuleViews(rules))
    ensures old(RulesShaped(rules)) ==> RulesShaped(rules)
  {
    hide ActionViews, ActionsShaped;
    forall i | 0 <= i < |rules|
      ensures RuleView(rules[i]) == old(RuleView(rules[i]))
      ensures old(ActionsShaped(rules[i].then_)) ==> ActionsShaped(rules[i].then_)
    {
      forall l | l in ActionLists(rules[i].then_) ensures unchanged(l) { assert l in RuleLists(rules); }
      forall d | d in old(InnerDicts(ActionLists(rules[i].then_))) ensures unchanged(d) {
        assert d in old(InnerDicts(RuleLists(rules)));
      }
      SameActions(rules[i].then_);
    }
  }

  /** One rule of the list: its condition is evaluated on the product as the earlier rules left it. */
  method ApplyNthRule(py: Python, rp: Replacer, p: ProductObject, rules: seq<Rule<Value>>, i: nat)
    returns (q: Option<ProductObject>)
    requires AllShaped(p.fields) && RulesShaped(rules) && i < |rules|
    ensures RuleViews(rules) == old(RuleViews(rules)) && RulesShaped(rules)
    ensures q.Some? ==> AllShaped(q.value.fields) && (q.value == p || fresh(q.value))
    ensures (if q.Some? then Some(View(q.value.fields)) else None) ==
      ApplyRule(py, rp, old(View(p.fields)), old(RuleViews(rules))[i])
  {
    hide View, Evaluate, ApplyAll;
    var rule := rules[i];
    assert RuleViews(rules)[i] == RuleView(rule);
    if !rule.active { return Some(p); }
    var holds := Evaluate(py, rule.when, View(p.fields));
    if holds.None? { return None; }
    if !holds.value { return Some(p); }
    q := ApplyActions(py, rp, p, rule.then_);
    SameRules(rules);
  }

  /** `process`: the product object itself when no rule changed anything, and else a new one. The
      given product and the configuration are what they were. */
  method Process(py: Python, rp: Replacer, p: ProductObject, rules: seq<Rule<Value>>) returns (q: Option<ProductObject>)
    requires AllShaped(p.fields) && RulesShaped(rules)
    ensures q.Some? ==> q.value == p || fresh(q.value)
    ensures (if q.Some? then Some(View(q.value.fields)) else None) ==
      Run(py, rp, old(View(p.fields)), old(RuleViews(rules)))
    ensures View(p.fields) == old(View(p.fields)) && RuleViews(rules) == old(RuleViews(rules))
  {
    hide View, ApplyRule;
    ghost var view, views := View(p.fields), RuleViews(rules);
    var current := p;
    for i := 0 to |rules|
      invariant AllShaped(current.fields) && (current == p || fresh(current))
      invariant RuleViews(rules) == views && RulesShaped(rules)
      invariant Some(View(current.fields)) == Run(py, rp, view, views[..i])
    {
      assert views[..i + 1][..i] == views[..i];
      var next := ApplyNthRule(py, rp, current, rules, i);
      if next.None? {
        RulesStayRaised(py, rp, view, views, i + 1);
        SameView(p.fields);
        return None;
      }
      current := next.value;
    }
    assert views[..|views|] == views;
    SameView(p.fields);
    q := Some(current);
  }

  lemma {:induction false} RulesStayRaised(py: Python, rp: Replacer, p: Product, rules: seq<Rule<Json>>, n: nat)
    requires n <= |rules| && Run(py, rp, p, rules[..n]).None?
    ensures Run(py, rp, p, rules).None?
    decreases |rules| - n
  {
    hide ApplyRule;
    if n < |rules| {
      assert rules[..n + 1][..n] == rules[..n];
      RulesStayRaised(py, rp, p, rules, n + 1);
    } else {
      assert rules[..n] == rules;
    }
  }
}
