/** Actions of transformation rules, and whole rule lists, as functions on product values. */
module RuleActions {
  import opened Hashing
  import opened IndexedPath
  import opened RuleConditions
  import opened Texts
  import opened Wrappers

  datatype Op = Set | Append | Prepend | Replace | Remove | Clear | Ai

  /** An action node. None: an unknown op, a field that is no non-empty text, a missing key. */
  datatype Action<V> = Action(op: Option<Op>, field: Option<string>, value: V, find: Option<string>,
    with_: Option<string>, sensitive: bool)

  /** Python's replacement of literal texts, and of regular expressions, which may be malformed. */
  datatype Replacer = Replacer(
    literal: (string, string, bool, string) -> string,
    regex: (string, string, bool, string) -> Option<string>)

  /** `_apply_replace`; None where it raises. */
  function ReplaceText<V>(rp: Replacer, a: Action<V>, text: string): Option<string> {
    if a.find.None? || a.with_.None? then None
    else if StartsWith(a.find.value, "/") then rp.regex(a.find.value, a.with_.value, a.sensitive, text)
    else Some(rp.literal(a.find.value, a.with_.value, a.sensitive, text))
  }

  /** The text an action that writes text leaves in place of `current`. */
  function NewText<V>(py: Python, rp: Replacer, a: Action<V>, op: Op, value: Json, current: Json): Option<string> {
    match op
    case Append => Some(AsText(py, current) + AsText(py, value))
    case Prepend => Some(AsText(py, value) + AsText(py, current))
    case Replace => ReplaceText(rp, a, AsText(py, current))
    case _ => Some(AsText(py, value))
  }

  function Lookup(p: Product, k: string): Json {
    if k in p then p[k] else Null
  }

  /** The value of a key after an action on it; None in the inner option removes the key. */
  function NewValue(py: Python, rp: Replacer, a: Action<Json>, op: Op, current: Json): Option<Option<Json>> {
    match op
    case Set => Some(Some(a.value))
    case Remove => Some(None)
    case Clear => Some(Some(Str("")))
    case _ =>
      var text := NewText(py, rp, a, op, a.value, current);
      if text.None? then None else Some(Some(Str(text.value)))
  }

  function Put(p: Product, k: string, v: Option<Json>): Product {
    if v.Some? then p[k := v.value] else p - {k}
  }

  function ItemsOf(p: Product, attr: string): seq<Json> {
    if attr in p && p[attr].Arr? then p[attr].items else []
  }

  function Pad(items: seq<Json>, n: nat, filler: Json): (padded: seq<Json>)
    ensures |padded| >= n && |padded| >= |items|
    ensures forall i :: 0 <= i < |items| ==> padded[i] == items[i]
    ensures forall i :: |items| <= i < |padded| ==> padded[i] == filler
  {
    if |items| >= n then items else items + seq(n - |items|, _ => filler)
  }

  /** An action on one list element; the index counts from one. */
  function ApplyToElement(
    py: Python, rp: Replacer, p: Product, attr: string, n: nat, a: Action<Json>, op: Op): Option<Product>
    requires n >= 1
  {
    var items := ItemsOf(p, attr);
    if op == Remove then
      Some(if |items| >= n then p[attr := Arr(items[..n - 1] + items[n..])] else p)
    else if op == Clear then
      Some(if |items| >= n then p[attr := Arr(items[n - 1 := Str("")])] else p)
    else
      var padded := Pad(items, n, Str(""));
      var text := NewText(py, rp, a, op, a.value, padded[n - 1]);
      if text.None? then None else Some(p[attr := Arr(padded[n - 1 := Str(text.value)])])
  }

  /** An action on a sub-field of one list element. */
  function ApplyToSub(
    py: Python, rp: Replacer, p: Product, attr: string, n: nat, sub: string, a: Action<Json>, op: Op): Option<Product>
    requires n >= 1
  {
    var padded := Pad(ItemsOf(p, attr), n, Obj(map[]));
    if !padded[n - 1].Obj? then None
    else
      var element := padded[n - 1].fields;
      var v := NewValue(py, rp, a, op, Lookup(element, sub));
      if v.None? then None else Some(p[attr := Arr(padded[n - 1 := Obj(Put(element, sub, v.value))])])
  }

  /** `apply_action`; None where it raises. An action on a path without an index writes the key
      spelled like the whole path. */
  function Apply(py: Python, rp: Replacer, p: Product, a: Action<Json>): Option<Product> {
    if a.op.None? then None
    else if a.op.value == Ai then Some(p)
    else if a.field.None? || RulePath(a.field.value).None? then None
    else
      var path, op := RulePath(a.field.value).value, a.op.value;
      if path.index.Some? then
        if path.index.value < 1 then None
        else if path.sub.Some? then ApplyToSub(py, rp, p, path.attr, path.index.value, path.sub.value, a, op)
        else ApplyToElement(py, rp, p, path.attr, path.index.value, a, op)
      else
        var v := NewValue(py, rp, a, op, Lookup(p, a.field.value));
        if v.None? then None else Some(Put(p, a.field.value, v.value))
  }

  // ----- When actions raise -----

  /** What validation demands of an action. */
  ghost predicate AcceptsAction(a: Action<Json>) {
    && a.op.Some?
    && (a.op.value != Ai ==>
      && a.field.Some? && RulePath(a.field.value).Some?
      && (a.op.value in {Set, Append, Prepend} ==> a.value != Null)
      && (a.op.value == Replace ==> a.find.Some? && a.with_.Some? && a.find.value != ""))
  }

  /** The element an indexed sub-field action addresses is there and no object. */
  predicate Blocked(p: Product, a: Action<Json>) {
    a.field.Some? && RulePath(a.field.value).Some? &&
    var path := RulePath(a.field.value).value;
    path.index.Some? && path.index.value >= 1 && path.sub.Some? &&
    |ItemsOf(p, path.attr)| >= path.index.value && !ItemsOf(p, path.attr)[path.index.value - 1].Obj?
  }

  /** The text an action replaces in. */
  function OldText(py: Python, p: Product, a: Action<Json>): string {
    if a.field.None? || RulePath(a.field.value).None? then ""
    else
      var path := RulePath(a.field.value).value;
      if path.index.None? then AsText(py, Lookup(p, a.field.value))
      else
        var items := ItemsOf(p, path.attr);
        if |items| < path.index.value || path.index.value < 1 then ""
        else if path.sub.Some? then AsText(py, Get(items[path.index.value - 1], path.sub.value))
        else AsText(py, items[path.index.value - 1])
  }

  /** An accepted action raises exactly when it addresses a sub-field of something that is no
      object, or its regular expression fails on the text. */
  lemma AcceptedActionRaisesIff(py: Python, rp: Replacer, p: Product, a: Action<Json>)
    requires AcceptsAction(a)
    ensures Apply(py, rp, p, a).None? <==>
      a.op.value != Ai && (Blocked(p, a) || (a.op.value == Replace && ReplaceText(rp, a, OldText(py, p, a)).None?))
  {
    hide RulePath, ReplaceText;
    if a.op.value != Ai {
      IndexIsPositive(a.field.value);
    }
  }

  lemma IndexIsPositive(field: string)
    ensures RulePath(field).Some? && RulePath(field).value.index.Some? ==>
      1 <= RulePath(field).value.index.value <= MAX_INDEX
  {
  }

  // ----- What actions leave alone -----

  /** The key an action writes. */
  function Target(a: Action<Json>): string {
    if a.field.None? || RulePath(a.field.value).None? then ""
    else if RulePath(a.field.value).value.index.Some? then RulePath(a.field.value).value.attr
    else a.field.value
  }

  lemma OtherKeysStay(py: Python, rp: Replacer, p: Product, a: Action<Json>, k: string)
    requires Apply(py, rp, p, a).Some? && k != Target(a)
    ensures k in Apply(py, rp, p, a).value <==> k in p
    ensures k in p ==> Apply(py, rp, p, a).value[k] == p[k]
  {
    hide RulePath;
  }

  /** Setting a value: conditions then read it back at the same path exactly when the path is no
      bare sub-field path, or the sub-field already held it. Indexed elements hold texts. */
  lemma SetIsReadIff(py: Python, rp: Replacer, p: Product, a: Action<Json>)
    requires AcceptsAction(a) && a.op == Some(Set) && !Blocked(p, a)
    ensures Apply(py, rp, p, a).Some?
    ensures
      var path, q := RulePath(a.field.value).value, Apply(py, rp, p, a).value;
      var written := if path.index.Some? && path.sub.None? then Str(AsText(py, a.value)) else a.value;
      FieldValue(q, a.field.value) == written <==>
        !(path.index.None? && path.sub.Some?) || FieldValue(p, a.field.value) == a.value
  {
    hide ReplaceText;
    IndexIsPositive(a.field.value);
    PathNames(a.field.value);
  }

  lemma PathNames(field: string)
    requires RulePath(field).Some?
    ensures RulePath(field).value.index.None? && RulePath(field).value.sub.None? ==> RulePath(field).value.attr == field
    ensures RulePath(field).value.index.None? && RulePath(field).value.sub.Some? ==> RulePath(field).value.attr != field
  {
    SplitLengths(field);
  }

  lemma {:induction false} SplitLengths(s: string)
    ensures |Split(s)| == 1 ==> Split(s)[0] == s
    ensures |Split(s)| > 1 ==> |Split(s)[0]| < |s|
  {
    if s != "" {
      SplitLengths(s[1..]);
      assert s == [s[0]] + s[1..];
    }
  }

  // ----- Rule lists -----

  datatype Rule<V> = Rule(active: bool, when: Json, then_: seq<Action<V>>)

  function ApplyAll(py: Python, rp: Replacer, p: Product, actions: seq<Action<Json>>): Option<Product> {
    if actions == [] then Some(p)
    else
      var before := ApplyAll(py, rp, p, actions[..|actions| - 1]);
      if before.None? then None else Apply(py, rp, before.value, actions[|actions| - 1])
  }

  function ApplyRule(py: Python, rp: Replacer, p: Product, rule: Rule<Json>): Option<Product> {
    if !rule.active then Some(p)
    else
      var holds := Evaluate(py, rule.when, p);
      if holds.None? then None
      else if !holds.value then Some(p)
      else ApplyAll(py, rp, p, rule.then_)
  }

  /** `process`; None where it raises. */
  function Run(py: Python, rp: Replacer, p: Product, rules: seq<Rule<Json>>): Option<Product> {
    if rules == [] then Some(p)
    else
      var before := Run(py, rp, p, rules[..|rules| - 1]);
      if before.None? then None else ApplyRule(py, rp, before.value, rules[|rules| - 1])
  }

  /** No regular expressions and no sub-fields of list elements. */
  ghost predicate Plainly(a: Action<Json>) {
    && (a.op == Some(Replace) ==> a.find.Some? && !StartsWith(a.find.value, "/"))
    && (a.field.Some? && RulePath(a.field.value).Some? ==>
      RulePath(a.field.value).value.index.None? || RulePath(a.field.value).value.sub.None?)
  }

  ghost predicate AcceptsRules(py: Python, rules: seq<Rule<Json>>) {
    forall i :: 0 <= i < |rules| ==>
      Accepts(py, rules[i].when) && forall j :: 0 <= j < |rules[i].then_| ==> AcceptsAction(rules[i].then_[j])
  }

  ghost predicate AllPlain(rules: seq<Rule<Json>>) {
    forall i :: 0 <= i < |rules| ==> forall j :: 0 <= j < |rules[i].then_| ==> Plainly(rules[i].then_[j])
  }

  /** No integer too large for a float, at any depth. */
  predicate Small(py: Python, v: Json) {
    match v
    case Num(lexeme) => !py.numeral(lexeme).TooLarge?
    case Arr(items) => forall i :: 0 <= i < |items| ==> Small(py, items[i])
    case Obj(fields) => forall k :: k in fields ==> Small(py, fields[k])
    case _ => true
  }

  predicate SmallProduct(py: Python, p: Product) {
    forall k :: k in p ==> Small(py, p[k])
  }

  ghost predicate SmallValues(py: Python, rules: seq<Rule<Json>>) {
    forall i :: 0 <= i < |rules| ==> forall j :: 0 <= j < |rules[i].then_| ==> Small(py, rules[i].then_[j].value)
  }

  lemma SmallValuesAreRead(py: Python, node: Json, p: Product)
    requires SmallProduct(py, p)
    ensures NumbersFit(py, node, p)
  {
    hide RulePath;
    forall f | f in NumericFields(node) ensures !AsNumber(py, FieldValue(p, f)).TooLarge? {
      ReadIsSmall(py, p, f);
    }
  }

  lemma SmallParts(py: Python, v: Json)
    requires Small(py, v)
    ensures forall sub :: Small(py, Get(v, sub))
    ensures v.Arr? ==> forall i :: 0 <= i < |v.items| ==> Small(py, v.items[i])
  {
  }

  lemma ReadIsSmall(py: Python, p: Product, field: string)
    requires SmallProduct(py, p)
    ensures Small(py, FieldValue(p, field))
  {
    hide RulePath, Small;
    SmallTexts(py);
    var path := RulePath(field);
    if path.Some? && path.value.attr in p {
      var v, index := p[path.value.attr], path.value.index;
      SmallParts(py, v);
      if v.Arr? && index.Some? && 1 <= index.value <= |v.items| { SmallParts(py, v.items[index.value - 1]); }
      if v.Arr? && |v.items| == 1 { SmallParts(py, v.items[0]); }
    }
  }

  lemma SmallTexts(py: Python)
    ensures Small(py, Null) && forall text :: Small(py, Str(text))
  {
  }

  lemma SmallList(py: Python, items: seq<Json>)
    requires forall i :: 0 <= i < |items| ==> Small(py, items[i])
    ensures Small(py, Arr(items))
  {
  }

  lemma ElementKeepsSmall(py: Python, rp: Replacer, p: Product, attr: string, n: nat, a: Action<Json>, op: Op)
    requires n >= 1 && SmallProduct(py, p) && ApplyToElement(py, rp, p, attr, n, a, op).Some?
    ensures SmallProduct(py, ApplyToElement(py, rp, p, attr, n, a, op).value)
  {
    hide Small, NewText;
    SmallTexts(py);
    var items := ItemsOf(p, attr);
    if attr in p { SmallParts(py, p[attr]); }
    if op == Remove {
      if |items| >= n { SmallList(py, items[..n - 1] + items[n..]); }
    } else if op == Clear {
      if |items| >= n { SmallList(py, items[n - 1 := Str("")]); }
    } else {
      var padded := Pad(items, n, Str(""));
      var text := NewText(py, rp, a, op, a.value, padded[n - 1]);
      SmallList(py, padded[n - 1 := Str(text.value)]);
    }
  }

  lemma SmallSub(py: Python, fields: Product, sub: string, v: Option<Json>)
    requires SmallProduct(py, fields) && (v.Some? ==> Small(py, v.value))
    ensures SmallProduct(py, Put(fields, sub, v))
  {
    hide Small;
  }

  lemma NewValueIsSmall(py: Python, rp: Replacer, a: Action<Json>, op: Op, current: Json)
    requires Small(py, a.value)
    ensures NewValue(py, rp, a, op, current).Some? && NewValue(py, rp, a, op, current).value.Some? ==>
      Small(py, NewValue(py, rp, a, op, current).value.value)
  {
    hide NewText;
  }

  lemma ApplyKeepsSmall(py: Python, rp: Replacer, p: Product, a: Action<Json>)
    requires SmallProduct(py, p) && Small(py, a.value) && Apply(py, rp, p, a).Some?
    ensures SmallProduct(py, Apply(py, rp, p, a).value)
  {
    hide RulePath, NewText, NewValue, Small, ApplyToElement, ApplyToSub;
    if a.op.value != Ai {
      var path, op := RulePath(a.field.value).value, a.op.value;
      if path.index.None? {
        NewValueIsSmall(py, rp, a, op, Lookup(p, a.field.value));
        SmallSub(py, p, a.field.value, NewValue(py, rp, a, op, Lookup(p, a.field.value)).value);
      } else {
        if path.attr in p { SmallParts(py, p[path.attr]); }
        if path.sub.Some? {
          SubKeepsSmall(py, rp, p, path.attr, path.index.value, path.sub.value, a, op);
        } else {
          ElementKeepsSmall(py, rp, p, path.attr, path.index.value, a, op);
        }
      }
    }
  }

  lemma SubKeepsSmall(py: Python, rp: Replacer, p: Product, attr: string, n: nat, sub: string, a: Action<Json>, op: Op)
    requires n >= 1 && SmallProduct(py, p) && Small(py, a.value) && ApplyToSub(py, rp, p, attr, n, sub, a, op).Some?
    requires forall i :: 0 <= i < |ItemsOf(p, attr)| ==> Small(py, ItemsOf(p, attr)[i])
    ensures SmallProduct(py, ApplyToSub(py, rp, p, attr, n, sub, a, op).value)
  {
    hide NewValue, Put;
    var padded := Pad(ItemsOf(p, attr), n, Obj(map[]));
    assert Small(py, Obj(map[]));
    forall i | 0 <= i < |padded| ensures Small(py, padded[i]) {}
    var element := padded[n - 1].fields;
    NewValueIsSmall(py, rp, a, op, Lookup(element, sub));
    var v := NewValue(py, rp, a, op, Lookup(element, sub)).value;
    SmallSub(py, element, sub, v);
    assert Small(py, Obj(Put(element, sub, v)));
    var after := padded[n - 1 := Obj(Put(element, sub, v))];
    assert Small(py, Arr(after));
  }

  lemma {:induction false} ApplyAllKeepsSmall(py: Python, rp: Replacer, p: Product, actions: seq<Action<Json>>)
    requires SmallProduct(py, p) && forall j :: 0 <= j < |actions| ==> Small(py, actions[j].value)
    ensures ApplyAll(py, rp, p, actions).Some? ==> SmallProduct(py, ApplyAll(py, rp, p, actions).value)
  {
    hide Apply, Small, SmallProduct;
    if actions != [] {
      var rest, last := actions[..|actions| - 1], actions[|actions| - 1];
      ApplyAllKeepsSmall(py, rp, p, rest);
      if ApplyAll(py, rp, p, actions).Some? { ApplyKeepsSmall(py, rp, ApplyAll(py, rp, p, rest).value, last); }
    }
  }

  lemma PlainActionSucceeds(py: Python, rp: Replacer, p: Product, a: Action<Json>)
    requires AcceptsAction(a) && Plainly(a)
    ensures Apply(py, rp, p, a).Some?
  {
    hide RulePath;
    AcceptedActionRaisesIff(py, rp, p, a);
  }

  lemma {:induction false} PlainActionsSucceed(py: Python, rp: Replacer, p: Product, actions: seq<Action<Json>>)
    requires forall j :: 0 <= j < |actions| ==> AcceptsAction(actions[j]) && Plainly(actions[j])
    ensures ApplyAll(py, rp, p, actions).Some?
  {
    hide Apply, AcceptsAction, Plainly;
    if actions != [] {
      PlainActionsSucceed(py, rp, p, actions[..|actions| - 1]);
      PlainActionSucceeds(py, rp, ApplyAll(py, rp, p, actions[..|actions| - 1]).value, actions[|actions| - 1]);
    }
  }

  /** Accepted rules without regular expressions and without sub-fields of elements run without an
      error, and each of them fires exactly when its condition holds, as long as no integer in the
      product or the configuration is too large for a float. */
  lemma {:induction false} AcceptedRunSucceeds(py: Python, rp: Replacer, p: Product, rules: seq<Rule<Json>>)
    requires AcceptsRules(py, rules) && AllPlain(rules) && SmallProduct(py, p) && SmallValues(py, rules)
    ensures Run(py, rp, p, rules).Some? && SmallProduct(py, Run(py, rp, p, rules).value)
    ensures rules != [] ==>
      var rule, before := rules[|rules| - 1], Run(py, rp, p, rules[..|rules| - 1]);
      before.Some? &&
      Run(py, rp, p, rules) ==
        if rule.active && Holds(py, rule.when, before.value) then ApplyAll(py, rp, before.value, rule.then_) else before
  {
    hide Apply, AcceptsAction, Plainly, Accepts, Evaluate, Holds, ApplyAll, Small, SmallProduct;
    if rules != [] {
      var rest, rule := rules[..|rules| - 1], rules[|rules| - 1];
      AcceptedRunSucceeds(py, rp, p, rest);
      var before := Run(py, rp, p, rest).value;
      SmallValuesAreRead(py, rule.when, before);
      AcceptedEvaluatesAsMeant(py, rule.when, before);
      PlainActionsSucceed(py, rp, before, rule.then_);
      ApplyAllKeepsSmall(py, rp, before, rule.then_);
    }
  }
}
