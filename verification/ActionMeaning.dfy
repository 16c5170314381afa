/** What rule actions leave in a product, and what a list of rules makes of it. */
module ActionMeaning {
  import opened Hashing
  import opened IndexedPath
  import opened RuleActions
  import opened RuleConditions
  import opened Wrappers

  // ----- One action -----

  /** The text written over a value by the actions that write text. */
  ghost predicate Writes(py: Python, rp: Replacer, a: Action<Json>, current: Json, text: string) {
    exists t :: IsText(py, current, t) &&
      match a.op
      case Some(Append) => exists u :: IsText(py, a.value, u) && text == t + u
      case Some(Prepend) => exists u :: IsText(py, a.value, u) && text == u + t
      case Some(Replace) =>
        && a.find.Some? && a.with_.Some?
        && if exists pattern :: a.find.value == "/" + pattern
           then rp.regex(a.find.value, a.with_.value, a.sensitive, t) == Some(text)
           else rp.literal(a.find.value, a.with_.value, a.sensitive, t) == text
      case _ => false
  }

  /** A key that held `current`, or nothing, where `current` is null, holds `after`, or nothing. */
  ghost predicate KeyBecomes(py: Python, rp: Replacer, a: Action<Json>, current: Json, after: Option<Json>) {
    match a.op
    case Some(Set) => after == Some(a.value)
    case Some(Remove) => after == None
    case Some(Clear) => after == Some(Str(""))
    case _ => exists text :: Writes(py, rp, a, current, text) && after == Some(Str(text))
  }

  /** A list element is written as a text, whatever the action. */
  ghost predicate ElementBecomes(py: Python, rp: Replacer, a: Action<Json>, current: Json, after: Json) {
    exists text :: after == Str(text) &&
      if a.op == Some(Set) then IsText(py, a.value, text) else Writes(py, rp, a, current, text)
  }

  function ValueAt(p: Product, k: string): Option<Json> {
    if k in p then Some(p[k]) else None
  }

  function NullIfNone(v: Option<Json>): Json {
    if v.Some? then v.value else Null
  }

  ghost predicate OnlyKeyDiffers(p: Product, q: Product, k: string) {
    forall other :: other != k ==> ValueAt(q, other) == ValueAt(p, other)
  }

  /** The items of a list attribute; none where there is no list. */
  ghost predicate Lists(p: Product, attr: string, items: seq<Json>) {
    if attr in p && p[attr].Arr? then p[attr] == Arr(items) else items == []
  }

  /** The list is filled up to `n` elements, and all but the last of these stay. */
  ghost predicate Filled(before: seq<Json>, after: seq<Json>, n: nat, filler: Json) {
    && |after| == (if |before| < n then n else |before|)
    && forall i: nat | i < |after| && i + 1 != n :: after[i] == if i < |before| then before[i] else filler
  }

  /** The `n`-th element is cut out, and the later ones move up. */
  ghost predicate CutOut(before: seq<Json>, after: seq<Json>, n: nat) {
    && |after| == |before| - 1
    && (forall i: nat | i + 1 < n && i < |after| :: after[i] == before[i])
    && (forall i: nat | n <= i + 1 && i < |after| :: after[i] == before[i + 1])
  }

  /** The items left by an action on the `n`-th element. */
  ghost predicate ItemsLeft(
    py: Python, rp: Replacer, a: Action<Json>, n: nat, before: seq<Json>, after: seq<Json>)
    requires n >= 1
  {
    if a.op == Some(Remove) then CutOut(before, after, n)
    else
      && Filled(before, after, n, Str(""))
      && if a.op == Some(Clear) then after[n - 1] == Str("")
         else ElementBecomes(py, rp, a, if n <= |before| then before[n - 1] else Str(""), after[n - 1])
  }

  ghost predicate ElementActed(
    py: Python, rp: Replacer, a: Action<Json>, n: nat, before: seq<Json>, p: Product, q: Product, attr: string)
    requires n >= 1
  {
    if a.op in {Some(Remove), Some(Clear)} && |before| < n then q == p
    else exists after :: ValueAt(q, attr) == Some(Arr(after)) && ItemsLeft(py, rp, a, n, before, after)
  }

  /** The element's sub-field is acted on like a key, and an element that is missing is made. */
  ghost predicate SubLeft(
    py: Python, rp: Replacer, a: Action<Json>, n: nat, sub: string, before: seq<Json>, after: seq<Json>)
    requires n >= 1
  {
    && Filled(before, after, n, Obj(map[]))
    && exists current: Product, changed: Product ::
      && Obj(current) == (if n <= |before| then before[n - 1] else Obj(map[])) && after[n - 1] == Obj(changed)
      && OnlyKeyDiffers(current, changed, sub)
      && KeyBecomes(py, rp, a, NullIfNone(ValueAt(current, sub)), ValueAt(changed, sub))
  }

  ghost predicate SubActed(
    py: Python, rp: Replacer, a: Action<Json>, n: nat, sub: string, before: seq<Json>, q: Product, attr: string)
    requires n >= 1
  {
    exists after :: ValueAt(q, attr) == Some(Arr(after)) && SubLeft(py, rp, a, n, sub, before, after)
  }

  ghost predicate IndexActed(
    py: Python, rp: Replacer, a: Action<Json>, n: nat, sub: Option<string>, p: Product, q: Product, attr: string)
    requires n >= 1
  {
    exists before ::
      && Lists(p, attr, before)
      && if sub.None? then ElementActed(py, rp, a, n, before, p, q, attr)
         else SubActed(py, rp, a, n, sub.value, before, q, attr)
  }

  /** A path with an index names an element of a list, or a sub-field of one; any other path is a key
      of its own. */
  ghost predicate PathActed(
    py: Python, rp: Replacer, a: Action<Json>, path: Path, p: Product, q: Product, key: string)
  {
    if path.index.None? then
      && OnlyKeyDiffers(p, q, key)
      && KeyBecomes(py, rp, a, NullIfNone(ValueAt(p, key)), ValueAt(q, key))
    else
      && path.index.value >= 1 && OnlyKeyDiffers(p, q, path.attr)
      && IndexActed(py, rp, a, path.index.value, path.sub, p, q, path.attr)
  }

  /** What an action leaves of a product. */
  ghost predicate Acted(py: Python, rp: Replacer, a: Action<Json>, p: Product, q: Product) {
    if a.op == Some(Ai) then q == p
    else
      && a.op.Some? && a.field.Some?
      && exists path :: Names(a.field.value, path) && PathActed(py, rp, a, path, p, q, a.field.value)
  }

  // ----- Applying gives what an action leaves -----

  lemma WritesIff(py: Python, rp: Replacer, a: Action<Json>, op: Op, current: Json, text: string)
    requires a.op == Some(op)
    ensures Writes(py, rp, a, current, text) <==>
      op in {Append, Prepend, Replace} && NewText(py, rp, a, op, a.value, current) == Some(text)
  {
    TextIs(py, current, AsText(py, current));
    TextIs(py, a.value, AsText(py, a.value));
    if a.find.Some? {
      StartsWithIff(a.find.value, "/");
    }
  }

  lemma KeyIff(py: Python, rp: Replacer, a: Action<Json>, op: Op, current: Json, after: Option<Json>)
    requires a.op == Some(op) && op != Ai
    ensures KeyBecomes(py, rp, a, current, after) <==> NewValue(py, rp, a, op, current) == Some(after)
  {
    hide Writes, NewText;
    var text := NewText(py, rp, a, op, a.value, current);
    if text.Some? { WritesIff(py, rp, a, op, current, text.value); }
    if op in {Append, Prepend, Replace} && after.Some? && after.value.Str? {
      WritesIff(py, rp, a, op, current, after.value.text);
    }
  }

  lemma PutIff(p: Product, q: Product, k: string, v: Option<Json>)
    ensures q == Put(p, k, v) <==> OnlyKeyDiffers(p, q, k) && ValueAt(q, k) == v
  {
    if OnlyKeyDiffers(p, q, k) && ValueAt(q, k) == v {
      var r := Put(p, k, v);
      forall other ensures other in q <==> other in r { assert other != k ==> ValueAt(q, other) == ValueAt(p, other); }
      forall other | other in q ensures q[other] == r[other] {
        assert other != k ==> ValueAt(q, other) == ValueAt(p, other);
      }
      assert q == r;
    }
  }

  lemma ElementIff(py: Python, rp: Replacer, a: Action<Json>, op: Op, current: Json, text: string)
    requires a.op == Some(op) && op !in {Ai, Remove, Clear}
    ensures ElementBecomes(py, rp, a, current, Str(text)) <==> NewText(py, rp, a, op, a.value, current) == Some(text)
  {
    hide Writes, NewText;
    TextIs(py, a.value, text);
    WritesIff(py, rp, a, op, current, text);
    SetText(py, rp, a, current);
  }

  lemma SetText(py: Python, rp: Replacer, a: Action<Json>, current: Json)
    ensures NewText(py, rp, a, Set, a.value, current) == Some(AsText(py, a.value))
  {
  }

  lemma FilledIs(before: seq<Json>, after: seq<Json>, n: nat, filler: Json)
    requires n >= 1
    ensures Filled(before, after, n, filler) <==>
      |after| == |Pad(before, n, filler)| && after == Pad(before, n, filler)[n - 1 := after[n - 1]]
  {
    var padded := Pad(before, n, filler);
    assert |padded| == if |before| < n then n else |before|;
    if Filled(before, after, n, filler) {
      forall i: nat | i < |after| ensures after[i] == padded[n - 1 := after[n - 1]][i] {
        if i + 1 != n { assert padded[i] == if i < |before| then before[i] else filler; }
      }
    }
    if |after| == |padded| && after == padded[n - 1 := after[n - 1]] {
      forall i: nat | i < |after| && i + 1 != n ensures after[i] == padded[i] {}
    }
  }

  lemma CutIs(before: seq<Json>, after: seq<Json>, n: nat)
    requires 1 <= n <= |before|
    ensures CutOut(before, after, n) <==> after == before[..n - 1] + before[n..]
  {
    var cut := before[..n - 1] + before[n..];
    if CutOut(before, after, n) {
      forall i: nat | i < |after| ensures after[i] == cut[i] {
        if i + 1 < n { assert after[i] == before[i]; } else { assert after[i] == before[i + 1]; }
      }
    }
  }

  lemma ItemsIff(py: Python, rp: Replacer, a: Action<Json>, op: Op, n: nat, before: seq<Json>, after: seq<Json>)
    requires a.op == Some(op) && op != Ai && n >= 1 && (op in {Remove, Clear} ==> n <= |before|)
    ensures ItemsLeft(py, rp, a, n, before, after) <==>
      if op == Remove then after == before[..n - 1] + before[n..]
      else if op == Clear then after == before[n - 1 := Str("")]
      else
        var padded := Pad(before, n, Str(""));
        var text := NewText(py, rp, a, op, a.value, padded[n - 1]);
        text.Some? && after == padded[n - 1 := Str(text.value)]
  {
    hide NewText, ElementBecomes, Filled, CutOut;
    FilledIs(before, after, n, Str(""));
    if op == Remove {
      CutIs(before, after, n);
    } else if op != Clear {
      var current := Pad(before, n, Str(""))[n - 1];
      assert current == if n <= |before| then before[n - 1] else Str("");
      if |after| >= n && after[n - 1].Str? { ElementIff(py, rp, a, op, current, after[n - 1].text); }
      ElementIsText(py, rp, a, current, if |after| >= n then after[n - 1] else Null);
    }
  }

  lemma ElementIsText(py: Python, rp: Replacer, a: Action<Json>, current: Json, after: Json)
    ensures ElementBecomes(py, rp, a, current, after) ==> after.Str?
  {
  }

  lemma SubIff(py: Python, rp: Replacer, a: Action<Json>, op: Op, n: nat, sub: string, before: seq<Json>,
      after: seq<Json>)
    requires a.op == Some(op) && op != Ai && n >= 1
    ensures SubLeft(py, rp, a, n, sub, before, after) <==>
      var padded := Pad(before, n, Obj(map[]));
      padded[n - 1].Obj? &&
      var element := padded[n - 1].fields;
      var v := NewValue(py, rp, a, op, Lookup(element, sub));
      v.Some? && after == padded[n - 1 := Obj(Put(element, sub, v.value))]
  {
    hide KeyBecomes, NewValue, Filled, Put, OnlyKeyDiffers;
    FilledIs(before, after, n, Obj(map[]));
    var padded := Pad(before, n, Obj(map[]));
    assert padded[n - 1] == if n <= |before| then before[n - 1] else Obj(map[]);
    if padded[n - 1].Obj? && |after| >= n && after[n - 1].Obj? {
      var element, changed := padded[n - 1].fields, after[n - 1].fields;
      assert Lookup(element, sub) == NullIfNone(ValueAt(element, sub));
      KeyIff(py, rp, a, op, Lookup(element, sub), ValueAt(changed, sub));
      PutIff(element, changed, sub, ValueAt(changed, sub));
      var v := NewValue(py, rp, a, op, Lookup(element, sub));
      if v.Some? { PutIff(element, changed, sub, v.value); }
    }
  }

  lemma ListedIs(p: Product, attr: string, before: seq<Json>)
    ensures Lists(p, attr, before) <==> before == ItemsOf(p, attr)
  {
  }

  lemma ElementApplied(py: Python, rp: Replacer, p: Product, q: Product, attr: string, n: nat, a: Action<Json>, op: Op)
    requires n >= 1 && a.op == Some(op) && op != Ai
    ensures ApplyToElement(py, rp, p, attr, n, a, op) == Some(q) <==>
      OnlyKeyDiffers(p, q, attr) && ElementActed(py, rp, a, n, ItemsOf(p, attr), p, q, attr)
  {
    hide ItemsLeft, NewText, OnlyKeyDiffers;
    var before := ItemsOf(p, attr);
    PutIff(p, q, attr, ValueAt(q, attr));
    PutIff(p, p, attr, ValueAt(p, attr));
    if !(op in {Remove, Clear} && |before| < n) {
      forall after ensures
        ItemsLeft(py, rp, a, n, before, after) <==>
          ApplyToElement(py, rp, p, attr, n, a, op) == Some(p[attr := Arr(after)])
      {
        ItemsIff(py, rp, a, op, n, before, after);
        assert p[attr := Arr(after)][attr] == Arr(after);
      }
    }
  }

  lemma SubApplied(py: Python, rp: Replacer, p: Product, q: Product, attr: string, n: nat, sub: string,
      a: Action<Json>, op: Op)
    requires n >= 1 && a.op == Some(op) && op != Ai
    ensures ApplyToSub(py, rp, p, attr, n, sub, a, op) == Some(q) <==>
      OnlyKeyDiffers(p, q, attr) && SubActed(py, rp, a, n, sub, ItemsOf(p, attr), q, attr)
  {
    hide SubLeft, NewValue, OnlyKeyDiffers;
    var before := ItemsOf(p, attr);
    PutIff(p, q, attr, ValueAt(q, attr));
    forall after
      ensures SubLeft(py, rp, a, n, sub, before, after) <==>
        ApplyToSub(py, rp, p, attr, n, sub, a, op) == Some(p[attr := Arr(after)])
    {
      SubIff(py, rp, a, op, n, sub, before, after);
      assert p[attr := Arr(after)][attr] == Arr(after);
    }
  }

  lemma KeyApplied(py: Python, rp: Replacer, p: Product, q: Product, key: string, a: Action<Json>, op: Op)
    requires a.op == Some(op) && op != Ai
    ensures
      var v := NewValue(py, rp, a, op, Lookup(p, key));
      (v.Some? && q == Put(p, key, v.value)) <==>
        OnlyKeyDiffers(p, q, key) && KeyBecomes(py, rp, a, NullIfNone(ValueAt(p, key)), ValueAt(q, key))
  {
    hide NewValue, KeyBecomes, OnlyKeyDiffers, Put;
    var v := NewValue(py, rp, a, op, Lookup(p, key));
    KeyIff(py, rp, a, op, Lookup(p, key), ValueAt(q, key));
    PutIff(p, q, key, ValueAt(q, key));
    if v.Some? { PutIff(p, q, key, v.value); }
  }

  lemma PathApplied(py: Python, rp: Replacer, a: Action<Json>, path: Path, p: Product, q: Product)
    requires a.op.Some? && a.op != Some(Ai) && a.field.Some? && RulePath(a.field.value) == Some(path)
    ensures Apply(py, rp, p, a) == Some(q) <==> PathActed(py, rp, a, path, p, q, a.field.value)
  {
    hide ApplyToElement, ApplyToSub, NewValue, Put, OnlyKeyDiffers, KeyBecomes, ElementActed, SubActed, RulePath, Lists;
    if path.index.None? {
      KeyApplied(py, rp, p, q, a.field.value, a, a.op.value);
    } else if path.index.value >= 1 {
      ListedIs(p, path.attr, ItemsOf(p, path.attr));
      forall before | Lists(p, path.attr, before) ensures before == ItemsOf(p, path.attr) {
        ListedIs(p, path.attr, before);
      }
      if path.sub.None? {
        ElementApplied(py, rp, p, q, path.attr, path.index.value, a, a.op.value);
      } else {
        SubApplied(py, rp, p, q, path.attr, path.index.value, path.sub.value, a, a.op.value);
      }
    }
  }

  /** Applying an action succeeds with exactly the product that the action means; where there is
      none, it raises. */
  lemma ActionIff(py: Python, rp: Replacer, p: Product, a: Action<Json>, q: Product)
    ensures Apply(py, rp, p, a) == Some(q) <==> Acted(py, rp, a, p, q)
  {
    hide PathActed, Names, RulePath, ApplyToElement, ApplyToSub, NewValue, Put;
    if a.op.Some? && a.op != Some(Ai) && a.field.Some? {
      forall path ensures RulePath(a.field.value) == Some(path) <==> Names(a.field.value, path) {
        RulePathIff(a.field.value, path);
      }
      if RulePath(a.field.value).Some? { PathApplied(py, rp, a, RulePath(a.field.value).value, p, q); }
    }
  }

  // ----- Lists of actions and rules -----

  /** The products between actions: each action acts on what the one before left. */
  ghost predicate ActedInOrder(py: Python, rp: Replacer, actions: seq<Action<Json>>, products: seq<Product>) {
    && |products| == |actions| + 1
    && forall i: nat | i < |actions| :: Acted(py, rp, actions[i], products[i], products[i + 1])
  }

  lemma {:induction false} ActionsTraced(py: Python, rp: Replacer, p: Product, actions: seq<Action<Json>>)
    returns (products: seq<Product>)
    requires ApplyAll(py, rp, p, actions).Some?
    ensures ActedInOrder(py, rp, actions, products)
    ensures products[0] == p && Some(products[|actions|]) == ApplyAll(py, rp, p, actions)
  {
    hide Apply, Acted;
    if actions == [] {
      products := [p];
    } else {
      var n := |actions| - 1;
      var before := ActionsTraced(py, rp, p, actions[..n]);
      var after := ApplyAll(py, rp, p, actions).value;
      ActionIff(py, rp, before[n], actions[n], after);
      products := before + [after];
      forall i: nat | i < |actions| ensures Acted(py, rp, actions[i], products[i], products[i + 1]) {
        if i < n { assert actions[..n][i] == actions[i]; }
      }
    }
  }

  lemma {:induction false} TracedActions(
    py: Python, rp: Replacer, actions: seq<Action<Json>>, products: seq<Product>)
    requires ActedInOrder(py, rp, actions, products)
    ensures ApplyAll(py, rp, products[0], actions) == Some(products[|actions|])
  {
    hide Apply, Acted;
    if actions != [] {
      var n := |actions| - 1;
      forall i: nat | i < n
        ensures Acted(py, rp, actions[..n][i], products[..|actions|][i], products[..|actions|][i + 1])
      {
        assert Acted(py, rp, actions[i], products[i], products[i + 1]);
      }
      TracedActions(py, rp, actions[..n], products[..|actions|]);
      ActionIff(py, rp, products[n], actions[n], products[n + 1]);
    }
  }

  ghost predicate ActionsLead(py: Python, rp: Replacer, actions: seq<Action<Json>>, p: Product, q: Product) {
    exists products ::
      ActedInOrder(py, rp, actions, products) && products[0] == p && products[|actions|] == q
  }

  lemma ActionsIff(py: Python, rp: Replacer, p: Product, actions: seq<Action<Json>>, q: Product)
    ensures ApplyAll(py, rp, p, actions) == Some(q) <==> ActionsLead(py, rp, actions, p, q)
  {
    hide ApplyAll, ActedInOrder;
    if ApplyAll(py, rp, p, actions) == Some(q) {
      var products := ActionsTraced(py, rp, p, actions);
      ActedLength(py, rp, actions, products);
    }
    if ActionsLead(py, rp, actions, p, q) { LeadApplies(py, rp, p, actions, q); }
  }

  lemma ActedLength(py: Python, rp: Replacer, actions: seq<Action<Json>>, products: seq<Product>)
    requires ActedInOrder(py, rp, actions, products)
    ensures |products| == |actions| + 1
  {
  }

  lemma LeadApplies(py: Python, rp: Replacer, p: Product, actions: seq<Action<Json>>, q: Product)
    requires ActionsLead(py, rp, actions, p, q)
    ensures ApplyAll(py, rp, p, actions) == Some(q)
  {
    hide ApplyAll, Acted;
    var products :| ActedInOrder(py, rp, actions, products) && products[0] == p && products[|actions|] == q;
    TracedActions(py, rp, actions, products);
  }

  /** One rule: skipped when it is inactive or its condition does not hold, and otherwise all of its
      actions, in order. */
  ghost predicate Ruled(py: Python, rp: Replacer, rule: Rule<Json>, p: Product, q: Product) {
    if !rule.active || Evaluate(py, rule.when, p) == Some(false) then q == p
    else Evaluate(py, rule.when, p) == Some(true) && ActionsLead(py, rp, rule.then_, p, q)
  }

  ghost predicate RuledInOrder(py: Python, rp: Replacer, rules: seq<Rule<Json>>, products: seq<Product>) {
    && |products| == |rules| + 1
    && forall i: nat | i < |rules| :: Ruled(py, rp, rules[i], products[i], products[i + 1])
  }

  lemma RuleIff(py: Python, rp: Replacer, rule: Rule<Json>, p: Product, q: Product)
    ensures ApplyRule(py, rp, p, rule) == Some(q) <==> Ruled(py, rp, rule, p, q)
  {
    hide Evaluate, ApplyAll, ActionsLead;
    ActionsIff(py, rp, p, rule.then_, q);
  }

  lemma {:induction false} RulesTraced(py: Python, rp: Replacer, p: Product, rules: seq<Rule<Json>>)
    returns (products: seq<Product>)
    requires Run(py, rp, p, rules).Some?
    ensures RuledInOrder(py, rp, rules, products)
    ensures products[0] == p && Some(products[|rules|]) == Run(py, rp, p, rules)
  {
    hide ApplyRule, Ruled;
    if rules == [] {
      products := [p];
    } else {
      var n := |rules| - 1;
      var before := RulesTraced(py, rp, p, rules[..n]);
      var after := Run(py, rp, p, rules).value;
      RuleIff(py, rp, rules[n], before[n], after);
      products := before + [after];
      forall i: nat | i < |rules| ensures Ruled(py, rp, rules[i], products[i], products[i + 1]) {
        if i < n { assert rules[..n][i] == rules[i]; }
      }
    }
  }

  lemma {:induction false} TracedRules(py: Python, rp: Replacer, rules: seq<Rule<Json>>, products: seq<Product>)
    requires RuledInOrder(py, rp, rules, products)
    ensures Run(py, rp, products[0], rules) == Some(products[|rules|])
  {
    hide ApplyRule, Ruled;
    if rules != [] {
      var n := |rules| - 1;
      forall i: nat | i < n ensures Ruled(py, rp, rules[..n][i], products[..|rules|][i], products[..|rules|][i + 1]) {
        assert Ruled(py, rp, rules[i], products[i], products[i + 1]);
      }
      TracedRules(py, rp, rules[..n], products[..|rules|]);
      RuleIff(py, rp, rules[n], products[n], products[n + 1]);
    }
  }

  /** Rules run from first to last, each on what the one before left. */
  lemma RunIff(py: Python, rp: Replacer, p: Product, rules: seq<Rule<Json>>, q: Product)
    ensures Run(py, rp, p, rules) == Some(q) <==>
      exists products ::
        RuledInOrder(py, rp, rules, products) && products[0] == p && products[|rules|] == q
  {
    hide Run, Ruled;
    if Run(py, rp, p, rules) == Some(q) {
      var products := RulesTraced(py, rp, p, rules);
    }
    forall products | RuledInOrder(py, rp, rules, products) && products[0] == p && products[|rules|] == q
      ensures Run(py, rp, p, rules) == Some(q)
    {
      TracedRules(py, rp, rules, products);
    }
  }
}
