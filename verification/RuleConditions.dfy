/** Conditions of transformation rules: how they are checked when a configuration is saved, and how
    they are evaluated on a product. */
module RuleConditions {
  import opened Hashing
  import opened IndexedPath
  import opened PathValues
  import opened Texts
  import opened Wrappers

  type Product = map<string, Json>

  /** What `float` makes of a JSON number: it raises OverflowError on an integer beyond its range. */
  datatype Parsed = NotNumber | Number(value: real) | TooLarge

  /** Python's `str`, `bool`, `lower`, `float` and regular expressions. */
  datatype Python = Python(
    show: Json -> string,
    truthy: Json -> bool,
    lower: string -> string,
    numeral: string -> Parsed,
    parse: string -> Option<real>,
    compiles: string -> bool,
    search: (string, string) -> bool)

  function Get(v: Json, key: string): Json {
    if v.Obj? && key in v.fields then v.fields[key] else Null
  }

  function RulePath(field: string): Option<Path> {
    var path := LoosePath(field);
    if path.Some? && path.value.index.Some? && path.value.index.value > MAX_INDEX then None else path
  }

  function FieldValue(p: Product, field: string): Json {
    var path := RulePath(field);
    if path.None? || path.value.attr !in p then Null
    else
      var v, index, sub := p[path.value.attr], path.value.index, path.value.sub;
      if index.Some? then
        if !v.Arr? || |v.items| < index.value || index.value < 1 then Null
        else if sub.Some? then Get(v.items[index.value - 1], sub.value)
        else v.items[index.value - 1]
      else if sub.Some? then
        if v.Arr? then (if |v.items| == 1 then Get(v.items[0], sub.value) else Null) else Get(v, sub.value)
      else v
  }

  function AsText(py: Python, v: Json): string {
    match v
    case Null => ""
    case Str(text) => text
    case _ => py.show(v)
  }

  /** `_as_number`. */
  function AsNumber(py: Python, v: Json): Parsed {
    match v
    case Num(lexeme) => py.numeral(lexeme)
    case Str(text) => if py.parse(text).Some? then Number(py.parse(text).value) else NotNumber
    case _ => NotNumber
  }

  predicate Contains(s: string, part: string) {
    StartsWith(s, part) || (s != "" && Contains(s[1..], part))
  }

  const TEXT_OPS := {"equals", "contains", "starts_with", "ends_with"}
  const NUMBER_OPS := {"gt", "lt", "gte", "lte", "between"}

  predicate CompareTexts(py: Python, op: string, value: Json, arg: Json, sensitive: bool) {
    var actual := if sensitive then AsText(py, value) else py.lower(AsText(py, value));
    var expected := if sensitive then AsText(py, arg) else py.lower(AsText(py, arg));
    if op == "equals" then actual == expected
    else if op == "contains" then Contains(actual, expected)
    else if op == "starts_with" then StartsWith(actual, expected)
    else EndsWith(actual, expected)
  }

  /** None where the comparison raises. */
  function CompareNumbers(py: Python, op: string, value: Json, arg: Json, arg2: Json): Option<bool> {
    var number, bound := AsNumber(py, value), AsNumber(py, arg);
    if number.TooLarge? || bound.TooLarge? then None
    else if number.NotNumber? || bound.NotNumber? then Some(false)
    else if op == "gt" then Some(number.value > bound.value)
    else if op == "lt" then Some(number.value < bound.value)
    else if op == "gte" then Some(number.value >= bound.value)
    else if op == "lte" then Some(number.value <= bound.value)
    else
      var upper := AsNumber(py, arg2);
      if upper.Number? then Some(bound.value <= number.value <= upper.value) else None
  }

  function Leaf(py: Python, op: string, node: Json, p: Product): Option<bool> {
    var field := Get(node, "field");
    if !field.Str? || field.text == "" then None
    else
      var value, arg := FieldValue(p, field.text), Get(node, "arg");
      if op == "exists" then Some(value != Null)
      else if op == "empty" then Some(value == Null || value == Str(""))
      else if op in TEXT_OPS then
        if arg == Null then None
        else
          var cases := node.Obj? && ("caseSensitive" in node.fields ==> py.truthy(node.fields["caseSensitive"]));
          Some(CompareTexts(py, op, value, arg, cases))
      else if op == "regex" then
        if arg == Null || !py.compiles(AsText(py, arg)) then None
        else Some(py.search(AsText(py, arg), AsText(py, value)))
      else if op in NUMBER_OPS then
        if arg == Null then None else CompareNumbers(py, op, value, arg, Get(node, "arg2"))
      else None
  }

  /** `evaluate_condition`; None where it raises. Children are looked at only until one decides. */
  function Evaluate(py: Python, node: Json, p: Product): Option<bool>
    decreases node, 1
  {
    if !node.Obj? || "op" !in node.fields || !node.fields["op"].Str? then None
    else
      var op := node.fields["op"].text;
      if op == "all" then Some(true)
      else if op == "and" || op == "or" then
        if "children" !in node.fields || !node.fields["children"].Arr? || node.fields["children"].items == [] then None
        else EvaluateFrom(py, node.fields["children"].items, 0, op == "and", p)
      else Leaf(py, op, node, p)
  }

  function EvaluateFrom(py: Python, children: seq<Json>, i: nat, all: bool, p: Product): Option<bool>
    requires i <= |children|
    decreases children, |children| - i
  {
    if i == |children| then Some(all)
    else
      var first := Evaluate(py, children[i], p);
      if first.None? || first.value != all then first else EvaluateFrom(py, children, i + 1, all, p)
  }

  // ----- Validation -----

  /** `_validate_condition` accepts. */
  predicate Accepts(py: Python, node: Json)
    decreases node
  {
    node.Obj? && "op" in node.fields && node.fields["op"].Str? &&
    var op, field, arg := node.fields["op"].text, Get(node, "field"), Get(node, "arg");
    if op == "all" then true
    else if op == "and" || op == "or" then
      "children" in node.fields && node.fields["children"].Arr? && node.fields["children"].items != []
      && forall i :: 0 <= i < |node.fields["children"].items| ==> Accepts(py, node.fields["children"].items[i])
    else
      field.Str? && field.text != "" &&
      if op == "exists" || op == "empty" then true
      else if op in TEXT_OPS then arg != Null
      else if op == "regex" then arg != Null && py.compiles(AsText(py, arg))
      else if op == "between" then AsNumber(py, arg).Number? && AsNumber(py, Get(node, "arg2")).Number?
      else op in NUMBER_OPS && AsNumber(py, arg).Number?
  }

  // ----- Which value a condition reads -----

  /** The paths the plugin reads a field name as. */
  ghost predicate Names(field: string, path: Path) {
    && Spells(field, path) && path.attr != ""
    && (path.index.Some? ==> 1 <= path.index.value <= MAX_INDEX && path.sub != Some(""))
  }

  lemma RulePathIff(field: string, path: Path)
    ensures RulePath(field) == Some(path) <==> Names(field, path)
  {
    hide Spells, LoosePath;
    LoosePathIff(field, path);
  }

  /** A condition reads a value, other than null, exactly when its field names a path to it. */
  lemma ConditionReadsIff(p: Product, field: string, v: Json)
    requires v != Null
    ensures FieldValue(p, field) == v <==> exists path :: Names(field, path) && LeadsTo(p, path, v)
  {
    hide RulePath, Names;
    if RulePath(field).Some? { RulePathIff(field, RulePath(field).value); }
    forall path | Names(field, path) ensures RulePath(field) == Some(path) { RulePathIff(field, path); }
    if RulePath(field).Some? {
      var path := RulePath(field).value;
      PathLeads(p, field, path, v);
    }
  }

  lemma PathLeads(p: Product, field: string, path: Path, v: Json)
    requires v != Null && RulePath(field) == Some(path)
    ensures FieldValue(p, field) == v <==> LeadsTo(p, path, v)
  {
    hide RulePath;
    if path.attr in p && path.index.None? && path.sub.Some? && p[path.attr].Arr? && |p[path.attr].items| == 1 {
      assert p[path.attr] == Arr([p[path.attr].items[0]]);
    }
  }

  // ----- Meaning -----

  /** No value counts as an empty text. */
  ghost predicate IsText(py: Python, v: Json, t: string) {
    if v == Null then t == "" else if v.Str? then v == Str(t) else t == py.show(v)
  }

  ghost predicate IsNumber(py: Python, v: Json, x: real) {
    || (v.Num? && py.numeral(v.lexeme) == Number(x))
    || (v.Str? && py.parse(v.text) == Some(x))
  }

  ghost predicate Within(part: string, s: string) {
    exists u, v :: s == u + part + v
  }

  /** Two texts, as they are or both lowered, stand in the relation an operator names. */
  ghost predicate TextsStand(op: string, actual: string, expected: string) {
    && (op == "equals" ==> actual == expected)
    && (op == "contains" ==> Within(expected, actual))
    && (op == "starts_with" ==> exists v :: actual == expected + v)
    && (op == "ends_with" ==> exists u :: actual == u + expected)
  }

  ghost predicate Insensitive(py: Python, node: Json) {
    node.Obj? && "caseSensitive" in node.fields && !py.truthy(node.fields["caseSensitive"])
  }

  ghost predicate NumbersStand(op: string, x: real, y: real) {
    && (op == "gt" ==> x > y) && (op == "gte" ==> x >= y)
    && (op == "lt" ==> x < y) && (op == "lte" ==> x <= y)
    && (op == "between" ==> x >= y)
  }

  /** What a comparison says of the value it reads. */
  ghost predicate Compares(py: Python, op: string, node: Json, value: Json) {
    var arg := Get(node, "arg");
    if op == "exists" then value != Null
    else if op == "empty" then value == Null || value == Str("")
    else if op in TEXT_OPS then
      exists t, u :: IsText(py, value, t) && IsText(py, arg, u) &&
        if Insensitive(py, node) then TextsStand(op, py.lower(t), py.lower(u)) else TextsStand(op, t, u)
    else if op == "regex" then
      exists t, u :: IsText(py, value, t) && IsText(py, arg, u) && py.search(u, t)
    else op in NUMBER_OPS && NumbersCompare(py, op, value, arg, Get(node, "arg2"))
  }

  ghost predicate NumbersCompare(py: Python, op: string, value: Json, arg: Json, arg2: Json) {
    exists x, y :: IsNumber(py, value, x) && IsNumber(py, arg, y) && NumbersStand(op, x, y) &&
      (op == "between" ==> exists z :: IsNumber(py, arg2, z) && x <= z)
  }

  lemma WithinOneMore(part: string, s: string)
    requires s != ""
    ensures Within(part, s) <==> StartsWith(s, part) || Within(part, s[1..])
  {
    if StartsWith(s, part) {
      assert s == "" + part + s[|part|..];
    } else if Within(part, s[1..]) {
      var u, v :| s[1..] == u + part + v;
      assert s == ([s[0]] + u) + part + v;
    }
    if Within(part, s) {
      var u, v :| s == u + part + v;
      if u == "" {
        assert s[..|part|] == part;
      } else {
        assert s[1..] == u[1..] + part + v;
      }
    }
  }

  lemma {:induction false} ContainsIff(s: string, part: string)
    ensures Contains(s, part) <==> Within(part, s)
  {
    hide StartsWith, Within;
    if s != "" {
      ContainsIff(s[1..], part);
      WithinOneMore(part, s);
    } else {
      NothingWithin(part);
    }
  }

  lemma NothingWithin(part: string)
    ensures Within(part, "") <==> StartsWith("", part)
  {
    if Within(part, "") {
      var u, v :| "" == u + part + v;
      assert |u + part + v| == |u| + |part| + |v|;
    }
    if part == "" { assert "" == "" + part + ""; }
  }

  lemma StartsWithIff(s: string, prefix: string)
    ensures StartsWith(s, prefix) <==> exists v :: s == prefix + v
  {
    if StartsWith(s, prefix) { assert s == prefix + s[|prefix|..]; }
    if v :| s == prefix + v { assert s[..|prefix|] == prefix; }
  }

  lemma EndsWithIff(s: string, suffix: string)
    ensures EndsWith(s, suffix) <==> exists u :: s == u + suffix
  {
    if EndsWith(s, suffix) { assert s == s[..|s| - |suffix|] + suffix; }
    if u :| s == u + suffix { assert s[|u|..] == suffix; }
  }

  lemma TextsStandIff(py: Python, op: string, value: Json, arg: Json, sensitive: bool)
    requires op in TEXT_OPS
    ensures
      var t, u := AsText(py, value), AsText(py, arg);
      CompareTexts(py, op, value, arg, sensitive) <==>
        if sensitive then TextsStand(op, t, u) else TextsStand(op, py.lower(t), py.lower(u))
  {
    hide Contains, AsText, Within, StartsWith, EndsWith;
    var actual := if sensitive then AsText(py, value) else py.lower(AsText(py, value));
    var expected := if sensitive then AsText(py, arg) else py.lower(AsText(py, arg));
    ContainsIff(actual, expected);
    StartsWithIff(actual, expected);
    EndsWithIff(actual, expected);
  }

  lemma TextIs(py: Python, v: Json, t: string)
    ensures IsText(py, v, t) <==> AsText(py, v) == t
  {
  }

  lemma NumberIs(py: Python, v: Json, x: real)
    ensures IsNumber(py, v, x) <==> AsNumber(py, v) == Number(x)
  {
  }

  lemma TextsMean(py: Python, node: Json, op: string, value: Json)
    requires node.Obj? && op in TEXT_OPS
    ensures CompareTexts(py, op, value, Get(node, "arg"), !Insensitive(py, node)) <==> Compares(py, op, node, value)
  {
    hide AsText, IsText, CompareTexts, TextsStand;
    var arg := Get(node, "arg");
    TextIs(py, value, AsText(py, value));
    TextIs(py, arg, AsText(py, arg));
    TextsStandIff(py, op, value, arg, !Insensitive(py, node));
    forall t | IsText(py, value, t) ensures t == AsText(py, value) { TextIs(py, value, t); }
    forall t | IsText(py, arg, t) ensures t == AsText(py, arg) { TextIs(py, arg, t); }
  }

  lemma RegexMeans(py: Python, node: Json, value: Json)
    ensures py.search(AsText(py, Get(node, "arg")), AsText(py, value)) <==> Compares(py, "regex", node, value)
  {
    hide AsText, IsText;
    var arg := Get(node, "arg");
    TextIs(py, value, AsText(py, value));
    TextIs(py, arg, AsText(py, arg));
    forall t | IsText(py, value, t) ensures t == AsText(py, value) { TextIs(py, value, t); }
    forall t | IsText(py, arg, t) ensures t == AsText(py, arg) { TextIs(py, arg, t); }
  }

  lemma NumbersStandIff(py: Python, op: string, value: Json, arg: Json, arg2: Json)
    requires op in NUMBER_OPS && AsNumber(py, value).Number? && AsNumber(py, arg).Number?
    requires op == "between" ==> AsNumber(py, arg2).Number?
    ensures
      var x, y := AsNumber(py, value).value, AsNumber(py, arg).value;
      CompareNumbers(py, op, value, arg, arg2) ==
        Some(NumbersStand(op, x, y) && (op == "between" ==> x <= AsNumber(py, arg2).value))
  {
    hide AsNumber;
  }

  lemma NumbersMean(py: Python, op: string, value: Json, arg: Json, arg2: Json)
    requires op in NUMBER_OPS && AsNumber(py, arg).Number?
    requires op == "between" ==> AsNumber(py, arg2).Number?
    requires !AsNumber(py, value).TooLarge?
    ensures CompareNumbers(py, op, value, arg, arg2) == Some(NumbersCompare(py, op, value, arg, arg2))
  {
    forall x ensures IsNumber(py, value, x) <==> AsNumber(py, value) == Number(x) { NumberIs(py, value, x); }
    forall x ensures IsNumber(py, arg, x) <==> AsNumber(py, arg) == Number(x) { NumberIs(py, arg, x); }
    forall x ensures IsNumber(py, arg2, x) <==> AsNumber(py, arg2) == Number(x) { NumberIs(py, arg2, x); }
    if AsNumber(py, value).Number? {
      NumbersStandIff(py, op, value, arg, arg2);
      hide AsNumber, IsNumber, CompareNumbers, NumbersStand;
      assert IsNumber(py, value, AsNumber(py, value).value) && IsNumber(py, arg, AsNumber(py, arg).value);
      if op == "between" { assert IsNumber(py, arg2, AsNumber(py, arg2).value); }
    }
  }

  /** An accepted comparison that does not raise says what its operator means. */
  lemma LeafMeans(py: Python, node: Json, p: Product)
    requires Accepts(py, node) && node.fields["op"].text !in {"all", "and", "or"}
    ensures
      var op, leaf := node.fields["op"].text, Leaf(py, node.fields["op"].text, node, p);
      leaf.Some? ==> leaf.value == Compares(py, op, node, FieldValue(p, Get(node, "field").text))
  {
    hide FieldValue, AsText, AsNumber, CompareTexts, CompareNumbers, NumbersCompare;
    var op, value := node.fields["op"].text, FieldValue(p, Get(node, "field").text);
    if op in TEXT_OPS {
      TextsMean(py, node, op, value);
      hide Compares;
    } else if op == "regex" {
      RegexMeans(py, node, value);
      hide Compares;
    } else if op in NUMBER_OPS {
      AcceptedLeafRaisesIff(py, node, p);
      AcceptedNumbers(py, node);
      if !AsNumber(py, value).TooLarge? { NumbersMean(py, op, value, Get(node, "arg"), Get(node, "arg2")); }
    }
  }

  /** What a condition says, without order of evaluation and without errors. */
  ghost predicate Holds(py: Python, node: Json, p: Product)
    decreases node
  {
    node.Obj? && "op" in node.fields && node.fields["op"].Str? &&
    var op := node.fields["op"].text;
    if op == "all" then true
    else if op == "and" && "children" in node.fields && node.fields["children"].Arr? then
      forall i :: 0 <= i < |node.fields["children"].items| ==> Holds(py, node.fields["children"].items[i], p)
    else if op == "or" && "children" in node.fields && node.fields["children"].Arr? then
      exists i :: 0 <= i < |node.fields["children"].items| && Holds(py, node.fields["children"].items[i], p)
    else Get(node, "field").Str? && Compares(py, op, node, FieldValue(p, Get(node, "field").text))
  }

  /** The fields a condition compares as numbers. */
  function NumericFields(node: Json): set<string>
    decreases node
  {
    if !node.Obj? || "op" !in node.fields || !node.fields["op"].Str? then {}
    else
      var op := node.fields["op"].text;
      if op == "and" || op == "or" then
        if "children" in node.fields && node.fields["children"].Arr? then
          var children := node.fields["children"].items;
          set i, f | 0 <= i < |children| && f in NumericFields(children[i]) :: f
        else {}
      else if op in NUMBER_OPS && Get(node, "field").Str? then {Get(node, "field").text}
      else {}
  }

  /** No value compared as a number is an integer too large for a float. */
  ghost predicate NumbersFit(py: Python, node: Json, p: Product) {
    forall f :: f in NumericFields(node) ==> !AsNumber(py, FieldValue(p, f)).TooLarge?
  }

  /** An accepted comparison raises exactly when the value it reads is too large a number. */
  lemma AcceptedLeafRaisesIff(py: Python, node: Json, p: Product)
    requires Accepts(py, node) && node.fields["op"].text !in {"all", "and", "or"}
    ensures Leaf(py, node.fields["op"].text, node, p).None? <==>
      node.fields["op"].text in NUMBER_OPS && AsNumber(py, FieldValue(p, Get(node, "field").text)).TooLarge?
  {
    hide FieldValue, AsText, CompareTexts;
    if node.fields["op"].text in NUMBER_OPS { AcceptedNumbers(py, node); }
  }

  lemma AcceptedNumbers(py: Python, node: Json)
    requires Accepts(py, node) && node.fields["op"].text in NUMBER_OPS
    ensures Get(node, "field").Str? && Get(node, "field").text != ""
    ensures AsNumber(py, Get(node, "arg")).Number? && Get(node, "arg") != Null
    ensures node.fields["op"].text == "between" ==> AsNumber(py, Get(node, "arg2")).Number?
  {
  }

  ghost predicate IsNumeric(py: Python, v: Json) {
    exists x: real :: IsNumber(py, v, x)
  }

  ghost predicate RaisesOnLarge(py: Python, node: Json, op: string, p: Product) {
    var field := Get(node, "field");
    Evaluate(py, node, p).None? ==>
      op in NUMBER_OPS && field.Str? && AsNumber(py, FieldValue(p, field.text)).TooLarge?
  }

  /** A comparison is accepted exactly when it can only raise on a number that is too large, whatever
      the product, and what a numeric one compares with is a number. */
  lemma AcceptedLeafIff(py: Python, node: Json, op: string)
    requires node.Obj? && "op" in node.fields && node.fields["op"] == Str(op) && op !in {"all", "and", "or"}
    ensures Accepts(py, node) <==>
      && (forall p :: RaisesOnLarge(py, node, op, p))
      && (op in NUMBER_OPS ==> IsNumeric(py, Get(node, "arg")))
      && (op == "between" ==> IsNumeric(py, Get(node, "arg2")))
  {
    hide FieldValue, AsText, CompareTexts, Leaf;
    NumericIff(py, Get(node, "arg"));
    NumericIff(py, Get(node, "arg2"));
    if Accepts(py, node) {
      if op in NUMBER_OPS { AcceptedNumbers(py, node); }
      forall p ensures RaisesOnLarge(py, node, op, p) { AcceptedLeafRaisesIff(py, node, p); }
    } else if (op in NUMBER_OPS ==> AsNumber(py, Get(node, "arg")).Number?)
      && (op == "between" ==> AsNumber(py, Get(node, "arg2")).Number?) {
      RefusedLeaf(py, node, op);
      assert !RaisesOnLarge(py, node, op, map[]);
    }
  }

  lemma NumericIff(py: Python, v: Json)
    ensures IsNumeric(py, v) <==> AsNumber(py, v).Number?
  {
    if AsNumber(py, v).Number? { assert IsNumber(py, v, AsNumber(py, v).value); }
  }

  /** An empty product shows what is wrong with a comparison that is refused. */
  lemma RefusedLeaf(py: Python, node: Json, op: string)
    requires node.Obj? && "op" in node.fields && node.fields["op"] == Str(op) && op !in {"all", "and", "or"}
    requires !Accepts(py, node) && (op in NUMBER_OPS ==> AsNumber(py, Get(node, "arg")).Number?)
    requires op == "between" ==> AsNumber(py, Get(node, "arg2")).Number?
    ensures Evaluate(py, node, map[]).None?
    ensures Get(node, "field").Str? ==> AsNumber(py, FieldValue(map[], Get(node, "field").text)) == NotNumber
  {
    hide RulePath, AsText, CompareTexts;
  }

  /** Evaluation from left to right meets a value that is too large before a child decides. */
  ghost predicate Raises(py: Python, node: Json, p: Product)
    decreases node, 0
  {
    node.Obj? && "op" in node.fields && node.fields["op"].Str? &&
    var op := node.fields["op"].text;
    if op == "and" || op == "or" then
      "children" in node.fields && node.fields["children"].Arr? &&
      var children := node.fields["children"].items;
      exists i :: 0 <= i < |children| && Raises(py, children[i], p) &&
        forall j :: 0 <= j < i ==> Passes(py, children[j], op == "and", p)
    else op in NUMBER_OPS && Get(node, "field").Str? && AsNumber(py, FieldValue(p, Get(node, "field").text)).TooLarge?
  }

  /** A child that neither raises nor decides. */
  ghost predicate Passes(py: Python, child: Json, all: bool, p: Product)
    decreases child, 1
  {
    !Raises(py, child, p) && Holds(py, child, p) == all
  }

  /** Laziness does not show except where it hides an error: the first child to raise or decide
      makes the outcome. */
  lemma {:induction false} EvaluatesFrom(py: Python, children: seq<Json>, i: nat, all: bool, p: Product)
    requires i <= |children|
    requires forall k :: i <= k < |children| ==>
      Evaluate(py, children[k], p) == if Raises(py, children[k], p) then None else Some(Holds(py, children[k], p))
    ensures EvaluateFrom(py, children, i, all, p) ==
      if
        exists k :: i <= k < |children| && Raises(py, children[k], p)
          && forall j :: i <= j < k ==> Passes(py, children[j], all, p)
      then None
      else Some(if all then forall k :: i <= k < |children| ==> Holds(py, children[k], p)
        else exists k :: i <= k < |children| && Holds(py, children[k], p))
    decreases |children| - i
  {
    hide Evaluate, Holds, Raises;
    if i < |children| {
      EvaluatesFrom(py, children, i + 1, all, p);
      if Passes(py, children[i], all, p) {
        if k :|
          i + 1 <= k < |children| && Raises(py, children[k], p)
          && forall j :: i + 1 <= j < k ==> Passes(py, children[j], all, p)
        {
          assert forall j :: i <= j < k ==> Passes(py, children[j], all, p);
        }
      }
    }
  }

  lemma LeafEvaluates(py: Python, node: Json, p: Product)
    requires Accepts(py, node) && node.fields["op"].text !in {"all", "and", "or"}
    ensures Evaluate(py, node, p) == if Raises(py, node, p) then None else Some(Holds(py, node, p))
  {
    hide Leaf, FieldValue, Compares;
    AcceptedLeafRaisesIff(py, node, p);
    LeafMeans(py, node, p);
    if node.fields["op"].text in NUMBER_OPS { AcceptedNumbers(py, node); }
    var leaf := Leaf(py, node.fields["op"].text, node, p);
    assert Evaluate(py, node, p) == leaf;
    assert Raises(py, node, p) <==> leaf.None?;
    if leaf.Some? { assert Holds(py, node, p) == leaf.value; }
  }

  /** An accepted condition raises exactly when evaluating it from left to right meets a number too
      large for a float, and otherwise evaluates to what it means. */
  lemma {:induction false} AcceptedEvaluatesIff(py: Python, node: Json, p: Product)
    requires Accepts(py, node)
    ensures Evaluate(py, node, p) == if Raises(py, node, p) then None else Some(Holds(py, node, p))
    decreases node
  {
    hide Leaf, FieldValue, EvaluateFrom;
    var op := node.fields["op"].text;
    if op == "all" {
    } else if op == "and" || op == "or" {
      var children := node.fields["children"].items;
      forall k | 0 <= k < |children|
        ensures Evaluate(py, children[k], p) ==
          if Raises(py, children[k], p) then None else Some(Holds(py, children[k], p))
      {
        AcceptedEvaluatesIff(py, children[k], p);
      }
      EvaluatesFrom(py, children, 0, op == "and", p);
      RaisesByChild(py, node, p);
      HoldsByChildren(py, node, p);
    } else {
      LeafEvaluates(py, node, p);
    }
  }

  lemma RaisesByChild(py: Python, node: Json, p: Product)
    requires Accepts(py, node) && node.fields["op"].text in {"and", "or"}
    ensures
      var children, all := node.fields["children"].items, node.fields["op"].text == "and";
      Raises(py, node, p) <==>
        exists k :: 0 <= k < |children| && Raises(py, children[k], p)
          && forall j :: 0 <= j < k ==> Passes(py, children[j], all, p)
  {
    hide Passes;
  }

  lemma HoldsByChildren(py: Python, node: Json, p: Product)
    requires Accepts(py, node) && node.fields["op"].text in {"and", "or"}
    ensures
      var children := node.fields["children"].items;
      Holds(py, node, p) <==>
        if node.fields["op"].text == "and" then forall k :: 0 <= k < |children| ==> Holds(py, children[k], p)
        else exists k :: 0 <= k < |children| && Holds(py, children[k], p)
  {
  }

  lemma ChildFits(py: Python, node: Json, i: nat, p: Product)
    requires NumbersFit(py, node, p) && node.Obj? && "op" in node.fields
    requires node.fields["op"] == Str("and") || node.fields["op"] == Str("or")
    requires "children" in node.fields && node.fields["children"].Arr? && i < |node.fields["children"].items|
    ensures NumbersFit(py, node.fields["children"].items[i], p)
  {
    var child := node.fields["children"].items[i];
    forall f | f in NumericFields(child) ensures f in NumericFields(node) {}
  }

  lemma {:induction false} FittingNumbersDoNotRaise(py: Python, node: Json, p: Product)
    requires Accepts(py, node) && NumbersFit(py, node, p)
    ensures !Raises(py, node, p)
    decreases node
  {
    hide FieldValue, NumbersFit;
    var op := node.fields["op"].text;
    if op == "and" || op == "or" {
      var children := node.fields["children"].items;
      forall k | 0 <= k < |children| ensures !Raises(py, children[k], p) {
        ChildFits(py, node, k, p);
        FittingNumbersDoNotRaise(py, children[k], p);
      }
      RaisesByChild(py, node, p);
    } else if op in NUMBER_OPS {
      AcceptedNumbers(py, node);
      LeafFits(py, node, p);
    }
  }

  lemma LeafFits(py: Python, node: Json, p: Product)
    requires Accepts(py, node) && NumbersFit(py, node, p) && node.fields["op"].text in NUMBER_OPS
    requires Get(node, "field").Str?
    ensures !AsNumber(py, FieldValue(p, Get(node, "field").text)).TooLarge?
  {
    hide FieldValue;
    assert Get(node, "field").text in NumericFields(node);
  }

  /** So on a product whose numbers fit it never raises, and evaluates to what it means. */
  lemma AcceptedEvaluatesAsMeant(py: Python, node: Json, p: Product)
    requires Accepts(py, node) && NumbersFit(py, node, p)
    ensures Evaluate(py, node, p) == Some(Holds(py, node, p))
  {
    AcceptedEvaluatesIff(py, node, p);
    FittingNumbersDoNotRaise(py, node, p);
  }

  /** An accepted comparison with a number still raises on an integer too large for a float. */
  lemma LargeIntegerRaises(py: Python, lexeme: string, bound: string)
    requires py.numeral(lexeme).TooLarge? && py.numeral(bound).Number?
    ensures
      var node := Obj(map["op" := Str("gt"), "field" := Str("n"), "arg" := Num(bound)]);
      Accepts(py, node) && Evaluate(py, node, map["n" := Num(lexeme)]) == None
  {
    SplitDotFree("n");
    var node := Obj(map["op" := Str("gt"), "field" := Str("n"), "arg" := Num(bound)]);
    assert FieldValue(map["n" := Num(lexeme)], "n") == Num(lexeme);
    AcceptedLeafRaisesIff(py, node, map["n" := Num(lexeme)]);
  }
}
