/** What the two unindexed passes of a mapping leave, told entry by entry: which string, list or
    item each attribute and sub-field ends up with, and which entries are counted as mismatches. */
module MappingLaws {
  import opened Hashing
  import opened IndexedPath
  import opened Slots
  import opened Mapping
  import opened Wrappers

  // ----- Targets -----

  ghost predicate Unindexed(target: string) {
    forall path :: Spells(target, path) && WellFormed(path) ==> path.index.None?
  }

  ghost predicate WholeTarget(registry: Registry, target: string, attr: string) {
    attr in registry && attr != "" && DotFree(attr) && target == attr
  }

  ghost predicate SubTarget(registry: Registry, target: string, attr: string, sub: string) {
    var path := Path(attr, None, Some(sub));
    attr in registry && WellFormed(path) && target == attr + "." + sub
  }

  lemma UnindexedIff(target: string)
    ensures Unindexed(target) <==> !IsIndexed(target)
  {
    hide Parse, Spells, WellFormed;
    forall path ensures Parse(target) == Some(path) <==> Spells(target, path) && WellFormed(path) {
      ParseIff(target, path);
    }
    if IsIndexed(target) { assert Parse(target) == Some(Parse(target).value); }
  }

  lemma TargetIff(target: string, attr: string, sub: Option<string>)
    ensures Parse(target) == Some(Path(attr, None, sub)) <==>
      WellFormed(Path(attr, None, sub)) && target == if sub.Some? then attr + "." + sub.value else attr
  {
    hide Parse;
    ParseIff(target, Path(attr, None, sub));
    if sub.Some? { assert attr + "." + sub.value == attr + ("." + sub.value); } else { assert attr + "" == attr; }
  }

  // ----- Which values fit -----

  /** With `n` texts left before it, this item is blank, or is text `n`. */
  ghost predicate LeftAt(item: Json, ts: seq<Json>, n: nat, next: nat) {
    if item == Str("") then next == n else next == n + 1 && n < |ts| && ts[n] == item
  }

  /** `ts` is `items` without the empty texts: `left[i]` of them are among the first `i`. */
  ghost predicate LeftOf(items: seq<Json>, ts: seq<Json>, left: seq<nat>) {
    && |left| == |items| + 1 && left[0] == 0 && left[|items|] == |ts|
    && forall i :: 0 <= i < |items| ==> LeftAt(items[i], ts, left[i], left[i + 1])
  }

  ghost predicate WithoutBlanks(items: seq<Json>, ts: seq<Json>) {
    exists left :: LeftOf(items, ts, left)
  }

  /** What a whole value becomes under an attribute, if it has the right shape. */
  ghost predicate Fits(attribute: Attribute, value: Json, written: Json) {
    match attribute.kind
    case Scalar => value.Str? && written == value
    case RepeatedScalar =>
      || (value.Str? && written == Arr([value]))
      || (value.Arr? && AllTexts(value.items) && written.Arr? && WithoutBlanks(value.items, written.items))
    case Structured =>
      && value.Obj? && written.Obj?
      && (forall k :: k in written.fields <==> k in value.fields && k in attribute.subs)
      && (forall k :: k in written.fields ==> written.fields[k] == value.fields[k])
    case RepeatedStructured =>
      (value.Obj? && written == Arr([value])) || (value.Arr? && AllObjects(value.items) && written == value)
  }

  /** The values a sub-field takes: one text, a list of one, or for items a list. */
  ghost predicate FitsSub(attribute: Attribute, value: Json) {
    || (attribute.kind.Structured? && (value.Str? || (value.Arr? && |value.items| == 1)))
    || (attribute.kind.RepeatedStructured? && (value.Str? || value.Arr?))
  }

  /** Item `i` gets a value for its sub-field. A structured attribute counts as one item, and ""
      in a list leaves its item alone. */
  ghost predicate Takes(attribute: Attribute, value: Json, i: nat) {
    if value.Str? then i == 0
    else value.Arr? && i < |value.items| && (attribute.kind.Structured? || value.items[i] != Str(""))
  }

  ghost predicate ForItem(attribute: Attribute, value: Json, i: nat, v: Json) {
    Takes(attribute, value, i) && v == if value.Arr? then value.items[i] else value
  }

  // ----- What one entry does -----

  ghost predicate WritesWhole(registry: Registry, value: Json, target: string, attr: string, written: Json) {
    WholeTarget(registry, target, attr) && Fits(registry[attr], value, written)
  }

  ghost predicate WritesSub(registry: Registry, value: Json, target: string, attr: string, sub: string) {
    SubTarget(registry, target, attr, sub) && FitsSub(registry[attr], value)
  }

  /** The entry writes to the attribute at all. */
  ghost predicate ActsOn(registry: Registry, value: Json, target: string, attr: string) {
    || (exists written :: WritesWhole(registry, value, target, attr, written))
    || (exists sub :: WritesSub(registry, value, target, attr, sub))
  }

  ghost predicate FieldIn(whole: Json, i: nat, sub: string, v: Json) {
    var item := if whole.Arr? && i < |whole.items| then whole.items[i] else if i == 0 then whole else Null;
    item.Obj? && sub in item.fields && item.fields[sub] == v
  }

  ghost predicate FieldAt(r: Result, attr: string, i: nat, sub: string, v: Json) {
    attr in r && FieldIn(r[attr], i, sub, v)
  }

  lemma LeftOneMore(items: seq<Json>, ts: seq<Json>, left: seq<nat>, last: Json)
    requires LeftOf(items, ts, left)
    ensures
      if last == Str("") then LeftOf(items + [last], ts, left + [|ts|])
      else LeftOf(items + [last], ts + [last], left + [|ts| + 1])
  {
    var longer, now := items + [last], if last == Str("") then ts else ts + [last];
    var after: seq<nat> := left + [|now|];
    forall i | 0 <= i < |longer| ensures LeftAt(longer[i], now, after[i], after[i + 1]) {
      if i < |items| {
        assert LeftAt(items[i], ts, left[i], left[i + 1]);
        assert after[i] == left[i] && after[i + 1] == left[i + 1] && longer[i] == items[i];
      } else {
        assert after[i] == |ts| && after[i + 1] == |now| && longer[i] == last;
      }
    }
  }

  lemma LeftOneLess(items: seq<Json>, ts: seq<Json>, left: seq<nat>)
    requires items != [] && LeftOf(items, ts, left)
    ensures
      var n := |items| - 1;
      if items[n] == Str("") then LeftOf(items[..n], ts, left[..n + 1])
      else ts != [] && ts[|ts| - 1] == items[n] && LeftOf(items[..n], ts[..|ts| - 1], left[..n + 1])
  {
    var n := |items| - 1;
    assert LeftAt(items[n], ts, left[n], left[n + 1]);
    var now := if items[n] == Str("") then ts else ts[..|ts| - 1];
    forall i | 0 <= i < n ensures LeftAt(items[..n][i], now, left[..n + 1][i], left[..n + 1][i + 1]) {
      assert LeftAt(items[i], ts, left[i], left[i + 1]);
      LeftGrows(items, ts, left, i + 1, n);
    }
  }

  lemma {:induction false} LeftGrows(items: seq<Json>, ts: seq<Json>, left: seq<nat>, i: nat, j: nat)
    requires LeftOf(items, ts, left) && i <= j <= |items|
    ensures left[i] <= left[j]
    decreases j - i
  {
    if i < j {
      LeftGrows(items, ts, left, i, j - 1);
      assert LeftAt(items[j - 1], ts, left[j - 1], left[j]);
    }
  }

  lemma NoneLeft(ts: seq<Json>)
    ensures WithoutBlanks([], ts) <==> ts == []
  {
    if ts == [] { assert LeftOf([], ts, [0]); }
  }

  lemma LastOfTexts(items: seq<Json>, ts: seq<Json>)
    requires items != [] && WithoutBlanks(items, ts)
    ensures
      var rest, last := items[..|items| - 1], items[|items| - 1];
      if last == Str("") then WithoutBlanks(rest, ts)
      else ts != [] && ts[|ts| - 1] == last && WithoutBlanks(rest, ts[..|ts| - 1])
  {
    var left :| LeftOf(items, ts, left);
    LeftOneLess(items, ts, left);
  }

  lemma TextsOneMore(items: seq<Json>, ts: seq<Json>, last: Json)
    requires WithoutBlanks(items, ts)
    ensures WithoutBlanks(items + [last], if last == Str("") then ts else ts + [last])
  {
    var left :| LeftOf(items, ts, left);
    LeftOneMore(items, ts, left, last);
  }

  lemma {:induction false} BlanksGoneIff(items: seq<Json>, ts: seq<Json>)
    ensures WithoutBlanks(items, ts) <==> ts == NonEmptyTexts(items)
  {
    hide WithoutBlanks;
    if items == [] {
      NoneLeft(ts);
    } else {
      var rest, last := items[..|items| - 1], items[|items| - 1];
      var shorter := NonEmptyTexts(rest);
      assert items == rest + [last];
      BlanksGoneIff(rest, shorter);
      TextsOneMore(rest, shorter, last);
      assert shorter + [] == shorter;
      if WithoutBlanks(items, ts) {
        LastOfTexts(items, ts);
        var before := if last == Str("") then ts else ts[..|ts| - 1];
        BlanksGoneIff(rest, before);
        assert ts == before + (if last == Str("") then [] else [last]);
      }
    }
  }

  // ----- One entry, as it runs -----

  lemma WholeEffectIs(attribute: Attribute, r: Result, attr: string, value: Json)
    ensures
      var (q, ok) := WholeEffect(attribute, r, attr, value);
      if ok then attr in q && q == r[attr := q[attr]] && (forall w :: Fits(attribute, value, w) <==> w == q[attr])
      else q == r && forall w :: !Fits(attribute, value, w)
  {
    hide NonEmptyTexts, WithoutBlanks;
    if attribute.kind.RepeatedScalar? && value.Arr? && AllTexts(value.items) {
      forall ts ensures WithoutBlanks(value.items, ts) <==> ts == NonEmptyTexts(value.items) {
        BlanksGoneIff(value.items, ts);
      }
    }
  }

  /** How many items a value for a sub-field calls for. */
  function Reach(value: Json): nat {
    if value.Arr? then |value.items| else 1
  }

  ghost predicate RightShape(attribute: Attribute, whole: Json) {
    && (attribute.kind.Structured? ==> whole.Obj?)
    && (attribute.kind.RepeatedStructured? ==> whole.Arr? && AllObjects(whole.items))
  }

  ghost predicate FieldSet(attribute: Attribute, before: Option<Json>, after: Json, sub: string, value: Json) {
    && RightShape(attribute, after)
    && (attribute.kind.RepeatedStructured? ==>
      var count := if before.Some? && before.value.Arr? then |before.value.items| else 0;
      |after.items| == if count < Reach(value) then Reach(value) else count)
    && (forall i: nat, v :: ForItem(attribute, value, i, v) ==> FieldIn(after, i, sub, v))
    && (forall i: nat, s, v :: s != sub || !Takes(attribute, value, i) ==>
      (FieldIn(after, i, s, v) <==> before.Some? && FieldIn(before.value, i, s, v)))
  }

  lemma SubEffectIs(attribute: Attribute, r: Result, attr: string, sub: string, value: Json)
    requires attr in r ==> RightShape(attribute, r[attr])
    ensures
      var (q, ok) := SubEffect(attribute.kind, r, attr, sub, value);
      && (ok <==> FitsSub(attribute, value))
      && if ok then attr in q && q == r[attr := q[attr]] && FieldSet(attribute, At(r, attr), q[attr], sub, value)
         else q == r
  {
    if attribute.kind.Structured? {
      StructuredEffectIs(attribute, r, attr, sub, value);
    } else if attribute.kind.RepeatedStructured? {
      ItemsEffectIs(attribute, r, attr, sub, value);
    }
  }

  lemma StructuredEffectIs(attribute: Attribute, r: Result, attr: string, sub: string, value: Json)
    requires attribute.kind.Structured? && (attr in r ==> r[attr].Obj?)
    ensures
      var (q, ok) := SubEffect(attribute.kind, r, attr, sub, value);
      && (ok <==> FitsSub(attribute, value))
      && if ok then attr in q && q == r[attr := q[attr]] && FieldSet(attribute, At(r, attr), q[attr], sub, value)
         else q == r
  {
  }

  lemma TextEffectIs(attribute: Attribute, r: Result, attr: string, sub: string, value: Json)
    requires value.Str? && attribute.kind.RepeatedStructured?
      && (attr in r ==> r[attr].Arr? && AllObjects(r[attr].items))
    ensures
      var (q, ok) := SubEffect(attribute.kind, r, attr, sub, value);
      && (ok <==> FitsSub(attribute, value))
      && if ok then attr in q && q == r[attr := q[attr]] && FieldSet(attribute, At(r, attr), q[attr], sub, value)
         else q == r
  {
  }

  lemma ListEffectIs(attribute: Attribute, r: Result, attr: string, sub: string, value: Json)
    requires value.Arr? && attribute.kind.RepeatedStructured?
      && (attr in r ==> r[attr].Arr? && AllObjects(r[attr].items))
    ensures
      var (q, ok) := SubEffect(attribute.kind, r, attr, sub, value);
      && (ok <==> FitsSub(attribute, value))
      && if ok then attr in q && q == r[attr := q[attr]] && FieldSet(attribute, At(r, attr), q[attr], sub, value)
         else q == r
  {
  }

  lemma ItemsEffectIs(attribute: Attribute, r: Result, attr: string, sub: string, value: Json)
    requires attribute.kind.RepeatedStructured? && (attr in r ==> r[attr].Arr? && AllObjects(r[attr].items))
    ensures
      var (q, ok) := SubEffect(attribute.kind, r, attr, sub, value);
      && (ok <==> FitsSub(attribute, value))
      && if ok then attr in q && q == r[attr := q[attr]] && FieldSet(attribute, At(r, attr), q[attr], sub, value)
         else q == r
  {
    hide FieldSet;
    if value.Str? { TextEffectIs(attribute, r, attr, sub, value); }
    if value.Arr? { ListEffectIs(attribute, r, attr, sub, value); }
  }

  /** `q` is `r` after the entry, and `ok` whether it was taken. */
  ghost predicate Entered(registry: Registry, r: Result, value: Json, target: string, q: Result, ok: bool) {
    && (ok <==> exists attr :: ActsOn(registry, value, target, attr))
    && (forall attr, w :: WritesWhole(registry, value, target, attr, w) ==> At(q, attr) == Some(w))
    && (forall attr, sub :: WritesSub(registry, value, target, attr, sub) ==>
      attr in q && FieldSet(registry[attr], At(r, attr), q[attr], sub, value))
    && (forall attr :: !ActsOn(registry, value, target, attr) ==> At(q, attr) == At(r, attr))
  }

  lemma EntryIs(registry: Registry, r: Result, value: Json, target: string)
    requires WellKinded(registry, r) && Unindexed(target)
    ensures
      var (q, ok) := EntryEffect(registry, r, value, target);
      WellKinded(registry, q) && Entered(registry, r, value, target, q, ok)
  {
    UnindexedIff(target);
    EntryKeepsKinds(registry, r, value, target);
    hide Parse, WholeEffect, SubEffect, Entered, WellKinded, Unindexed, WellFormed;
    var parsed := Parse(target);
    if parsed.None? || parsed.value.attr !in registry {
      NothingEntered(registry, r, value, target);
    } else if parsed.value.sub.Some? {
      SubEntered(registry, r, value, target, parsed.value.attr, parsed.value.sub.value);
    } else {
      WholeEntered(registry, r, value, target, parsed.value.attr);
    }
  }

  lemma NothingEntered(registry: Registry, r: Result, value: Json, target: string)
    requires Unindexed(target) && (Parse(target).None? || Parse(target).value.attr !in registry)
    ensures Entered(registry, r, value, target, r, false)
  {
    hide Parse, Fits, FieldSet, FitsSub, Unindexed;
    forall attr ensures !ActsOn(registry, value, target, attr) {
      TargetIff(target, attr, None);
      forall sub ensures !WritesSub(registry, value, target, attr, sub) { TargetIff(target, attr, Some(sub)); }
    }
    forall attr, w ensures !WritesWhole(registry, value, target, attr, w) { TargetIff(target, attr, None); }
    forall attr, sub ensures !WritesSub(registry, value, target, attr, sub) { TargetIff(target, attr, Some(sub)); }
  }

  lemma WholeEntered(registry: Registry, r: Result, value: Json, target: string, attr: string)
    requires attr in registry && Parse(target) == Some(Path(attr, None, None))
    ensures
      var (q, ok) := WholeEffect(registry[attr], r, attr, value);
      Entered(registry, r, value, target, q, ok)
  {
    WholeEffectIs(registry[attr], r, attr, value);
    OnlyWhole(registry, value, target, attr);
    hide Parse, WholeEffect, Fits, FieldSet, WritesWhole, WritesSub;
    var (q, ok) := WholeEffect(registry[attr], r, attr, value);
    if ok {
      assert WritesWhole(registry, value, target, attr, q[attr]);
      assert ActsOn(registry, value, target, attr);
    }
  }

  lemma SubEntered(registry: Registry, r: Result, value: Json, target: string, attr: string, sub: string)
    requires WellKinded(registry, r)
    requires attr in registry && Parse(target) == Some(Path(attr, None, Some(sub)))
    ensures
      var (q, ok) := SubEffect(registry[attr].kind, r, attr, sub, value);
      Entered(registry, r, value, target, q, ok)
  {
    AttributeShape(registry, r, attr);
    SubEffectIs(registry[attr], r, attr, sub, value);
    OnlySub(registry, value, target, attr, sub);
    hide Parse, SubEffect, FieldSet, FitsSub, WritesWhole, WritesSub, WellKinded;
    var (q, ok) := SubEffect(registry[attr].kind, r, attr, sub, value);
    if ok {
      assert WritesSub(registry, value, target, attr, sub);
      assert ActsOn(registry, value, target, attr);
    }
  }

  lemma AttributeShape(registry: Registry, r: Result, attr: string)
    requires WellKinded(registry, r) && attr in registry
    ensures attr in r ==> RightShape(registry[attr], r[attr])
  {
  }

  lemma OnlyWhole(registry: Registry, value: Json, target: string, attr: string)
    requires attr in registry && Parse(target) == Some(Path(attr, None, None))
    ensures WholeTarget(registry, target, attr)
    ensures forall other, w :: WritesWhole(registry, value, target, other, w) <==>
      other == attr && Fits(registry[attr], value, w)
    ensures forall other, sub :: !WritesSub(registry, value, target, other, sub)
  {
    hide Parse, Fits, FitsSub;
    TargetIff(target, attr, None);
    forall other, sub ensures !SubTarget(registry, target, other, sub) { TargetIff(target, other, Some(sub)); }
  }

  lemma OnlySub(registry: Registry, value: Json, target: string, attr: string, sub: string)
    requires attr in registry && Parse(target) == Some(Path(attr, None, Some(sub)))
    ensures forall other, s :: WritesSub(registry, value, target, other, s) <==>
      other == attr && s == sub && FitsSub(registry[attr], value)
    ensures forall other, w :: !WritesWhole(registry, value, target, other, w)
  {
    hide Parse, Fits, FitsSub;
    TargetIff(target, attr, Some(sub));
    forall other, s ensures SubTarget(registry, target, other, s) ==> other == attr && s == sub {
      TargetIff(target, other, Some(s));
    }
    forall other ensures !WholeTarget(registry, target, other) { TargetIff(target, other, None); }
  }

  // ----- What a sub-field source yields -----

  /** The text of one item; none counts as "". */
  ghost predicate TextOf(item: Json, sub: string, t: Json) {
    && item.Obj? && t.Str?
    && t == if sub in item.fields && item.fields[sub] != Null then item.fields[sub] else Str("")
  }

  /** The text of an object, or the texts of a list of objects, one of them not empty. */
  ghost predicate Yields(value: Json, sub: string, v: Json) {
    || (value.Obj? && sub in value.fields && value.fields[sub].Str? && v == value.fields[sub])
    || (value.Arr? && exists ts: seq<Json> ::
      && |ts| == |value.items| && (forall i :: 0 <= i < |ts| ==> TextOf(value.items[i], sub, ts[i]))
      && (exists i :: 0 <= i < |ts| && ts[i] != Str(""))
      && v == if |ts| == 1 then ts[0] else Arr(ts))
  }

  /** What is neither a text nor nothing. */
  ghost predicate WrongText(item: Json, sub: string) {
    item.Obj? && sub in item.fields && item.fields[sub] != Null && !item.fields[sub].Str?
  }

  ghost predicate WrongSource(value: Json, sub: string) {
    || WrongText(value, sub)
    || (value.Arr? && exists i :: 0 <= i < |value.items| && (!value.items[i].Obj? || WrongText(value.items[i], sub)))
  }

  ghost predicate SubKey(product: map<string, Json>, key: string, parent: string, sub: string) {
    DotFree(parent) && DotFree(sub) && sub != "" && parent in product && key == parent + "." + sub
  }

  ghost predicate SourceYields(product: map<string, Json>, key: string, v: Json) {
    exists parent, sub :: SubKey(product, key, parent, sub) && Yields(product[parent], sub, v)
  }

  ghost predicate SourceWrong(product: map<string, Json>, key: string) {
    exists parent, sub :: SubKey(product, key, parent, sub) && WrongSource(product[parent], sub)
  }

  lemma SubValuesAre(value: Json, sub: string, v: Json)
    ensures
      var (values, mismatch) := SubValues(value, sub);
      && (values.Some? && Single(values.value) == v <==> Yields(value, sub, v))
      && (mismatch <==> WrongSource(value, sub))
  {
    if value.Arr? && AllObjects(value.items) {
      var items, values := value.items, SubItems(value.items, sub);
      if AllTexts(values) {
        assert forall i :: 0 <= i < |values| ==> TextOf(items[i], sub, values[i]);
        forall ts: seq<Json>
          | |ts| == |items| && forall i :: 0 <= i < |ts| ==> TextOf(items[i], sub, ts[i])
          ensures ts == values
        {
        }
      } else {
        var i :| 0 <= i < |values| && !values[i].Str?;
        assert WrongText(items[i], sub) && forall t :: !TextOf(items[i], sub, t);
      }
    }
  }

  lemma SubSourceIs(product: map<string, Json>, key: string, v: Json)
    ensures SubSource(product, key).0 == Some(v) <==> SourceYields(product, key, v)
    ensures SubSource(product, key).1 <==> SourceWrong(product, key)
  {
    hide SubValues, Yields, WrongSource, Single;
    PartsSpell(key);
    forall parent, sub | SubKey(product, key, parent, sub)
      ensures Split(key) == [parent, sub] { SplitTwo(parent, sub); }
    var parts := Split(key);
    if |parts| == 2 && parts[1] != "" && parts[0] in product {
      SubValuesAre(product[parts[0]], parts[1], v);
      assert SubKey(product, key, parts[0], parts[1]);
    }
  }
}
