/** Resolving plugin configuration over global, client and feed-source scopes: dictionaries merged
    key by key, lists replaced or, where the manifest says so, united by an item key. */
module ConfigMerge {
  import opened Hashing
  import opened Wrappers

  type Dict = map<string, Json>

  /** How a manifest wants the lists under a key merged. */
  datatype Hint = Replace | UnionByKey(key: string)

  type Hints = map<string, Hint>

  // ----- Lists -----

  predicate HasKey(item: Json, key: string) {
    item.Obj? && key in item.fields
  }

  predicate Carries(item: Json, key: string, v: Json) {
    HasKey(item, key) && item.fields[key] == v
  }

  /** What the overlay loop looks up: null where the item has no such key. */
  function KeyOf(item: Json, key: string): Json {
    if HasKey(item, key) then item.fields[key] else Null
  }

  /** The first position of a key value. */
  function Find(items: seq<Json>, key: string, v: Json): Option<nat> {
    if items == [] then None
    else
      var before, n := Find(items[..|items| - 1], key, v), |items| - 1;
      if before.Some? then before
      else if Carries(items[n], key, v) then Some(n)
      else None
  }

  lemma {:induction false} FindBounds(items: seq<Json>, key: string, v: Json)
    ensures Find(items, key, v).Some? ==>
      var i := Find(items, key, v).value;
      i < |items| && Carries(items[i], key, v) && forall j :: 0 <= j < i ==> !Carries(items[j], key, v)
    ensures Find(items, key, v).None? ==> forall i :: 0 <= i < |items| ==> !Carries(items[i], key, v)
  {
    if items != [] { FindBounds(items[..|items| - 1], key, v); }
  }

  /** Items replaced where the base has their key, appended otherwise. */
  function Union(base: seq<Json>, overlay: seq<Json>, key: string): (merged: seq<Json>)
    ensures |merged| >= |base|
  {
    if overlay == [] then base
    else
      var merged, item := Union(base, overlay[..|overlay| - 1], key), overlay[|overlay| - 1];
      var at := Find(base, key, KeyOf(item, key));
      FindBounds(base, key, KeyOf(item, key));
      if HasKey(item, key) && at.Some? then merged[at.value := item] else merged + [item]
  }

  /** Some object lacks the key. */
  predicate HasKeyless(items: seq<Json>, key: string) {
    exists i :: 0 <= i < |items| && items[i].Obj? && !HasKey(items[i], key)
  }

  /** An object without the key is looked up as null. Where the base has an item with that very
      key value, the lookup succeeds and reading the key of the overlay's item raises. */
  predicate Clash(base: seq<Json>, overlay: seq<Json>, key: string) {
    Find(base, key, Null).Some? && HasKeyless(overlay, key)
  }

  /** Lists and dictionaries cannot be looked up. */
  predicate Unhashable(v: Json) {
    v.Arr? || v.Obj?
  }

  predicate HasUnhashable(items: seq<Json>, key: string) {
    exists i :: 0 <= i < |items| && Unhashable(KeyOf(items[i], key))
  }

  /** A key of either list cannot be looked up, or is looked up as null and found. */
  predicate ListsRaise(base: seq<Json>, overlay: seq<Json>, key: string) {
    HasUnhashable(base, key) || HasUnhashable(overlay, key) || Clash(base, overlay, key)
  }

  ghost predicate KeyIs(item: Json, key: string, v: Json) {
    item.Obj? && key in item.fields && item.fields[key] == v
  }

  /** An item of either list has a list or a dictionary under the key, or an object of the overlay has
      nothing there while an item of the base has null. */
  ghost predicate CannotUnite(base: seq<Json>, overlay: seq<Json>, key: string) {
    || (exists item, v :: (item in base || item in overlay) && KeyIs(item, key, v) && (v.Arr? || v.Obj?))
    || ((exists item :: item in base && KeyIs(item, key, Null))
        && exists item :: item in overlay && item.Obj? && key !in item.fields)
  }

  lemma ListsRaiseIff(base: seq<Json>, overlay: seq<Json>, key: string)
    ensures ListsRaise(base, overlay, key) <==> CannotUnite(base, overlay, key)
  {
    FindBounds(base, key, Null);
    if ListsRaise(base, overlay, key) {
      if HasUnhashable(base, key) {
        var i :| 0 <= i < |base| && Unhashable(KeyOf(base[i], key));
        assert base[i] in base && KeyIs(base[i], key, KeyOf(base[i], key));
      } else if HasUnhashable(overlay, key) {
        var i :| 0 <= i < |overlay| && Unhashable(KeyOf(overlay[i], key));
        assert overlay[i] in overlay && KeyIs(overlay[i], key, KeyOf(overlay[i], key));
      } else {
        assert KeyIs(base[Find(base, key, Null).value], key, Null);
      }
    }
  }

  /** None where the merge raises. */
  method MergeList(base: seq<Json>, overlay: seq<Json>, hint: Hint) returns (result: Option<seq<Json>>)
    ensures result ==
      if hint.Replace? then Some(overlay)
      else if ListsRaise(base, overlay, hint.key) then None
      else Some(Union(base, overlay, hint.key))
    ensures result.None? <==> hint.UnionByKey? && CannotUnite(base, overlay, hint.key)
  {
    hide CannotUnite;
    if hint.UnionByKey? { ListsRaiseIff(base, overlay, hint.key); }
    if hint.Replace? { return Some(overlay); }
    var key := hint.key;
    var merged := base;
    var positions: map<Json, nat> := map[];
    for i := 0 to |base|
      invariant forall v :: v in positions <==> Find(base[..i], key, v).Some?
      invariant forall v :: v in positions ==> Find(base[..i], key, v) == Some(positions[v])
      invariant !HasUnhashable(base[..i], key)
    {
      assert base[..i + 1][..i] == base[..i];
      if HasKey(base[i], key) && Unhashable(base[i].fields[key]) { return None; }
      if HasKey(base[i], key) && base[i].fields[key] !in positions {
        positions := positions[base[i].fields[key] := i];
      }
    }
    assert base[..|base|] == base;
    for i := 0 to |overlay|
      invariant merged == Union(base, overlay[..i], key)
      invariant Null in positions ==> !HasKeyless(overlay[..i], key)
      invariant !HasUnhashable(overlay[..i], key)
    {
      var item := overlay[i];
      assert overlay[..i + 1][..i] == overlay[..i];
      if item.Obj? && Unhashable(KeyOf(item, key)) { return None; }
      FindBounds(base, key, KeyOf(item, key));
      if item.Obj? && KeyOf(item, key) in positions {
        if key !in item.fields { return None; }
        merged := merged[positions[KeyOf(item, key)] := item];
      } else {
        merged := merged + [item];
      }
    }
    assert overlay[..|overlay|] == overlay;
    result := Some(merged);
  }

  /** Objects that all carry the key, no two of them the same. */
  ghost predicate Keyed(items: seq<Json>, key: string) {
    && (forall i :: 0 <= i < |items| ==> HasKey(items[i], key))
    && (forall i, j :: 0 <= i < j < |items| ==> items[i].fields[key] != items[j].fields[key])
  }

  function Keys(items: seq<Json>, key: string): seq<Json> {
    seq(|items|, i requires 0 <= i < |items| => KeyOf(items[i], key))
  }

  /** The key values of `ks` that do not occur in `known`, in order. */
  function Fresh(ks: seq<Json>, known: seq<Json>): seq<Json> {
    if ks == [] then []
    else
      var last := ks[|ks| - 1];
      Fresh(ks[..|ks| - 1], known) + (if last in known then [] else [last])
  }

  /** The items by key value. */
  function Items(items: seq<Json>, key: string): map<Json, Json> {
    if items == [] then map[]
    else Items(items[..|items| - 1], key)[KeyOf(items[|items| - 1], key) := items[|items| - 1]]
  }

  lemma KeyedOneMore(items: seq<Json>, item: Json, key: string)
    ensures Keyed(items + [item], key) <==>
      Keyed(items, key) && HasKey(item, key) && item.fields[key] !in Keys(items, key)
    ensures Keys(items + [item], key) == Keys(items, key) + [KeyOf(item, key)]
  {
    var longer := items + [item];
    assert longer[|items|] == item && forall i :: 0 <= i < |items| ==> longer[i] == items[i];
    if Keyed(longer, key) {
      forall i | 0 <= i < |items| ensures Keys(items, key)[i] != item.fields[key] {
        assert longer[i].fields[key] != longer[|items|].fields[key];
      }
    }
    if Keyed(items, key) && HasKey(item, key) && item.fields[key] !in Keys(items, key) {
      forall i | 0 <= i < |items| ensures items[i].fields[key] != item.fields[key] {
        assert Keys(items, key)[i] in Keys(items, key);
      }
    }
  }

  lemma {:induction false} FoundIffKey(items: seq<Json>, key: string, v: Json)
    requires forall i :: 0 <= i < |items| ==> HasKey(items[i], key)
    ensures Find(items, key, v).Some? <==> v in Keys(items, key)
  {
    FindBounds(items, key, v);
    if v in Keys(items, key) {
      var i :| 0 <= i < |items| && Keys(items, key)[i] == v;
      assert items[i].fields[key] == v;
    }
    if Find(items, key, v).Some? { assert Keys(items, key)[Find(items, key, v).value] == v; }
  }

  lemma ReplaceKeepsKeys(items: seq<Json>, at: nat, item: Json, key: string)
    requires Keyed(items, key) && at < |items| && HasKey(item, key) && item.fields[key] == items[at].fields[key]
    ensures Keyed(items[at := item], key) && Keys(items[at := item], key) == Keys(items, key)
  {
  }

  /** Uniting keyed lists: the keys stay unique, and the base's come first in their order and then
      the overlay's new ones in theirs. */
  lemma {:induction false} UnionIsKeyed(base: seq<Json>, overlay: seq<Json>, key: string)
    requires Keyed(base, key) && Keyed(overlay, key)
    ensures Keyed(Union(base, overlay, key), key)
    ensures Keys(Union(base, overlay, key), key) == Keys(base, key) + Fresh(Keys(overlay, key), Keys(base, key))
  {
    if overlay == [] {
      assert Keys(base, key) + [] == Keys(base, key);
    } else {
      var rest, item := overlay[..|overlay| - 1], overlay[|overlay| - 1];
      assert overlay == rest + [item];
      KeyedOneMore(rest, item, key);
      UnionIsKeyed(base, rest, key);
      UnionOneMore(base, rest, item, key);
    }
  }

  lemma FreshOneMore(ks: seq<Json>, k: Json, known: seq<Json>)
    ensures Fresh(ks + [k], known) == Fresh(ks, known) + (if k in known then [] else [k])
  {
    assert (ks + [k])[..|ks|] == ks;
  }

  lemma {:induction false} FreshMembers(ks: seq<Json>, known: seq<Json>)
    ensures forall k :: k in Fresh(ks, known) <==> k in ks && k !in known
  {
    if ks != [] {
      var rest, last := ks[..|ks| - 1], ks[|ks| - 1];
      assert ks == rest + [last];
      FreshMembers(rest, known);
    }
  }

  lemma UnionOneMore(base: seq<Json>, rest: seq<Json>, item: Json, key: string)
    requires Keyed(base, key) && Keyed(rest + [item], key) && Keyed(Union(base, rest, key), key)
    requires Keys(Union(base, rest, key), key) == Keys(base, key) + Fresh(Keys(rest, key), Keys(base, key))
    ensures Keyed(Union(base, rest + [item], key), key)
    ensures Keys(Union(base, rest + [item], key), key) ==
      Keys(base, key) + Fresh(Keys(rest + [item], key), Keys(base, key))
  {
    hide Keyed, Keys, Fresh;
    KeyedOneMore(rest, item, key);
    var merged, k := Union(base, rest, key), item.fields[key];
    UnionStep(base, rest, item, key);
    FindBounds(base, key, k);
    KeyedHasKeys(base, key);
    FoundIffKey(base, key, k);
    FreshOneMore(Keys(rest, key), k, Keys(base, key));
    if k in Keys(base, key) {
      var at := Find(base, key, k).value;
      KeyAt(merged, key, at);
      KeyAt(base, key, at);
      assert Keys(merged, key)[at] == Keys(base, key)[at] by { KeysLength(base, key); }
      ReplaceKeepsKeys(merged, at, item, key);
      assert Keys(base, key) + (Fresh(Keys(rest, key), Keys(base, key)) + []) == Keys(merged, key);
    } else {
      FreshMembers(Keys(rest, key), Keys(base, key));
      KeyedOneMore(merged, item, key);
      assert Keys(base, key) + (Fresh(Keys(rest, key), Keys(base, key)) + [k]) == Keys(merged, key) + [k];
    }
  }

  lemma UnionStep(base: seq<Json>, rest: seq<Json>, item: Json, key: string)
    ensures Find(base, key, KeyOf(item, key)).Some? ==> Find(base, key, KeyOf(item, key)).value < |base|
    ensures Union(base, rest + [item], key) ==
      if HasKey(item, key) && Find(base, key, item.fields[key]).Some?
      then Union(base, rest, key)[Find(base, key, item.fields[key]).value := item]
      else Union(base, rest, key) + [item]
  {
    FindBounds(base, key, KeyOf(item, key));
    assert (rest + [item])[..|rest|] == rest;
  }

  lemma KeyedHasKeys(items: seq<Json>, key: string)
    requires Keyed(items, key)
    ensures forall i :: 0 <= i < |items| ==> HasKey(items[i], key)
  {
  }

  lemma KeysLength(items: seq<Json>, key: string)
    ensures |Keys(items, key)| == |items|
  {
  }

  lemma KeyAt(items: seq<Json>, key: string, i: nat)
    requires Keyed(items, key) && i < |items|
    ensures |Keys(items, key)| == |items| && HasKey(items[i], key) && Keys(items, key)[i] == items[i].fields[key]
  {
  }

  lemma ItemsOneMore(items: seq<Json>, item: Json, key: string)
    ensures Items(items + [item], key) == Items(items, key)[KeyOf(item, key) := item]
  {
    assert (items + [item])[..|items|] == items;
  }

  lemma {:induction false} ItemsOfKeyed(items: seq<Json>, key: string)
    requires Keyed(items, key)
    ensures forall v :: v in Items(items, key) <==> v in Keys(items, key)
    ensures forall i :: 0 <= i < |items| ==> Keys(items, key)[i] in Items(items, key)
    ensures forall i :: 0 <= i < |items| ==> Items(items, key)[Keys(items, key)[i]] == items[i]
  {
    if items != [] {
      var rest, last := items[..|items| - 1], items[|items| - 1];
      assert items == rest + [last];
      KeyedOneMore(rest, last, key);
      ItemsOfKeyed(rest, key);
    }
  }

  lemma ReplaceItem(items: seq<Json>, at: nat, item: Json, key: string)
    requires Keyed(items, key) && at < |items| && HasKey(item, key) && item.fields[key] == items[at].fields[key]
    ensures Items(items[at := item], key) == Items(items, key)[item.fields[key] := item]
  {
    hide Keyed, Keys, Items;
    var after, k := items[at := item], item.fields[key];
    ReplaceKeepsKeys(items, at, item, key);
    ItemsOfKeyed(items, key);
    ItemsOfKeyed(after, key);
    KeyAt(items, key, at);
    KeysLength(after, key);
    forall v | v in Items(items, key) ensures Items(after, key)[v] == Items(items, key)[k := item][v] {
      var i :| 0 <= i < |Keys(items, key)| && Keys(items, key)[i] == v;
      assert Items(after, key)[Keys(after, key)[i]] == after[i];
      assert i != at ==> after[i] == items[i] && Items(items, key)[v] == items[i];
      if i != at { KeyedApart(items, key, i, at); }
    }
    assert k in Keys(items, key);
  }

  lemma KeyedApart(items: seq<Json>, key: string, i: nat, j: nat)
    requires Keyed(items, key) && i < |items| && j < |items| && i != j
    ensures |Keys(items, key)| == |items| && Keys(items, key)[i] != Keys(items, key)[j]
  {
  }

  /** Every item of a union is the overlay's if the overlay has its key, and the base's if not. */
  lemma {:induction false} UnionItems(base: seq<Json>, overlay: seq<Json>, key: string)
    requires Keyed(base, key) && Keyed(overlay, key)
    ensures Items(Union(base, overlay, key), key) == Items(base, key) + Items(overlay, key)
  {
    hide Keyed, Keys, HasKey;
    if overlay == [] {
      assert Items(base, key) + map[] == Items(base, key);
    } else {
      var rest, item := overlay[..|overlay| - 1], overlay[|overlay| - 1];
      assert overlay == rest + [item];
      KeyedOneMore(rest, item, key);
      UnionItems(base, rest, key);
      UnionIsKeyed(base, rest, key);
      ItemsOneMore(rest, item, key);
      UnionItemsOneMore(base, rest, item, key);
      MapsAdd(Items(base, key), Items(rest, key), KeyOf(item, key), item);
    }
  }

  lemma MapsAdd(a: map<Json, Json>, b: map<Json, Json>, k: Json, v: Json)
    ensures (a + b)[k := v] == a + b[k := v]
  {
  }

  lemma UnionItemsOneMore(base: seq<Json>, rest: seq<Json>, item: Json, key: string)
    requires Keyed(base, key) && HasKey(item, key) && Keyed(Union(base, rest, key), key)
    requires Keys(Union(base, rest, key), key) == Keys(base, key) + Fresh(Keys(rest, key), Keys(base, key))
    ensures Items(Union(base, rest + [item], key), key) == Items(Union(base, rest, key), key)[KeyOf(item, key) := item]
  {
    hide Keyed, Keys, Items, Union, Find;
    UnionStep(base, rest, item, key);
    var merged, at := Union(base, rest, key), Find(base, key, item.fields[key]);
    if at.Some? {
      FindBounds(base, key, item.fields[key]);
      KeyAt(merged, key, at.value);
      KeyAt(base, key, at.value);
      assert Keys(merged, key)[at.value] == Keys(base, key)[at.value];
      ReplaceItem(merged, at.value, item, key);
    } else {
      ItemsOneMore(merged, item, key);
    }
  }

  /** A keyed list is determined by the order of its keys and the item of each. */
  lemma SameKeysSameItems(a: seq<Json>, b: seq<Json>, key: string)
    requires Keyed(a, key) && Keyed(b, key) && Keys(a, key) == Keys(b, key) && Items(a, key) == Items(b, key)
    ensures a == b
  {
    hide Keyed, Keys, Items;
    ItemsOfKeyed(a, key);
    ItemsOfKeyed(b, key);
    KeysLength(a, key);
    KeysLength(b, key);
    forall i | 0 <= i < |a| ensures a[i] == b[i] {
      assert Items(a, key)[Keys(a, key)[i]] == a[i];
      assert Items(b, key)[Keys(b, key)[i]] == b[i];
    }
  }

  // ----- Which lists may be merged first -----

  predicate SameKey(x: Json, y: Json, key: string) {
    HasKey(x, key) == HasKey(y, key) && KeyOf(x, key) == KeyOf(y, key)
  }

  lemma {:induction false} UnionKeepsKeys(base: seq<Json>, overlay: seq<Json>, key: string)
    ensures forall i :: 0 <= i < |base| ==> SameKey(Union(base, overlay, key)[i], base[i], key)
  {
    if overlay != [] {
      var rest, item := overlay[..|overlay| - 1], overlay[|overlay| - 1];
      UnionKeepsKeys(base, rest, key);
      assert overlay == rest + [item];
      UnionStep(base, rest, item, key);
      FindBounds(base, key, KeyOf(item, key));
    }
  }

  /** A search sees keys only. */
  lemma FindByKeys(items: seq<Json>, others: seq<Json>, key: string, v: Json)
    requires |items| == |others| && forall i :: 0 <= i < |items| ==> SameKey(items[i], others[i], key)
    ensures Find(items, key, v) == Find(others, key, v)
  {
    FindBounds(items, key, v);
    FindBounds(others, key, v);
  }

  lemma FindOneMore(items: seq<Json>, item: Json, key: string, v: Json)
    ensures Find(items + [item], key, v) ==
      if Find(items, key, v).Some? then Find(items, key, v) else if Carries(item, key, v) then Some(|items|) else None
  {
    assert (items + [item])[..|items|] == items;
  }

  /** Where a key value is first found in a union. */
  lemma {:induction false} FindInUnion(a: seq<Json>, b: seq<Json>, key: string, v: Json)
    ensures Find(b, key, v).Some? ==> Find(b, key, v).value < |b|
    ensures Find(Union(a, b, key), key, v) ==
      if Find(a, key, v).Some? then Find(a, key, v)
      else if Find(b, key, v).Some? then Some(|Union(a, b[..Find(b, key, v).value], key)|)
      else None
  {
    FindBounds(b, key, v);
    if b != [] {
      var rest, item := b[..|b| - 1], b[|b| - 1];
      var merged, at := Union(a, rest, key), Find(a, key, KeyOf(item, key));
      assert b == rest + [item];
      FindInUnion(a, rest, key, v);
      UnionStep(a, rest, item, key);
      FindBounds(a, key, KeyOf(item, key));
      FindOneMore(rest, item, key, v);
      if Find(rest, key, v).Some? { assert b[..Find(b, key, v).value] == rest[..Find(rest, key, v).value]; }
      if HasKey(item, key) && at.Some? {
        UnionKeepsKeys(a, rest, key);
        FindByKeys(merged, merged[at.value := item], key, v);
      } else {
        FindOneMore(merged, item, key, v);
      }
    }
  }

  /** The place of item `j` of `b` in the union of `a` and `b`. */
  function PlaceOf(a: seq<Json>, b: seq<Json>, key: string, j: nat): nat
    requires j < |b|
  {
    var at := Find(a, key, KeyOf(b[j], key));
    if at.Some? then at.value else |Union(a, b[..j], key)|
  }

  /** Replacing an overlay item by one with its key replaces it in the union, unless the base has
      the key and a later item claims the place. */
  lemma {:induction false} UnionOfReplaced(a: seq<Json>, b: seq<Json>, j: nat, item: Json, key: string)
    requires j < |b| && HasKey(item, key) && SameKey(item, b[j], key)
    requires Find(a, key, item.fields[key]).Some? ==>
      forall k :: 0 <= k < |b| && k != j ==> !Carries(b[k], key, item.fields[key])
    ensures PlaceOf(a, b, key, j) < |Union(a, b, key)|
    ensures Union(a, b[j := item], key) == Union(a, b, key)[PlaceOf(a, b, key, j) := item]
  {
    hide Union, Find;
    var rest, last := b[..|b| - 1], b[|b| - 1];
    var merged, at, place := Union(a, rest, key), Find(a, key, KeyOf(last, key)), PlaceOf(a, b, key, j);
    FindBounds(a, key, item.fields[key]);
    FindBounds(a, key, KeyOf(last, key));
    UnionStep(a, rest, last, key);
    assert b == rest + [last];
    assert b[..j] == rest[..j];
    if j == |rest| {
      assert b[j := item] == rest + [item];
      assert rest[..j] == rest;
      UnionStep(a, rest, item, key);
    } else {
      assert b[j := item] == rest[j := item] + [last];
      UnionOfReplaced(a, rest, j, item, key);
      UnionStep(a, rest[j := item], last, key);
      if HasKey(last, key) && at.Some? {
        assert at.value != place;
        assert merged[place := item][at.value := last] == merged[at.value := last][place := item];
      } else {
        assert merged[place := item] + [last] == (merged + [last])[place := item];
      }
    }
  }

  lemma {:induction false} UnionSizeByKeys(a: seq<Json>, b: seq<Json>, c: seq<Json>, key: string)
    requires |b| == |c| && forall i :: 0 <= i < |b| ==> SameKey(b[i], c[i], key)
    ensures |Union(a, b, key)| == |Union(a, c, key)|
  {
    if b != [] {
      var n := |b| - 1;
      assert SameKey(b[n], c[n], key);
      UnionSizeByKeys(a, b[..n], c[..n], key);
      assert b == b[..n] + [b[n]] && c == c[..n] + [c[n]];
      UnionStep(a, b[..n], b[n], key);
      UnionStep(a, c[..n], c[n], key);
    }
  }

  /** No two items carry one value of the key. */
  ghost predicate Unrepeated(items: seq<Json>, key: string) {
    forall i, j :: 0 <= i < j < |items| && HasKey(items[i], key) ==> !Carries(items[j], key, items[i].fields[key])
  }

  /** A key value carried once in the base is carried once in the union. */
  lemma {:induction false} CarriedOnce(base: seq<Json>, overlay: seq<Json>, key: string, v: Json)
    requires Unrepeated(base, key) && Find(base, key, v).Some?
    ensures forall k :: 0 <= k < |Union(base, overlay, key)| && k != Find(base, key, v).value ==>
      !Carries(Union(base, overlay, key)[k], key, v)
  {
    FindBounds(base, key, v);
    if overlay != [] {
      var rest, item := overlay[..|overlay| - 1], overlay[|overlay| - 1];
      assert overlay == rest + [item];
      CarriedOnce(base, rest, key, v);
      UnionStep(base, rest, item, key);
      FindBounds(base, key, KeyOf(item, key));
    }
  }

  /** Merging is associative over any first and last list if the middle one repeats no key. */
  lemma {:induction false} UnionIsAssociative(a: seq<Json>, b: seq<Json>, c: seq<Json>, key: string)
    requires Unrepeated(b, key)
    ensures Union(Union(a, b, key), c, key) == Union(a, Union(b, c, key), key)
  {
    hide Unrepeated, Union, Find;
    var ab := Union(a, b, key);
    if c == [] {
      NothingAdded(ab, key);
      NothingAdded(b, key);
    } else {
      var rest, item := c[..|c| - 1], c[|c| - 1];
      var bc, v := Union(b, rest, key), KeyOf(item, key);
      assert c == rest + [item];
      UnionIsAssociative(a, b, rest, key);
      UnionStep(ab, rest, item, key);
      UnionStep(b, rest, item, key);
      UnionStep(a, bc, item, key);
      FindInUnion(a, b, key, v);
      var at := Find(b, key, v);
      if HasKey(item, key) && at.Some? {
        FindBounds(b, key, v);
        CarriedOnce(b, rest, key, v);
        UnionKeepsKeys(b, rest, key);
        UnionOfReplaced(a, bc, at.value, item, key);
        UnionSizeByKeys(a, b[..at.value], bc[..at.value], key);
      }
    }
  }

  lemma NothingAdded(items: seq<Json>, key: string)
    ensures Union(items, [], key) == items
  {
  }

  /** In the union with a single item the last overlay item with its key takes its place. */
  lemma {:induction false} LastTakesPlace(first: Json, b: seq<Json>, m: nat, key: string)
    requires HasKey(first, key) && m < |b| && Carries(b[m], key, first.fields[key])
    requires forall k :: m < k < |b| ==> !Carries(b[k], key, first.fields[key])
    ensures Union([first], b, key)[0] == b[m]
  {
    var rest, last := b[..|b| - 1], b[|b| - 1];
    assert b == rest + [last];
    UnionStep([first], rest, last, key);
    FindBounds([first], key, KeyOf(last, key));
    FindBounds([first], key, first.fields[key]);
    if m < |rest| { LastTakesPlace(first, rest, m, key); }
  }

  lemma {:induction false} LastCarrier(b: seq<Json>, key: string, v: Json) returns (m: nat)
    requires exists i :: 0 <= i < |b| && Carries(b[i], key, v)
    ensures m < |b| && Carries(b[m], key, v) && forall k :: m < k < |b| ==> !Carries(b[k], key, v)
  {
    if Carries(b[|b| - 1], key, v) {
      m := |b| - 1;
    } else {
      var i :| 0 <= i < |b| && Carries(b[i], key, v);
      assert Carries(b[..|b| - 1][i], key, v);
      m := LastCarrier(b[..|b| - 1], key, v);
    }
  }

  lemma ObjectUnlike(key: string, v: Json, other: Json) returns (item: Json)
    ensures Carries(item, key, v) && item != other
  {
    item := Obj(map[key := v]);
    if item == other {
      var extra := key + "'";
      assert |extra| == |key| + 1 && extra !in item.fields;
      item := Obj(map[key := v, extra := Null]);
      assert extra in item.fields;
    }
  }

  /** A list with a repeated key gives different results before and after its neighbours. */
  lemma RepeatIsNotAssociative(b: seq<Json>, key: string) returns (a: seq<Json>, c: seq<Json>)
    requires !Unrepeated(b, key)
    ensures Union(Union(a, b, key), c, key) != Union(a, Union(b, c, key), key)
  {
    var i, j :| 0 <= i < j < |b| && HasKey(b[i], key) && Carries(b[j], key, b[i].fields[key]);
    var v := b[i].fields[key];
    FindBounds(b, key, v);
    var f := Find(b, key, v).value;
    var m := LastCarrier(b, key, v);
    var item := ObjectUnlike(key, v, b[m]);
    a, c := [b[f]], [item];
    var ab := Union(a, b, key);
    FindBounds(a, key, v);
    assert Find(a, key, v) == Some(0);
    FindInUnion(a, b, key, v);
    UnionOfOne(ab, item, key);
    assert Union(ab, c, key)[0] == item;
    UnionOfOne(b, item, key);
    LastTakesPlace(b[f], b[f := item], m, key);
  }

  lemma UnionOfOne(base: seq<Json>, item: Json, key: string)
    requires HasKey(item, key) && Find(base, key, item.fields[key]).Some?
    ensures Find(base, key, item.fields[key]).value < |base|
    ensures Union(base, [item], key) == base[Find(base, key, item.fields[key]).value := item]
  {
    UnionStep(base, [], item, key);
    assert [] + [item] == [item];
    NothingAdded(base, key);
  }

  /** Which neighbours are merged first makes no difference, whatever they are, exactly for the
      lists in which no two items carry one value of the key. */
  lemma UnionIsAssociativeIff(b: seq<Json>, key: string)
    ensures (forall a, c :: Union(Union(a, b, key), c, key) == Union(a, Union(b, c, key), key)) <==> Unrepeated(b, key)
  {
    if Unrepeated(b, key) {
      forall a, c ensures Union(Union(a, b, key), c, key) == Union(a, Union(b, c, key), key) {
        UnionIsAssociative(a, b, c, key);
      }
    } else {
      var a, c := RepeatIsNotAssociative(b, key);
    }
  }

  lemma {:induction false} KeylessOfUnion(a: seq<Json>, b: seq<Json>, key: string)
    ensures HasKeyless(Union(a, b, key), key) <==> HasKeyless(a, key) || HasKeyless(b, key)
  {
    if b != [] {
      var rest, item := b[..|b| - 1], b[|b| - 1];
      var merged, at := Union(a, rest, key), Find(a, key, KeyOf(item, key));
      assert b == rest + [item];
      KeylessOfUnion(a, rest, key);
      KeylessOneMore(rest, item, key);
      UnionStep(a, rest, item, key);
      if HasKey(item, key) && at.Some? {
        FindBounds(a, key, KeyOf(item, key));
        UnionKeepsKeys(a, rest, key);
        KeylessByKeys(merged, at.value, item, key);
      } else {
        KeylessOneMore(merged, item, key);
      }
    }
  }

  lemma KeylessOneMore(items: seq<Json>, item: Json, key: string)
    ensures HasKeyless(items + [item], key) <==> HasKeyless(items, key) || (item.Obj? && !HasKey(item, key))
  {
    var longer := items + [item];
    assert longer[|items|] == item && forall i :: 0 <= i < |items| ==> longer[i] == items[i];
  }

  lemma KeylessByKeys(items: seq<Json>, at: nat, item: Json, key: string)
    requires at < |items| && HasKey(item, key) && HasKey(items[at], key)
    ensures HasKeyless(items[at := item], key) <==> HasKeyless(items, key)
  {
    var after := items[at := item];
    forall i | 0 <= i < |items|
      ensures (items[i].Obj? && !HasKey(items[i], key)) == (after[i].Obj? && !HasKey(after[i], key))
    {}
  }

  lemma {:induction false} UnhashableInUnion(a: seq<Json>, b: seq<Json>, key: string)
    ensures HasUnhashable(Union(a, b, key), key) <==> HasUnhashable(a, key) || HasUnhashable(b, key)
  {
    if b != [] {
      var rest, item := b[..|b| - 1], b[|b| - 1];
      var merged, at := Union(a, rest, key), Find(a, key, KeyOf(item, key));
      assert b == rest + [item];
      UnhashableInUnion(a, rest, key);
      UnhashableOneMore(rest, item, key);
      UnionStep(a, rest, item, key);
      if HasKey(item, key) && at.Some? {
        FindBounds(a, key, KeyOf(item, key));
        UnionKeepsKeys(a, rest, key);
        UnhashableByKeys(merged, at.value, item, key);
      } else {
        UnhashableOneMore(merged, item, key);
      }
    }
  }

  lemma UnhashableOneMore(items: seq<Json>, item: Json, key: string)
    ensures HasUnhashable(items + [item], key) <==> HasUnhashable(items, key) || Unhashable(KeyOf(item, key))
  {
    var longer := items + [item];
    assert longer[|items|] == item && forall i :: 0 <= i < |items| ==> longer[i] == items[i];
  }

  lemma UnhashableByKeys(items: seq<Json>, at: nat, item: Json, key: string)
    requires at < |items| && KeyOf(items[at], key) == KeyOf(item, key)
    ensures HasUnhashable(items[at := item], key) <==> HasUnhashable(items, key)
    ensures HasUnhashable(items, key) <== Unhashable(KeyOf(item, key))
  {
    var after := items[at := item];
    forall i | 0 <= i < |items| ensures KeyOf(after[i], key) == KeyOf(items[i], key) {}
    assert after[at] == item;
  }

  /** Merging three lists raises in one order exactly when it raises in the other. */
  lemma RaisingIsAssociative(a: seq<Json>, b: seq<Json>, c: seq<Json>, key: string)
    ensures
      ListsRaise(a, b, key) || ListsRaise(Union(a, b, key), c, key) <==>
        ListsRaise(b, c, key) || ListsRaise(a, Union(b, c, key), key)
  {
    hide Union, Find, HasKeyless, HasUnhashable;
    FindInUnion(a, b, key, Null);
    KeylessOfUnion(b, c, key);
    UnhashableInUnion(a, b, key);
    UnhashableInUnion(b, c, key);
  }

  // ----- Dictionaries -----

  /** One key of a merge. Hints count at the top level only. */
  function MergeValue(base: Option<Json>, value: Json, hint: Option<Hint>): Json
    decreases value
  {
    if base.None? then value
    else if base.value.Obj? && value.Obj? then
      Obj(map k | k in base.value.fields.Keys + value.fields.Keys ::
        if k in value.fields then MergeValue(At(base.value.fields, k), value.fields[k], None) else base.value.fields[k])
    else if hint.Some? && base.value.Arr? && value.Arr? then
      if hint.value.UnionByKey? then Arr(Union(base.value.items, value.items, hint.value.key)) else value
    else value
  }

  function Merge(base: Dict, overlay: Dict, hints: Hints): Dict {
    map k | k in base.Keys + overlay.Keys ::
      if k in overlay then MergeValue(At(base, k), overlay[k], At(hints, k)) else base[k]
  }

  lemma NestedMerge(base: Dict, overlay: Dict, hint: Option<Hint>)
    ensures MergeValue(Some(Obj(base)), Obj(overlay), hint) == Obj(Merge(base, overlay, map[]))
  {
    var nested := MergeValue(Some(Obj(base)), Obj(overlay), hint).fields;
    forall k | k in overlay ensures At<string, Hint>(map[], k) == None {}
    assert nested == Merge(base, overlay, map[]);
  }

  /** Merging raises where it does for two hinted lists. */
  ghost predicate MergeRaises(base: Dict, overlay: Dict, hints: Hints) {
    exists k :: k in overlay && HintedListsRaise(base, overlay, hints, k)
  }

  ghost predicate HintedListsRaise(base: Dict, overlay: Dict, hints: Hints, k: string)
    requires k in overlay
  {
    && k in base && k in hints && base[k].Arr? && overlay[k].Arr?
    && hints[k].UnionByKey? && ListsRaise(base[k].items, overlay[k].items, hints[k].key)
  }

  /** Both dictionaries have a list under a key that is hinted to be united. */
  ghost predicate ListsUnder(base: Dict, overlay: Dict, hints: Hints, k: string, a: seq<Json>, b: seq<Json>) {
    k in hints && hints[k].UnionByKey? && k in base && base[k] == Arr(a) && k in overlay && overlay[k] == Arr(b)
  }

  lemma MergeRaisesIff(base: Dict, overlay: Dict, hints: Hints)
    ensures MergeRaises(base, overlay, hints) <==>
      exists k, a, b :: ListsUnder(base, overlay, hints, k, a, b) && CannotUnite(a, b, hints[k].key)
  {
    hide ListsRaise, CannotUnite;
    if MergeRaises(base, overlay, hints) {
      var k :| k in overlay && HintedListsRaise(base, overlay, hints, k);
      ListsRaiseIff(base[k].items, overlay[k].items, hints[k].key);
      assert ListsUnder(base, overlay, hints, k, base[k].items, overlay[k].items);
    }
    if k, a, b :| ListsUnder(base, overlay, hints, k, a, b) && CannotUnite(a, b, hints[k].key) {
      ListsRaiseIff(a, b, hints[k].key);
      assert HintedListsRaise(base, overlay, hints, k);
    }
  }

  /** None where the merge raises. */
  method MergeDicts(base: Dict, overlay: Dict, hints: Hints, ghost whole: Json) returns (result: Option<Dict>)
    requires whole == Obj(overlay)
    ensures result.None? <==> MergeRaises(base, overlay, hints)
    ensures result.None? <==>
      exists k, a, b :: ListsUnder(base, overlay, hints, k, a, b) && CannotUnite(a, b, hints[k].key)
    ensures result.Some? ==> result.value == Merge(base, overlay, hints)
    decreases whole
  {
    hide Union, ListsRaise, CannotUnite, ListsUnder;
    MergeRaisesIff(base, overlay, hints);
    var merged := base;
    var keys, done := overlay.Keys, {};
    while keys != {}
      invariant keys + done == overlay.Keys && keys !! done
      invariant merged.Keys == base.Keys + done
      invariant forall k :: k in merged ==>
        merged[k] == if k in done then MergeValue(At(base, k), overlay[k], At(hints, k)) else base[k]
      invariant forall k :: k in done ==> !HintedListsRaise(base, overlay, hints, k)
    {
      var key :| key in keys;
      var value := overlay[key];
      assert value == whole.fields[key];
      var mergedValue := value;
      if key in merged && merged[key].Obj? && value.Obj? {
        var nested := MergeDicts(merged[key].fields, value.fields, map[], value);
        NestedMerge(merged[key].fields, value.fields, At(hints, key));
        mergedValue := Obj(nested.value);
      } else if key in hints && key in merged && merged[key].Arr? && value.Arr? {
        var list := MergeList(merged[key].items, value.items, hints[key]);
        if list.None? { return None; }
        mergedValue := Arr(list.value);
      }
      merged := merged[key := mergedValue];
      keys, done := keys - {key}, done + {key};
    }
    result := Some(merged);
  }

  // ----- Tiers -----

  /** Merging declared tiers, least specific first. */
  function Resolve(tiers: seq<Dict>, hints: Hints): Dict {
    if tiers == [] then map[] else Merge(Resolve(tiers[..|tiers| - 1], hints), tiers[|tiers| - 1], hints)
  }

  /** Merging some tier into what the tiers before it gave raises. */
  ghost predicate ResolveRaises(tiers: seq<Dict>, hints: Hints) {
    tiers != [] &&
    var rest := tiers[..|tiers| - 1];
    ResolveRaises(rest, hints) || MergeRaises(Resolve(rest, hints), tiers[|tiers| - 1], hints)
  }

  datatype Scope = Global | Client | FeedSource

  const SCOPE_ORDER := [Global, Client, FeedSource]

  /** The tiers of the declared scopes; a scope without rows is an empty tier. */
  function Tiers(scopes: set<Scope>, maps: map<Scope, Dict>, order: seq<Scope>): seq<Dict> {
    if order == [] then []
    else
      var last := order[|order| - 1];
      Tiers(scopes, maps, order[..|order| - 1]) +
      (if last in scopes then [if last in maps then maps[last] else map[]] else [])
  }

  /** None where a merge raises. */
  method ResolveDeclared(scopes: set<Scope>, maps: map<Scope, Dict>, hints: Hints) returns (result: Option<Dict>)
    ensures result.None? <==> ResolveRaises(Tiers(scopes, maps, SCOPE_ORDER), hints)
    ensures result.Some? ==> result.value == Resolve(Tiers(scopes, maps, SCOPE_ORDER), hints)
  {
    hide Merge, Resolve, ResolveRaises, MergeRaises;
    NothingResolved(hints);
    var resolved: Dict := map[];
    for i := 0 to |SCOPE_ORDER|
      invariant resolved == Resolve(Tiers(scopes, maps, SCOPE_ORDER[..i]), hints)
      invariant !ResolveRaises(Tiers(scopes, maps, SCOPE_ORDER[..i]), hints)
    {
      var scope := SCOPE_ORDER[i];
      var before := Tiers(scopes, maps, SCOPE_ORDER[..i]);
      assert SCOPE_ORDER[..i + 1][..i] == SCOPE_ORDER[..i];
      assert before + [] == before;
      if scope !in scopes { continue; }
      var overlay := if scope in maps then maps[scope] else map[];
      ResolveOneMore(before, overlay, hints);
      var merged := MergeDicts(resolved, overlay, hints, Obj(overlay));
      if merged.None? {
        RaisingPersists(scopes, maps, SCOPE_ORDER, i + 1, hints);
        return None;
      }
      resolved := merged.value;
    }
    assert SCOPE_ORDER[..|SCOPE_ORDER|] == SCOPE_ORDER;
    result := Some(resolved);
  }

  lemma NothingResolved(hints: Hints)
    ensures Resolve([], hints) == map[] && !ResolveRaises([], hints)
  {
  }

  lemma ResolveOneMore(tiers: seq<Dict>, tier: Dict, hints: Hints)
    ensures Resolve(tiers + [tier], hints) == Merge(Resolve(tiers, hints), tier, hints)
    ensures ResolveRaises(tiers + [tier], hints) <==>
      ResolveRaises(tiers, hints) || MergeRaises(Resolve(tiers, hints), tier, hints)
  {
    assert (tiers + [tier])[..|tiers|] == tiers;
  }

  lemma {:induction false} RaisingPersists(
    scopes: set<Scope>, maps: map<Scope, Dict>, order: seq<Scope>, n: nat, hints: Hints)
    requires n <= |order| && ResolveRaises(Tiers(scopes, maps, order[..n]), hints)
    ensures ResolveRaises(Tiers(scopes, maps, order), hints)
    decreases |order|
  {
    hide MergeRaises, Resolve;
    if n == |order| {
      assert order[..n] == order;
    } else {
      var rest, last := order[..|order| - 1], order[|order| - 1];
      assert rest[..n] == order[..n];
      RaisingPersists(scopes, maps, rest, n, hints);
      var before := Tiers(scopes, maps, rest);
      assert before + [] == before;
      ResolveOneMore(before, if last in maps then maps[last] else map[], hints);
    }
  }

  /** The most specific tier that has a key. */
  function MostSpecific(tiers: seq<Dict>, k: string): Option<Json> {
    if tiers == [] then None
    else if k in tiers[|tiers| - 1] then Some(tiers[|tiers| - 1][k])
    else MostSpecific(tiers[..|tiers| - 1], k)
  }

  /** A key resolves exactly when some tier has it, and to the most specific value if that is
      neither a dictionary nor a list. */
  lemma {:induction false} MostSpecificWins(tiers: seq<Dict>, hints: Hints, k: string)
    ensures k in Resolve(tiers, hints) <==> MostSpecific(tiers, k).Some?
    ensures MostSpecific(tiers, k).Some? && !MostSpecific(tiers, k).value.Obj? && !MostSpecific(tiers, k).value.Arr? ==>
      Resolve(tiers, hints)[k] == MostSpecific(tiers, k).value
    ensures MostSpecific(tiers, k).Some? && MostSpecific(tiers, k).value.Arr? && (k !in hints || hints[k].Replace?) ==>
      Resolve(tiers, hints)[k] == MostSpecific(tiers, k).value
  {
    hide Union;
    if tiers != [] { MostSpecificWins(tiers[..|tiers| - 1], hints, k); }
  }

  /** The items a tier has under a key. */
  function ItemsUnder(tier: Dict, k: string): seq<Json> {
    if k in tier && tier[k].Arr? then tier[k].items else []
  }

  function UnionOfTiers(tiers: seq<Dict>, k: string, key: string): seq<Json> {
    if tiers == [] then []
    else Union(UnionOfTiers(tiers[..|tiers| - 1], k, key), ItemsUnder(tiers[|tiers| - 1], k), key)
  }

  /** The item with key value `v` of the most specific tier that has one. */
  function MostSpecificItem(tiers: seq<Dict>, k: string, key: string, v: Json): Option<Json> {
    if tiers == [] then None
    else
      var own := Items(ItemsUnder(tiers[|tiers| - 1], k), key);
      if v in own then Some(own[v]) else MostSpecificItem(tiers[..|tiers| - 1], k, key, v)
  }

  /** Every tier's list under the key is keyed. */
  ghost predicate TiersKeyed(tiers: seq<Dict>, k: string, key: string) {
    forall i :: 0 <= i < |tiers| ==> (k in tiers[i] ==> tiers[i][k].Arr?) && Keyed(ItemsUnder(tiers[i], k), key)
  }

  lemma UnionOntoNothing(items: seq<Json>, key: string)
    requires Keyed(items, key)
    ensures Union([], items, key) == items
  {
    hide Keyed, Keys, Items, Fresh, Union;
    NothingKeyed(key);
    UnionIsKeyed([], items, key);
    UnionItems([], items, key);
    FreshOfNothing(Keys(items, key));
    assert [] + Keys(items, key) == Keys(items, key);
    assert map[] + Items(items, key) == Items(items, key);
    SameKeysSameItems(Union([], items, key), items, key);
  }

  lemma NothingKeyed(key: string)
    ensures Keyed([], key) && Keys([], key) == [] && Items([], key) == map[]
  {
  }

  lemma {:induction false} FreshOfNothing(ks: seq<Json>)
    ensures Fresh(ks, []) == ks
  {
    if ks != [] { FreshOfNothing(ks[..|ks| - 1]); }
  }

  /** Under a hint the resolved list is the union of the tiers' lists: keyed again, and with the
      item of each key from the most specific tier that has it. */
  lemma {:induction false} ResolvedListIsUnion(tiers: seq<Dict>, hints: Hints, k: string, key: string)
    requires k in hints && hints[k] == UnionByKey(key) && TiersKeyed(tiers, k, key)
    ensures k in Resolve(tiers, hints) <==> MostSpecific(tiers, k).Some?
    ensures k in Resolve(tiers, hints) ==> Resolve(tiers, hints)[k] == Arr(UnionOfTiers(tiers, k, key))
    ensures k !in Resolve(tiers, hints) ==> UnionOfTiers(tiers, k, key) == []
    ensures Keyed(UnionOfTiers(tiers, k, key), key)
  {
    hide Keyed, Union;
    NothingKeyed(key);
    if tiers != [] {
      var rest, last := tiers[..|tiers| - 1], tiers[|tiers| - 1];
      ResolvedListIsUnion(rest, hints, k, key);
      var before, own := UnionOfTiers(rest, k, key), ItemsUnder(last, k);
      assert Keyed(own, key);
      UnionIsKeyed(before, own, key);
      UnionOntoNothing(own, key);
      NothingAdded(before, key);
    }
  }

  lemma {:induction false} ResolvedItemIsMostSpecific(tiers: seq<Dict>, k: string, key: string, v: Json)
    requires TiersKeyed(tiers, k, key)
    ensures Keyed(UnionOfTiers(tiers, k, key), key)
    ensures At(Items(UnionOfTiers(tiers, k, key), key), v) == MostSpecificItem(tiers, k, key, v)
  {
    hide Keyed, Union, Items;
    NothingKeyed(key);
    if tiers != [] {
      var rest, last := tiers[..|tiers| - 1], tiers[|tiers| - 1];
      ResolvedItemIsMostSpecific(rest, k, key, v);
      var before, own := UnionOfTiers(rest, k, key), ItemsUnder(last, k);
      assert Keyed(own, key);
      UnionIsKeyed(before, own, key);
      UnionItems(before, own, key);
    }
  }
}
