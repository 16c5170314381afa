/** The mapping engine as it runs: one result, written in place by three passes. */
module Mapper {
  import opened AttributeKinds
  import opened Hashing
  import opened IndexedPath
  import opened Ordering
  import opened Slots
  import opened Mapping
  import opened MappingOutcome
  import opened Wrappers

  /** Keys ordered by their target text; keys with equal targets keep their order. */
  function InsertByTarget(key: string, sorted: seq<string>, mappings: Mappings): seq<string>
    requires key in mappings && forall k :: k in sorted ==> k in mappings
  {
    if sorted == [] || Before(mappings[key], mappings[sorted[0]]) then [key] + sorted
    else [sorted[0]] + InsertByTarget(key, sorted[1..], mappings)
  }

  function SortByTarget(keys: seq<string>, mappings: Mappings): (sorted: seq<string>)
    requires forall k :: k in keys ==> k in mappings
    ensures multiset(sorted) == multiset(keys)
  {
    if keys == [] then []
    else
      var n := |keys| - 1;
      assert keys == keys[..n] + [keys[n]];
      var rest := SortByTarget(keys[..n], mappings);
      SameMembers(rest, keys[..n]);
      InsertKeepsMembers(keys[n], rest, mappings);
      InsertByTarget(keys[n], rest, mappings)
  }

  lemma SameMembers(a: seq<string>, b: seq<string>)
    requires multiset(a) == multiset(b)
    ensures forall k :: k in a <==> k in b
  {
    forall k ensures k in a <==> k in b {
      assert k in a <==> k in multiset(a);
      assert k in b <==> k in multiset(b);
    }
  }

  lemma {:induction false} InsertKeepsMembers(key: string, sorted: seq<string>, mappings: Mappings)
    requires key in mappings && forall k :: k in sorted ==> k in mappings
    ensures multiset(InsertByTarget(key, sorted, mappings)) == multiset(sorted + [key])
  {
    if sorted != [] {
      assert sorted == [sorted[0]] + sorted[1..];
      if !Before(mappings[key], mappings[sorted[0]]) {
        InsertKeepsMembers(key, sorted[1..], mappings);
        assert sorted + [key] == [sorted[0]] + (sorted[1..] + [key]);
      }
    }
  }

  lemma DistinctByCount(keys: seq<string>)
    ensures DistinctKeys(keys) <==> forall k :: multiset(keys)[k] <= 1
  {
    if DistinctKeys(keys) {
      forall k ensures multiset(keys)[k] <= 1 { CountOfDistinct(keys, k); }
    } else {
      var i, j :| 0 <= i < j < |keys| && keys[i] == keys[j];
      assert keys == keys[..j] + [keys[j]] + keys[j + 1..];
      assert keys[i] in keys[..j];
      assert keys[i] in multiset(keys[..j]);
      assert multiset(keys) == multiset(keys[..j]) + multiset([keys[j]]) + multiset(keys[j + 1..]);
      assert multiset(keys)[keys[j]] >= 2;
    }
  }

  lemma {:induction false} CountOfDistinct(keys: seq<string>, k: string)
    requires DistinctKeys(keys)
    ensures multiset(keys)[k] <= 1
  {
    if keys != [] {
      var n := |keys| - 1;
      assert keys == keys[..n] + [keys[n]];
      CountOfDistinct(keys[..n], k);
      if k == keys[n] {
        assert k !in keys[..n];
        assert k !in multiset(keys[..n]);
      }
    }
  }

  class Engine {
    const registry: Registry
    var result: Result
    var dropped: nat
    var mismatches: nat

    constructor (registry: Registry)
      ensures this.registry == registry && result == map[] && dropped == 0 && mismatches == 0
    {
      this.registry := registry;
      result, dropped, mismatches := map[], 0, 0;
    }

    /** Makes an attribute a list of at least `n` items. */
    method PadTo(attr: string, n: nat, filler: Json)
      modifies this`result
      ensures result == old(result)[attr := Arr(Padded(Items(old(result), attr), n, filler))]
    {
      if attr !in result || !result[attr].Arr? { result := result[attr := Arr([])]; }
      ghost var before := Items(old(result), attr);
      while |Items(result, attr)| < n
        invariant attr in result && result[attr].Arr?
        invariant result == old(result)[attr := Arr(Items(result, attr))]
        invariant |before| <= |Items(result, attr)| && (|Items(result, attr)| <= n || Items(result, attr) == before)
        invariant Items(result, attr) == Padded(before, |Items(result, attr)|, filler)
        decreases n - |Items(result, attr)|
      {
        result := result[attr := Arr(result[attr].items + [filler])];
      }
    }

    method MergeElementwise(attr: string, sub: string, values: seq<Json>)
      modifies this`result
      ensures result == old(result)[attr := Arr(Merged(Items(old(result), attr), sub, values))]
    {
      PadTo(attr, |values|, Obj(map[]));
      ghost var padded := Items(result, attr);
      for i := 0 to |values|
        invariant attr in result && result[attr].Arr? && |result[attr].items| == |padded|
        invariant result == old(result)[attr := Arr(Items(result, attr))]
        invariant forall j :: 0 <= j < |padded| ==>
          Items(result, attr)[j] ==
            if j < i && values[j] != Str("") then SetField(padded[j], sub, values[j]) else padded[j]
      {
        if values[i] != Str("") {
          var items := result[attr].items;
          result := result[attr := Arr(items[i := SetField(items[i], sub, values[i])])];
        }
      }
      assert Items(result, attr) == Merged(Items(old(result), attr), sub, values);
    }

    method SetSlot(w: Write) returns (ok: bool)
      requires w.index >= 1
      modifies this`result
      ensures (result, ok) == SetIndexed(old(result), w)
    {
      var filler := if w.sub.None? then Str("") else Obj(map[]);
      PadTo(w.attr, w.index, filler);
      ghost var padded := Padded(Items(old(result), w.attr), w.index, filler);
      var items := result[w.attr].items;
      assert items == padded;
      if w.sub.None? {
        result := result[w.attr := Arr(items[w.index - 1 := Str(w.text)])];
        assert result == old(result)[w.attr := Arr(padded[w.index - 1 := Str(w.text)])];
        return true;
      }
      if !items[w.index - 1].Obj? { return false; }
      result := result[w.attr := Arr(items[w.index - 1 := SetField(items[w.index - 1], w.sub.value, Str(w.text))])];
      assert result ==
        old(result)[w.attr := Arr(items[w.index - 1 := SetField(items[w.index - 1], w.sub.value, Str(w.text))])];
      ok := true;
    }

    method ApplyEntry(value: Json, target: string)
      modifies this`result, this`mismatches
      ensures
        var (r, ok) := EntryEffect(registry, old(result), value, target);
        result == r && mismatches == old(mismatches) + (if ok then 0 else 1)
    {
      var parsed := Parse(target);
      if parsed.None? || parsed.value.attr !in registry {
        mismatches := mismatches + 1;
        return;
      }
      var p := parsed.value;
      if p.index.Some? {
        ParsedIsWellFormed(target);
        var w := WriteFor(registry, value, p);
        var ok := false;
        if w.Some? { ok := SetSlot(w.value); }
        if !ok { mismatches := mismatches + 1; }
        return;
      }
      if p.sub.Some? {
        ApplySub(registry[p.attr].kind, p.attr, p.sub.value, value);
        return;
      }
      var (r, ok) := WholeEffect(registry[p.attr], result, p.attr, value);
      result := r;
      if !ok { mismatches := mismatches + 1; }
    }

    method ApplySub(kind: Kind, attr: string, sub: string, value: Json)
      modifies this`result, this`mismatches
      ensures
        var (r, ok) := SubEffect(kind, old(result), attr, sub, value);
        result == r && mismatches == old(mismatches) + (if ok then 0 else 1)
    {
      if kind == RepeatedStructured && value.Str? {
        PadTo(attr, 1, Obj(map[]));
        var items := result[attr].items;
        result := result[attr := Arr(items[0 := SetField(items[0], sub, value)])];
      } else if kind == RepeatedStructured && value.Arr? {
        MergeElementwise(attr, sub, value.items);
      } else if kind == Structured && (value.Str? || (value.Arr? && |value.items| == 1)) {
        if attr !in result { result := result[attr := Obj(map[])]; }
        result := result[attr := SetField(result[attr], sub, if value.Str? then value else value.items[0])];
      } else {
        mismatches := mismatches + 1;
      }
    }

    method WholeFieldPass(product: map<string, Json>, order: seq<string>, mappings: Mappings)
      requires result == map[] && forall k :: k in order ==> k in product
      modifies this
      ensures result == WholePassed(registry, product, mappings, order)
      ensures dropped == old(dropped) + Dropped(product, mappings, order)
      ensures mismatches == old(mismatches) + WholeMismatches(registry, product, mappings, order)
    {
      hide EntryEffect;
      var parents := SubMappedParents(product, mappings);
      for i := 0 to |order|
        invariant result == WholePassed(registry, product, mappings, order[..i])
        invariant dropped == old(dropped) + Dropped(product, mappings, order[..i])
        invariant mismatches == old(mismatches) + WholeMismatches(registry, product, mappings, order[..i])
      {
        var source := order[i];
        assert order[..i + 1][..i] == order[..i];
        if source in mappings {
          if !IsIndexed(mappings[source]) {
            ApplyEntry(product[source], mappings[source]);
          }
        } else if source !in parents {
          dropped := dropped + 1;
        }
      }
      assert order[..|order|] == order;
    }

    method SubFieldPass(product: map<string, Json>, order: seq<string>, mappings: Mappings)
      requires forall k :: k in order ==> k in mappings
      modifies this`result, this`mismatches
      ensures result == SubPassed(registry, old(result), product, mappings, order)
      ensures mismatches == old(mismatches) + SubMismatches(registry, old(result), product, mappings, order)
    {
      hide EntryEffect, SubSource, Parse;
      for i := 0 to |order|
        invariant result == SubPassed(registry, old(result), product, mappings, order[..i])
        invariant mismatches == old(mismatches) + SubMismatches(registry, old(result), product, mappings, order[..i])
      {
        var key := order[i];
        assert order[..i + 1][..i] == order[..i];
        if key !in product && !IsIndexed(mappings[key]) {
          MismatchHasNoSource(product, key);
          var (source, mismatch) := SubSource(product, key);
          if mismatch {
            mismatches := mismatches + 1;
          } else if source.Some? {
            ApplyEntry(source.value, mappings[key]);
          }
        }
      }
      assert order[..|order|] == order;
    }

    method IndexedEntry(product: map<string, Json>, key: string, mappings: Mappings)
      requires key in mappings && IsIndexed(mappings[key])
      modifies this`result, this`mismatches
      ensures
        var w := IndexedWrite(registry, product, mappings, key);
        if w.Some? then w.value.index >= 1 && result == SetIndexed(old(result), w.value).0 else result == old(result)
      ensures mismatches ==
        old(mismatches) + SourceMismatch(registry, old(result), IndexedSource(product, key), mappings[key])
    {
      ParsedIsWellFormed(mappings[key]);
      var (source, mismatch) := IndexedSource(product, key);
      if mismatch {
        mismatches := mismatches + 1;
      } else if source.Some? {
        ApplyEntry(source.value, mappings[key]);
      }
    }

    method IndexedPass(product: map<string, Json>, keys: seq<string>, mappings: Mappings)
      requires forall k :: k in keys ==> k in mappings && IsIndexed(mappings[k])
      modifies this`result, this`mismatches
      ensures forall w :: w in IndexedWrites(registry, product, mappings, keys) ==> w.index >= 1
      ensures result == SetAll(old(result), IndexedWrites(registry, product, mappings, keys))
      ensures mismatches == old(mismatches) + IndexedMismatches(registry, old(result), product, mappings, keys)
    {
      hide IndexedWrite, SetIndexed, IndexedWrites, SetAll, IndexedMismatches, SourceMismatch;
      NoWrites(registry, product, mappings, result);
      for i := 0 to |keys|
        invariant forall w :: w in IndexedWrites(registry, product, mappings, keys[..i]) ==> w.index >= 1
        invariant result == SetAll(old(result), IndexedWrites(registry, product, mappings, keys[..i]))
        invariant mismatches == old(mismatches) + IndexedMismatches(registry, old(result), product, mappings, keys[..i])
      {
        assert keys[..i] + [keys[i]] == keys[..i + 1];
        WritesOneMore(registry, product, mappings, keys[..i], keys[i], old(result));
        IndexedEntry(product, keys[i], mappings);
      }
      assert keys[..|keys|] == keys;
    }

    /** Maps one product; the dictionaries are iterated in the orders given. The indexed strings
        are written over whatever the first two passes leave, by target text, and where no two of
        them have one target each is then in its own slot of it. */
    method ApplyMapping(
        product: map<string, Json>, productOrder: seq<string>, mappings: Mappings, mappingOrder: seq<string>)
      requires result == map[]
      requires DistinctKeys(productOrder) && forall k :: k in productOrder <==> k in product
      requires DistinctKeys(mappingOrder) && forall k :: k in mappingOrder <==> k in mappings
      modifies this
      ensures
        var whole := WholePassed(registry, product, mappings, productOrder);
        var mid := SubPassed(registry, whole, product, mappings, mappingOrder);
        var sorted := IndexedByTarget(mappingOrder, mappings);
        var ws := IndexedWrites(registry, product, mappings, sorted);
        var c := Passes(registry, product, mappings, productOrder, mappingOrder);
        && Positive(ws) && result == SetAll(mid, ws)
        && (forall attr :: Decided(c, attr, mid))
        && (SlotsApart(mappings) ==> SlotsSet(mid, ws, result))
        && dropped == old(dropped) + |UnmappedAt(c, |productOrder|)|
        && mismatches == old(mismatches)
          + |RefusedSteps(c, c.Length())| + |RefusedSlots(registry, mid, product, mappings, sorted, |sorted|)|
    {
      hide WholePassed, SubPassed, IndexedWrites, SetAll, SlotsSet, SlotsApart, Dropped, WholeMismatches, SubMismatches,
        IndexedMismatches, Decided, RefusedSteps, RefusedSlots, UnmappedAt;
      ghost var c := Passes(registry, product, mappings, productOrder, mappingOrder);
      Described(c);
      WholeFieldPass(product, productOrder, mappings);
      SubFieldPass(product, mappingOrder, mappings);
      ghost var mid := result;
      WholePassKeepsKinds(registry, product, mappings, productOrder);
      SubPassKeepsKinds(
        registry, WholePassed(registry, product, mappings, productOrder), product, mappings, mappingOrder);
      var sorted := IndexedByTarget(mappingOrder, mappings);
      IndexedPass(product, sorted, mappings);
      IndexedMismatchesAre(registry, mid, product, mappings, sorted);
      if SlotsApart(mappings) {
        IndexedPassLands(registry, product, mappings, sorted, sorted, mid);
      }
    }
  }

  /** The two passes and their counters, told from the entries. */
  lemma Described(c: Passes)
    requires c.Valid()
    ensures
      var whole := WholePassed(c.registry, c.product, c.mappings, c.order);
      && (forall attr :: Decided(c, attr, SubPassed(c.registry, whole, c.product, c.mappings, c.keys)))
      && Dropped(c.product, c.mappings, c.order) == |UnmappedAt(c, |c.order|)|
      && WholeMismatches(c.registry, c.product, c.mappings, c.order)
        + SubMismatches(c.registry, whole, c.product, c.mappings, c.keys) == |RefusedSteps(c, c.Length())|
  {
    hide WholePassed, SubPassed, Dropped, WholeMismatches, SubMismatches, Decided, UnmappedAt, RefusedStep;
    PassesLeave(c);
    DroppedAre(c, |c.order|);
    assert c.order[..|c.order|] == c.order;
    forall attr ensures Decided(c, attr, c.State(c.Length())) { PassesDecide(c, attr); }
  }

  ghost predicate ByTarget(sorted: seq<string>, mappings: Mappings)
    requires forall k :: k in sorted ==> k in mappings
  {
    forall i, j :: 0 <= i < j < |sorted| ==> !Before(mappings[sorted[j]], mappings[sorted[i]])
  }

  lemma {:induction false} InsertInOrder(key: string, sorted: seq<string>, mappings: Mappings)
    requires key in mappings && (forall k :: k in sorted ==> k in mappings) && ByTarget(sorted, mappings)
    ensures forall k :: k in InsertByTarget(key, sorted, mappings) <==> k in sorted || k == key
    ensures ByTarget(InsertByTarget(key, sorted, mappings), mappings)
  {
    hide Before;
    if sorted != [] {
      var first, rest := sorted[0], sorted[1..];
      assert sorted == [first] + rest;
      if Before(mappings[key], mappings[first]) {
        var after := [key] + sorted;
        BeforeIsTotal(mappings[key], mappings[first]);
        forall j | 0 <= j < |sorted| ensures !Before(mappings[sorted[j]], mappings[key]) {
          if j > 0 { NotBeforeIsTransitive(mappings[key], mappings[first], mappings[sorted[j]]); }
        }
        assert after[0] == key && forall j :: 0 <= j < |sorted| ==> after[j + 1] == sorted[j];
      } else {
        InsertInOrder(key, rest, mappings);
        var later := InsertByTarget(key, rest, mappings);
        forall j | 0 <= j < |later| ensures !Before(mappings[later[j]], mappings[first]) {
          assert later[j] in later;
          if later[j] in rest { var k :| 0 <= k < |rest| && rest[k] == later[j]; assert sorted[k + 1] == later[j]; }
        }
        var after := [first] + later;
        assert after[0] == first && forall j :: 0 <= j < |later| ==> after[j + 1] == later[j];
      }
    }
  }

  /** Keys with earlier targets come first. */
  lemma {:induction false} SortedByTarget(keys: seq<string>, mappings: Mappings)
    requires forall k :: k in keys ==> k in mappings
    ensures forall k :: k in SortByTarget(keys, mappings) <==> k in keys
    ensures ByTarget(SortByTarget(keys, mappings), mappings)
  {
    hide Before, ByTarget;
    if keys != [] {
      var n := |keys| - 1;
      assert keys == keys[..n] + [keys[n]];
      SortedByTarget(keys[..n], mappings);
      InsertInOrder(keys[n], SortByTarget(keys[..n], mappings), mappings);
    } else {
      NothingSorted(mappings);
    }
  }

  lemma NothingSorted(mappings: Mappings)
    ensures ByTarget([], mappings)
  {
  }

  /** The indexed keys in the order in which they are written. */
  function IndexedByTarget(order: seq<string>, mappings: Mappings): (sorted: seq<string>)
    requires forall k :: k in order ==> k in mappings
    ensures forall k :: k in sorted <==> k in order && IsIndexed(mappings[k])
    ensures DistinctKeys(order) ==> DistinctKeys(sorted)
    ensures ByTarget(sorted, mappings)
  {
    var indexed := IndexedOf(order, mappings);
    SortedByTarget(indexed, mappings);
    var sorted := SortByTarget(indexed, mappings);
    SameMembers(sorted, indexed);
    DistinctByCount(sorted);
    DistinctByCount(indexed);
    sorted
  }

  /** The keys of a mapping whose targets are indexed, in order. */
  function IndexedOf(order: seq<string>, mappings: Mappings): (keys: seq<string>)
    requires forall k :: k in order ==> k in mappings
    ensures forall k :: k in keys <==> k in order && IsIndexed(mappings[k])
    ensures DistinctKeys(order) ==> DistinctKeys(keys)
  {
    if order == [] then []
    else
      var last := order[|order| - 1];
      assert order == order[..|order| - 1] + [last];
      IndexedOf(order[..|order| - 1], mappings) + (if IsIndexed(mappings[last]) then [last] else [])
  }
}
