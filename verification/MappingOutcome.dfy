/** What the unindexed passes of a mapping come to over all their entries: the last entry to write
    an attribute, or a sub-field of one of its items, decides it. */
module MappingOutcome {
  import opened Counting
  import opened Hashing
  import opened IndexedPath
  import opened Slots
  import opened Mapping
  import opened MappingLaws
  import opened Wrappers

  /** One product with its mapping: source fields in product order first, then sub-field sources
      in mapping order. */
  datatype Passes = Passes(
    registry: Registry, product: map<string, Json>, mappings: Mappings, order: seq<string>, keys: seq<string>)
  {
    ghost predicate Valid() {
      (forall k :: k in order ==> k in product) && forall k :: k in keys ==> k in mappings
    }

    function Length(): nat {
      |order| + |keys|
    }

    /** The value and the target of step `j`, if it has any. */
    ghost predicate Feeds(j: nat, value: Json, target: string)
      requires Valid()
    {
      if j < |order| then
        order[j] in mappings && target == mappings[order[j]] && Unindexed(target)
        && order[j] in product && value == product[order[j]]
      else
        j < Length() &&
        var k := keys[j - |order|];
        k !in product && k in mappings && target == mappings[k] && Unindexed(target) && SourceYields(product, k, value)
    }

    ghost predicate Whole(j: nat, attr: string, w: Json)
      requires Valid()
    {
      exists value, target :: Feeds(j, value, target) && WritesWhole(registry, value, target, attr, w)
    }

    ghost predicate Replaces(j: nat, attr: string)
      requires Valid()
    {
      exists w :: Whole(j, attr, w)
    }

    ghost predicate Sub(j: nat, attr: string, sub: string, value: Json)
      requires Valid()
    {
      exists target :: Feeds(j, value, target) && WritesSub(registry, value, target, attr, sub)
    }

    ghost predicate Acts(j: nat, attr: string)
      requires Valid()
    {
      Replaces(j, attr) || exists sub, value :: Sub(j, attr, sub, value)
    }

    /** Step `j` puts `v` into the sub-field of item `i`, by itself or with the whole attribute. */
    ghost predicate Gives(j: nat, attr: string, i: nat, sub: string, v: Json)
      requires Valid()
    {
      || (exists w :: Whole(j, attr, w) && FieldIn(w, i, sub, v))
      || (exists value :: Sub(j, attr, sub, value) && attr in registry && ForItem(registry[attr], value, i, v))
    }

    /** Step `j` decides that sub-field, if only by replacing the whole attribute. */
    ghost predicate Decides(j: nat, attr: string, i: nat, sub: string)
      requires Valid()
    {
      || Replaces(j, attr)
      || (exists value :: Sub(j, attr, sub, value) && attr in registry && Takes(registry[attr], value, i))
    }

    /** Step `j` calls for this many items. */
    ghost predicate CallsFor(j: nat, attr: string, count: nat)
      requires Valid()
    {
      || (exists w :: Whole(j, attr, w) && w.Arr? && count == |w.items|)
      || (exists sub, value :: Sub(j, attr, sub, value) && count == Reach(value))
    }

    ghost function State(j: nat): Result
      requires Valid() && j <= Length()
    {
      if j <= |order| then WholePassed(registry, product, mappings, order[..j])
      else SubPassed(registry, WholePassed(registry, product, mappings, order), product, mappings, keys[..j - |order|])
    }
  }

  lemma StepRuns(c: Passes, j: nat)
    requires c.Valid() && j < c.Length()
    ensures forall value, target :: c.Feeds(j, value, target) ==>
      Unindexed(target) && c.State(j + 1) == EntryEffect(c.registry, c.State(j), value, target).0
    ensures (forall value, target :: !c.Feeds(j, value, target)) ==> c.State(j + 1) == c.State(j)
  {
    hide EntryEffect, Unindexed, SourceYields;
    var before := c.State(j);
    if j < |c.order| {
      var k := c.order[j];
      assert c.order[..j + 1][..j] == c.order[..j];
      if k in c.mappings {
        UnindexedIff(c.mappings[k]);
        if Unindexed(c.mappings[k]) { assert c.Feeds(j, c.product[k], c.mappings[k]); }
      }
    } else {
      SubStepRuns(c, j);
    }
  }

  lemma SubStepRuns(c: Passes, j: nat)
    requires c.Valid() && |c.order| <= j < c.Length()
    ensures forall value, target :: c.Feeds(j, value, target) ==>
      Unindexed(target) && c.State(j + 1) == EntryEffect(c.registry, c.State(j), value, target).0
    ensures (forall value, target :: !c.Feeds(j, value, target)) ==> c.State(j + 1) == c.State(j)
  {
    hide EntryEffect, Unindexed, SourceYields, SubSource, WholePassed, IsIndexed;
    var n := j - |c.order|;
    var k, whole, some := c.keys[n], WholePassed(c.registry, c.product, c.mappings, c.order), c.keys[..n + 1];
    assert some[..n] == c.keys[..n] && some[n] == k && k in some;
    assert c.order[..|c.order|] == c.order && c.keys[..0] == [];
    var before := SubPassed(c.registry, whole, c.product, c.mappings, c.keys[..n]);
    assert c.State(j) == before;
    assert c.State(j + 1) == SubPassed(c.registry, whole, c.product, c.mappings, some);
    UnindexedIff(c.mappings[k]);
    var source := SubSource(c.product, k).0;
    forall v ensures source == Some(v) <==> SourceYields(c.product, k, v) {
      SubSourceIs(c.product, k, v);
    }
    if k !in c.product && Unindexed(c.mappings[k]) && source.Some? {
      assert c.Feeds(j, source.value, c.mappings[k]);
      assert c.State(j + 1) == EntryEffect(c.registry, before, source.value, c.mappings[k]).0;
    } else {
      assert c.State(j + 1) == before;
    }
  }

  /** A step has one value and one target. */
  lemma FeedsOnce(c: Passes, j: nat, value: Json, target: string, other: Json, target': string)
    requires c.Valid() && c.Feeds(j, value, target) && c.Feeds(j, other, target')
    ensures value == other && target == target'
  {
    if j >= |c.order| {
      var k := c.keys[j - |c.order|];
      SubSourceIs(c.product, k, value);
      SubSourceIs(c.product, k, other);
    }
  }

  lemma StepWrites(c: Passes, j: nat, value: Json, target: string)
    requires c.Valid() && c.Feeds(j, value, target)
    ensures forall attr, w :: c.Whole(j, attr, w) <==> WritesWhole(c.registry, value, target, attr, w)
    ensures forall attr, sub, u ::
      c.Sub(j, attr, sub, u) <==> u == value && WritesSub(c.registry, value, target, attr, sub)
    ensures forall attr :: c.Acts(j, attr) <==> ActsOn(c.registry, value, target, attr)
  {
    hide WritesWhole, WritesSub, SourceYields, Unindexed, c.Feeds;
    forall other, target' | c.Feeds(j, other, target') ensures other == value && target' == target {
      FeedsOnce(c, j, value, target, other, target');
    }
    forall attr ensures c.Acts(j, attr) <==> ActsOn(c.registry, value, target, attr) {
      if w :| WritesWhole(c.registry, value, target, attr, w) { assert c.Whole(j, attr, w); }
      if w :| c.Whole(j, attr, w) { assert WritesWhole(c.registry, value, target, attr, w); }
      if sub :| WritesSub(c.registry, value, target, attr, sub) { assert c.Sub(j, attr, sub, value); }
      if sub, u :| c.Sub(j, attr, sub, u) { assert WritesSub(c.registry, value, target, attr, sub); }
    }
  }

  lemma StateKinds(c: Passes, j: nat)
    requires c.Valid() && j <= c.Length()
    ensures WellKinded(c.registry, c.State(j))
  {
    hide WholePassed, SubPassed, WellKinded;
    if j <= |c.order| {
      WholePassKeepsKinds(c.registry, c.product, c.mappings, c.order[..j]);
    } else {
      WholePassKeepsKinds(c.registry, c.product, c.mappings, c.order);
      SubPassKeepsKinds(
        c.registry, WholePassed(c.registry, c.product, c.mappings, c.order), c.product, c.mappings,
        c.keys[..j - |c.order|]);
    }
  }

  /** What one step does to one attribute. */
  lemma StepAt(c: Passes, j: nat, attr: string)
    requires c.Valid() && j < c.Length()
    ensures attr in c.State(j + 1) <==> attr in c.State(j) || c.Acts(j, attr)
    ensures !c.Acts(j, attr) ==> At(c.State(j + 1), attr) == At(c.State(j), attr)
    ensures forall w :: c.Whole(j, attr, w) ==> At(c.State(j + 1), attr) == Some(w)
    ensures forall sub, value :: c.Sub(j, attr, sub, value) ==>
      && attr in c.State(j + 1) && attr in c.registry
      && FieldSet(c.registry[attr], At(c.State(j), attr), c.State(j + 1)[attr], sub, value)
  {
    StepRuns(c, j);
    hide EntryEffect, FieldSet, Unindexed, WellKinded, c.Feeds, c.State, c.Whole, c.Sub, WritesWhole, WritesSub;
    hide c.Acts, Entered;
    if value, target :| c.Feeds(j, value, target) {
      StateKinds(c, j);
      EntryIs(c.registry, c.State(j), value, target);
      StepWrites(c, j, value, target);
      EnteredAt(c.registry, c.State(j), value, target, c.State(j + 1), attr);
    } else {
      NothingFed(c, j, attr);
    }
  }

  lemma EnteredAt(registry: Registry, r: Result, value: Json, target: string, q: Result, attr: string)
    requires exists ok :: Entered(registry, r, value, target, q, ok)
    ensures attr in q <==> attr in r || ActsOn(registry, value, target, attr)
    ensures !ActsOn(registry, value, target, attr) ==> At(q, attr) == At(r, attr)
    ensures forall w :: WritesWhole(registry, value, target, attr, w) ==> At(q, attr) == Some(w)
    ensures forall sub :: WritesSub(registry, value, target, attr, sub) ==>
      attr in q && attr in registry && FieldSet(registry[attr], At(r, attr), q[attr], sub, value)
  {
    hide FieldSet, Fits, FitsSub;
    if ActsOn(registry, value, target, attr) {
      if w :| WritesWhole(registry, value, target, attr, w) { assert At(q, attr) == Some(w); }
    }
  }

  lemma NothingFed(c: Passes, j: nat, attr: string)
    requires c.Valid() && forall value, target :: !c.Feeds(j, value, target)
    ensures !c.Acts(j, attr) && (forall w :: !c.Whole(j, attr, w)) && forall sub, value :: !c.Sub(j, attr, sub, value)
  {
  }

  /** A whole write and a sub-field write to one attribute are never the same step. */
  lemma WholeOrSub(c: Passes, j: nat, attr: string, w: Json, sub: string, value: Json)
    requires c.Valid() && c.Whole(j, attr, w)
    ensures !c.Sub(j, attr, sub, value)
    ensures forall u :: c.Whole(j, attr, u) ==> u == w
  {
    hide Fits, FitsSub, SourceYields, Unindexed, WellFormed;
    var value', target :| c.Feeds(j, value', target) && WritesWhole(c.registry, value', target, attr, w);
    StepWrites(c, j, value', target);
    WholeEffectIs(c.registry[attr], map[], attr, value');
    assert !SubTarget(c.registry, target, attr, sub);
  }

  // ----- The laws -----

  /** The attributes of the result are those some entry writes. */
  lemma {:induction false} AttributesIff(c: Passes, n: nat, attr: string)
    requires c.Valid() && n <= c.Length()
    ensures attr in c.State(n) <==> exists j :: 0 <= j < n && c.Acts(j, attr)
  {
    hide c.State, c.Acts;
    if n == 0 {
      NothingYet(c);
    } else {
      AttributesIff(c, n - 1, attr);
      StepAt(c, n - 1, attr);
    }
  }

  lemma NothingYet(c: Passes)
    requires c.Valid()
    ensures c.State(0) == map[]
  {
  }

  /** No entry after `j` writes the attribute as a whole. */
  ghost predicate LastWhole(c: Passes, n: nat, j: nat, attr: string)
    requires c.Valid()
  {
    j < n && forall k :: j < k < n ==> !c.Replaces(k, attr)
  }

  /** An attribute without sub-fields holds what the last entry that fits it brings. */
  lemma {:induction false} WholeIff(c: Passes, n: nat, attr: string, w: Json)
    requires c.Valid() && n <= c.Length() && attr in c.registry
    requires c.registry[attr].kind.Scalar? || c.registry[attr].kind.RepeatedScalar?
    ensures At(c.State(n), attr) == Some(w) <==> exists j :: LastWhole(c, n, j, attr) && c.Whole(j, attr, w)
  {
    hide c.State, c.Whole, c.Sub;
    if n == 0 {
      NothingYet(c);
    } else {
      var m := n - 1;
      WholeIff(c, m, attr, w);
      StepAt(c, m, attr);
      NoSubs(c, m, attr);
      LastWholeOneMore(c, m, attr);
      if u :| c.Whole(m, attr, u) { WholeOrSub(c, m, attr, u, "", Null); }
    }
  }

  lemma NoSubs(c: Passes, j: nat, attr: string)
    requires c.Valid() && attr in c.registry
    requires c.registry[attr].kind.Scalar? || c.registry[attr].kind.RepeatedScalar?
    ensures forall sub, value :: !c.Sub(j, attr, sub, value)
  {
  }

  lemma LastWholeOneMore(c: Passes, n: nat, attr: string)
    requires c.Valid()
    ensures forall j: nat :: LastWhole(c, n + 1, j, attr) <==>
      j == n || (LastWhole(c, n, j, attr) && !c.Replaces(n, attr))
  {
    hide c.Replaces;
  }

  ghost predicate LastDecides(c: Passes, n: nat, j: nat, attr: string, i: nat, sub: string)
    requires c.Valid()
  {
    j < n && forall k :: j < k < n ==> !c.Decides(k, attr, i, sub)
  }

  /** A sub-field of an item, or of a structured attribute, holds what the last entry to decide it
      gives. */
  lemma {:induction false} FieldIff(c: Passes, n: nat, attr: string, i: nat, sub: string, v: Json)
    requires c.Valid() && n <= c.Length()
    ensures FieldAt(c.State(n), attr, i, sub, v) <==>
      exists j :: LastDecides(c, n, j, attr, i, sub) && c.Gives(j, attr, i, sub, v)
  {
    hide c.State, c.Gives, c.Decides;
    if n == 0 {
      NothingYet(c);
    } else {
      FieldIff(c, n - 1, attr, i, sub, v);
      FieldStep(c, n - 1, attr, i, sub, v);
      LastDecidesOneMore(c, n - 1, attr, i, sub);
    }
  }

  lemma LastDecidesOneMore(c: Passes, n: nat, attr: string, i: nat, sub: string)
    requires c.Valid()
    ensures forall j: nat :: LastDecides(c, n + 1, j, attr, i, sub) <==>
      j == n || (LastDecides(c, n, j, attr, i, sub) && !c.Decides(n, attr, i, sub))
  {
    hide c.Decides;
  }

  lemma FieldStep(c: Passes, j: nat, attr: string, i: nat, sub: string, v: Json)
    requires c.Valid() && j < c.Length()
    ensures c.Gives(j, attr, i, sub, v) ==> c.Decides(j, attr, i, sub)
    ensures FieldAt(c.State(j + 1), attr, i, sub, v) <==>
      if c.Decides(j, attr, i, sub) then c.Gives(j, attr, i, sub, v) else FieldAt(c.State(j), attr, i, sub, v)
  {
    hide c.State, c.Whole, c.Sub;
    StepAt(c, j, attr);
    if w :| c.Whole(j, attr, w) {
      hide Takes, FieldIn, FieldSet;
      forall s, value ensures !c.Sub(j, attr, s, value) { WholeOrSub(c, j, attr, w, s, value); }
      WholeOrSub(c, j, attr, w, sub, Null);
    } else if s, value :| c.Sub(j, attr, s, value) {
      OneSub(c, j, attr, s, value);
      FieldSetAt(c.registry[attr], At(c.State(j), attr), c.State(j + 1)[attr], s, value, i, sub, v);
    } else {
      hide Takes, FieldIn, FieldSet;
      assert !c.Acts(j, attr);
    }
  }

  lemma OneSub(c: Passes, j: nat, attr: string, sub: string, value: Json)
    requires c.Valid() && c.Sub(j, attr, sub, value)
    ensures forall s, u :: c.Sub(j, attr, s, u) ==> s == sub && u == value
  {
    hide Fits, FitsSub, SourceYields, Unindexed, WellFormed;
    var target :| c.Feeds(j, value, target) && WritesSub(c.registry, value, target, attr, sub);
    StepWrites(c, j, value, target);
    forall s | WritesSub(c.registry, value, target, attr, s) ensures s == sub {
      assert target[|attr| + 1..] == s && target[|attr| + 1..] == sub;
    }
  }

  lemma FieldSetAt(
    attribute: Attribute, before: Option<Json>, after: Json, s: string, value: Json, i: nat, sub: string, v: Json)
    requires FieldSet(attribute, before, after, s, value)
    ensures FieldIn(after, i, sub, v) <==>
      if s == sub && Takes(attribute, value, i) then ForItem(attribute, value, i, v)
      else before.Some? && FieldIn(before.value, i, sub, v)
  {
    if s == sub && Takes(attribute, value, i) {
      assert ForItem(attribute, value, i, if value.Arr? then value.items[i] else value);
    }
  }

  /** The most items that are called for since the attribute was last replaced. */
  ghost predicate MostCalled(c: Passes, n: nat, attr: string, count: nat)
    requires c.Valid()
  {
    && (exists j: nat :: LastWhole(c, n, j, attr) && c.CallsFor(j, attr, count))
    && (forall j: nat, called: nat :: LastWhole(c, n, j, attr) && c.CallsFor(j, attr, called) ==> called <= count)
  }

  /** A list of items is as long as that. */
  lemma {:induction false} CountIff(c: Passes, n: nat, attr: string)
    requires c.Valid() && n <= c.Length() && attr in c.State(n)
    requires attr in c.registry && c.registry[attr].kind.RepeatedStructured?
    ensures c.State(n)[attr].Arr? && MostCalled(c, n, attr, |c.State(n)[attr].items|)
  {
    StateKinds(c, n);
    hide c.State, c.Whole, c.Sub, WellKinded, MostCalled;
    if n == 0 {
      NothingYet(c);
    } else {
      var m := n - 1;
      CountShape(c, n, attr);
      if attr in c.State(m) {
        CountIff(c, m, attr);
      } else {
        NothingActed(c, m, attr);
      }
      CountStep(c, m, attr);
    }
  }

  lemma CountShape(c: Passes, n: nat, attr: string)
    requires c.Valid() && n <= c.Length() && attr in c.State(n) && WellKinded(c.registry, c.State(n))
    requires attr in c.registry && c.registry[attr].kind.RepeatedStructured?
    ensures c.State(n)[attr].Arr?
  {
    hide c.State;
  }

  lemma NothingActed(c: Passes, n: nat, attr: string)
    requires c.Valid() && n <= c.Length() && attr !in c.State(n)
    ensures forall j: nat, called: nat :: j < n ==> !c.CallsFor(j, attr, called)
  {
    AttributesIff(c, n, attr);
    hide c.State, c.Whole, c.Sub;
    forall j: nat, called: nat | j < n ensures !c.CallsFor(j, attr, called) {
      assert !c.Acts(j, attr);
    }
  }

  lemma CountStep(c: Passes, m: nat, attr: string)
    requires c.Valid() && m < c.Length() && attr in c.State(m + 1) && c.State(m + 1)[attr].Arr?
    requires attr in c.registry && c.registry[attr].kind.RepeatedStructured?
    requires
      if attr in c.State(m) then c.State(m)[attr].Arr? && MostCalled(c, m, attr, |c.State(m)[attr].items|)
      else forall j: nat, called: nat :: j < m ==> !c.CallsFor(j, attr, called)
    ensures MostCalled(c, m + 1, attr, |c.State(m + 1)[attr].items|)
  {
    StepAt(c, m, attr);
    hide c.State, c.Whole, c.Sub, MostCalled;
    var after := c.State(m + 1)[attr];
    if w :| c.Whole(m, attr, w) {
      WholeOrSub(c, m, attr, w, "", Null);
      forall s, value ensures !c.Sub(m, attr, s, value) { WholeOrSub(c, m, attr, w, s, value); }
      ReplacedCount(c, m, attr, |after.items|);
    } else if s, value :| c.Sub(m, attr, s, value) {
      OneSub(c, m, attr, s, value);
      assert FieldSet(c.registry[attr], At(c.State(m), attr), after, s, value);
      GrownCount(c, m, attr, At(c.State(m), attr), Reach(value), |after.items|);
    } else {
      assert !c.Acts(m, attr);
      KeptCount(c, m, attr, |after.items|);
    }
  }

  lemma ReplacedCount(c: Passes, m: nat, attr: string, count: nat)
    requires c.Valid() && c.Replaces(m, attr) && forall called: nat :: c.CallsFor(m, attr, called) <==> called == count
    ensures MostCalled(c, m + 1, attr, count)
  {
    LastWholeOneMore(c, m, attr);
    hide c.CallsFor, c.Replaces, LastWhole;
    assert LastWhole(c, m + 1, m, attr) && c.CallsFor(m, attr, count);
  }

  lemma GrownCount(c: Passes, m: nat, attr: string, before: Option<Json>, reach: nat, count: nat)
    requires c.Valid() && !c.Replaces(m, attr)
    requires forall called: nat :: c.CallsFor(m, attr, called) <==> called == reach
    requires
      if before.Some? then before.value.Arr? && MostCalled(c, m, attr, |before.value.items|)
      else forall j: nat, called: nat :: j < m ==> !c.CallsFor(j, attr, called)
    requires
      var earlier := if before.Some? then |before.value.items| else 0;
      count == if earlier < reach then reach else earlier
    ensures MostCalled(c, m + 1, attr, count)
  {
    LastWholeOneMore(c, m, attr);
    assert forall j: nat :: LastWhole(c, m, j, attr) ==> j < m;
    hide c.CallsFor, c.Replaces, LastWhole;
    assert LastWhole(c, m + 1, m, attr) && c.CallsFor(m, attr, reach);
    if count != reach {
      var j: nat :| LastWhole(c, m, j, attr) && c.CallsFor(j, attr, count);
      assert LastWhole(c, m + 1, j, attr);
    }
  }

  lemma KeptCount(c: Passes, m: nat, attr: string, count: nat)
    requires c.Valid() && !c.Acts(m, attr) && MostCalled(c, m, attr, count)
    ensures MostCalled(c, m + 1, attr, count)
  {
    LastWholeOneMore(c, m, attr);
    assert forall called: nat :: !c.CallsFor(m, attr, called);
    hide c.CallsFor, LastWhole, c.Acts;
  }

  // ----- The counters -----

  /** Step `j` is counted as a mismatch: its value fits no attribute, or its source is ill-shaped. */
  ghost predicate RefusedStep(c: Passes, j: nat)
    requires c.Valid()
  {
    || (exists value, target :: c.Feeds(j, value, target) && !(exists attr :: ActsOn(c.registry, value, target, attr)))
    || (|c.order| <= j < c.Length() &&
      var k := c.keys[j - |c.order|];
      k !in c.product && Unindexed(c.mappings[k]) && SourceWrong(c.product, k))
  }

  ghost function RefusedSteps(c: Passes, n: nat): set<nat>
    requires c.Valid()
  {
    set j: nat | j < n && RefusedStep(c, j)
  }

  lemma RefusedOneMore(c: Passes, n: nat)
    requires c.Valid()
    ensures RefusedSteps(c, n + 1) == RefusedSteps(c, n) + (if RefusedStep(c, n) then {n} else {})
    ensures |RefusedSteps(c, n + 1)| == |RefusedSteps(c, n)| + if RefusedStep(c, n) then 1 else 0
  {
  }

  lemma StepAccepted(c: Passes, j: nat, value: Json, target: string)
    requires c.Valid() && j < c.Length() && c.Feeds(j, value, target)
    ensures EntryEffect(c.registry, c.State(j), value, target).1 <==>
      exists attr :: ActsOn(c.registry, value, target, attr)
  {
    hide c.State, EntryEffect, ActsOn;
    StateKinds(c, j);
    EntryIs(c.registry, c.State(j), value, target);
  }

  lemma {:induction false} WholeMismatchesAre(c: Passes, n: nat)
    requires c.Valid() && n <= |c.order|
    ensures forall k :: k in c.order[..n] ==> k in c.product
    ensures WholeMismatches(c.registry, c.product, c.mappings, c.order[..n]) == |RefusedSteps(c, n)|
  {
    hide EntryEffect, ActsOn;
    if n > 0 {
      var m := n - 1;
      var k := c.order[m];
      WholeMismatchesAre(c, m);
      RefusedOneMore(c, m);
      assert c.order[..n][..m] == c.order[..m] && c.order[..n][m] == k;
      if k in c.mappings {
        UnindexedIff(c.mappings[k]);
        if Unindexed(c.mappings[k]) {
          assert c.Feeds(m, c.product[k], c.mappings[k]);
          StepAccepted(c, m, c.product[k], c.mappings[k]);
        }
      }
    }
  }

  lemma {:induction false} SubMismatchesAre(c: Passes, n: nat)
    requires c.Valid() && n <= |c.keys|
    ensures forall k :: k in c.keys[..n] ==> k in c.mappings
    ensures
      var whole := WholePassed(c.registry, c.product, c.mappings, c.order);
      WholeMismatches(c.registry, c.product, c.mappings, c.order)
      + SubMismatches(c.registry, whole, c.product, c.mappings, c.keys[..n]) == |RefusedSteps(c, |c.order| + n)|
  {
    hide SubMismatches, RefusedStep, RefusedSteps, WholePassed, WholeMismatches;
    if n == 0 {
      WholeMismatchesAre(c, |c.order|);
      assert c.order[..|c.order|] == c.order && c.keys[..0] == [];
      NoSubMismatches(c);
    } else {
      SubMismatchesAre(c, n - 1);
      SubMismatchStep(c, n - 1);
      RefusedOneMore(c, |c.order| + n - 1);
    }
  }

  lemma NoSubMismatches(c: Passes)
    requires c.Valid()
    ensures SubMismatches(
      c.registry, WholePassed(c.registry, c.product, c.mappings, c.order), c.product, c.mappings, []) == 0
  {
    hide WholePassed;
  }

  lemma SubMismatchStep(c: Passes, m: nat)
    requires c.Valid() && m < |c.keys|
    ensures forall k :: k in c.keys[..m + 1] ==> k in c.mappings
    ensures
      var whole := WholePassed(c.registry, c.product, c.mappings, c.order);
      SubMismatches(c.registry, whole, c.product, c.mappings, c.keys[..m + 1]) ==
        SubMismatches(c.registry, whole, c.product, c.mappings, c.keys[..m])
        + if RefusedStep(c, |c.order| + m) then 1 else 0
  {
    hide EntryEffect, ActsOn, SubSource, SourceWrong, WholePassed, SourceYields, IsIndexed, Unindexed, SubPassed;
    var k, j, whole := c.keys[m], |c.order| + m, WholePassed(c.registry, c.product, c.mappings, c.order);
    assert c.keys[..m + 1][..m] == c.keys[..m] && c.keys[..m + 1][m] == k;
    var (source, mismatch) := SubSource(c.product, k);
    UnindexedIff(c.mappings[k]);
    SubSourceIs(c.product, k, Null);
    MismatchHasNoSource(c.product, k);
    forall v ensures source == Some(v) <==> SourceYields(c.product, k, v) { SubSourceIs(c.product, k, v); }
    StateInSubs(c, m);
    if k !in c.product && Unindexed(c.mappings[k]) && source.Some? {
      assert c.Feeds(j, source.value, c.mappings[k]);
      StepAccepted(c, j, source.value, c.mappings[k]);
      FedRefused(c, j, source.value, c.mappings[k]);
    }
  }

  lemma StateInSubs(c: Passes, m: nat)
    requires c.Valid() && m <= |c.keys|
    ensures forall k :: k in c.keys[..m] ==> k in c.mappings
    ensures c.State(|c.order| + m) ==
      SubPassed(
        c.registry, WholePassed(c.registry, c.product, c.mappings, c.order), c.product, c.mappings, c.keys[..m])
  {
    hide WholePassed;
    assert c.order[..|c.order|] == c.order && c.keys[..0] == [];
  }

  lemma FedRefused(c: Passes, j: nat, value: Json, target: string)
    requires c.Valid() && c.Feeds(j, value, target)
    requires j >= |c.order| ==> !SourceWrong(c.product, c.keys[j - |c.order|])
    ensures RefusedStep(c, j) <==> !(exists attr :: ActsOn(c.registry, value, target, attr))
  {
    hide ActsOn, SourceWrong, SourceYields, Unindexed;
    forall other, target' | c.Feeds(j, other, target') ensures other == value && target' == target {
      FeedsOnce(c, j, value, target, other, target');
    }
  }

  /** The fields of the product that no entry names, nor any sub-field of which. */
  ghost predicate Unmapped(product: map<string, Json>, mappings: Mappings, k: string) {
    k !in mappings &&
    !(DotFree(k) && exists key :: key in mappings && key !in product && StartsWithDot(key, k))
  }

  ghost predicate StartsWithDot(key: string, parent: string) {
    exists sub :: key == parent + "." + sub
  }

  lemma ParentIff(key: string, parent: string)
    ensures |Split(key)| > 1 && Split(key)[0] == parent <==> DotFree(parent) && StartsWithDot(key, parent)
  {
    hide Split;
    if |Split(key)| > 1 {
      SplitPartsAreDotFree(key);
      HeadAndTail(key);
    }
    if sub :| DotFree(parent) && key == parent + "." + sub { SplitAtDot(parent, sub); }
  }

  lemma HeadAndTail(key: string)
    requires |Split(key)| > 1
    ensures exists sub :: key == Split(key)[0] + "." + sub
  {
    KeyIsJoined(key);
  }

  ghost function UnmappedAt(c: Passes, n: nat): set<nat>
  {
    set i: nat | i < n && i < |c.order| && Unmapped(c.product, c.mappings, c.order[i])
  }

  lemma SubMappedIff(product: map<string, Json>, mappings: Mappings, k: string)
    ensures k in SubMappedParents(product, mappings) <==>
      exists key :: key in mappings && |Split(key)| > 1 && key !in product && Split(key)[0] == k
    ensures forall key :: |Split(key)| > 1 && Split(key)[0] == k <==> DotFree(k) && StartsWithDot(key, k)
  {
    forall key ensures |Split(key)| > 1 && Split(key)[0] == k <==> DotFree(k) && StartsWithDot(key, k) {
      ParentIff(key, k);
    }
    hide Split, StartsWithDot;
  }

  /** Counted as dropped are exactly those. */
  lemma {:induction false} DroppedAre(c: Passes, n: nat)
    requires n <= |c.order|
    ensures Dropped(c.product, c.mappings, c.order[..n]) == |UnmappedAt(c, n)|
  {
    hide Split, StartsWithDot, SubMappedParents;
    if n > 0 {
      var m := n - 1;
      var k := c.order[m];
      DroppedAre(c, m);
      assert c.order[..n][..m] == c.order[..m] && c.order[..n][m] == k;
      SubMappedIff(c.product, c.mappings, k);
      OneMoreCounted(UnmappedAt(c, m), UnmappedAt(c, n), m, Unmapped(c.product, c.mappings, k));
    }
  }

  /** Both passes together: what they leave, and what they count. */
  lemma PassesLeave(c: Passes)
    requires c.Valid()
    ensures
      var whole := WholePassed(c.registry, c.product, c.mappings, c.order);
      var steps: set<nat> := set j: nat | j < c.Length() && RefusedStep(c, j);
      && SubPassed(c.registry, whole, c.product, c.mappings, c.keys) == c.State(c.Length())
      && WholeMismatches(c.registry, c.product, c.mappings, c.order)
        + SubMismatches(c.registry, whole, c.product, c.mappings, c.keys) == |steps|
  {
    hide WholePassed, SubPassed, WholeMismatches, SubMismatches, RefusedStep;
    StateInSubs(c, |c.keys|);
    SubMismatchesAre(c, |c.keys|);
    assert c.keys[..|c.keys|] == c.keys;
    assert RefusedSteps(c, c.Length()) == set j: nat | j < c.Length() && RefusedStep(c, j);
  }

  /** What an attribute holds after both passes. */
  ghost predicate Decided(c: Passes, attr: string, r: Result)
    requires c.Valid()
  {
    var n := c.Length();
    && (attr in r <==> exists j :: 0 <= j < n && c.Acts(j, attr))
    && (attr in c.registry && (c.registry[attr].kind.Scalar? || c.registry[attr].kind.RepeatedScalar?) ==>
      forall w :: At(r, attr) == Some(w) <==> exists j :: LastWhole(c, n, j, attr) && c.Whole(j, attr, w))
    && (forall i: nat, sub, v :: FieldAt(r, attr, i, sub, v) <==>
      exists j :: LastDecides(c, n, j, attr, i, sub) && c.Gives(j, attr, i, sub, v))
    && (attr in r && attr in c.registry ==> RightShape(c.registry[attr], r[attr]))
    && (attr in r && attr in c.registry && c.registry[attr].kind.RepeatedStructured? ==>
      r[attr].Arr? && MostCalled(c, n, attr, |r[attr].items|))
  }

  lemma PassesDecide(c: Passes, attr: string)
    requires c.Valid()
    ensures Decided(c, attr, c.State(c.Length()))
  {
    var n, r := c.Length(), c.State(c.Length());
    StateKinds(c, n);
    AttributesIff(c, n, attr);
    if attr in c.registry { AttributeShape(c.registry, r, attr); }
    if attr in c.registry && (c.registry[attr].kind.Scalar? || c.registry[attr].kind.RepeatedScalar?) {
      forall w ensures At(r, attr) == Some(w) <==> exists j :: LastWhole(c, n, j, attr) && c.Whole(j, attr, w) {
        WholeIff(c, n, attr, w);
      }
    }
    forall i: nat, sub, v ensures FieldAt(r, attr, i, sub, v) <==>
      exists j :: LastDecides(c, n, j, attr, i, sub) && c.Gives(j, attr, i, sub, v)
    {
      FieldIff(c, n, attr, i, sub, v);
    }
    if attr in r && attr in c.registry && c.registry[attr].kind.RepeatedStructured? { CountIff(c, n, attr); }
  }

  // ----- The indexed entries -----

  /** A field by its own name, or its only item; else a sub-field of its parent. */
  ghost predicate IndexedYields(product: map<string, Json>, key: string, v: Json) {
    if key in product then
      if product[key].Arr? && |product[key].items| == 1 then v == product[key].items[0] else v == product[key]
    else SourceYields(product, key, v)
  }

  /** The target names a slot of a repeated attribute, or a sub-field there of one of items. */
  ghost predicate SlotTarget(registry: Registry, target: string, w: Write) {
    var path := Path(w.attr, Some(w.index), w.sub);
    && Spells(target, path) && WellFormed(path) && w.attr in registry
    && (registry[w.attr].kind.RepeatedStructured? || (registry[w.attr].kind.RepeatedScalar? && w.sub.None?))
  }

  /** An indexed entry writes a string to a slot exactly when its source yields that string and its
      target names the slot. */
  lemma IndexedWriteIff(registry: Registry, product: map<string, Json>, mappings: Mappings, key: string, w: Write)
    requires key in mappings && IsIndexed(mappings[key])
    ensures IndexedWrite(registry, product, mappings, key) == Some(w) <==>
      IndexedYields(product, key, Str(w.text)) && SlotTarget(registry, mappings[key], w)
  {
    hide Parse, SubSource, SourceYields, SourceWrong, Spells;
    ParseIff(mappings[key], Path(w.attr, Some(w.index), w.sub));
    SubSourceIs(product, key, Str(w.text));
    MismatchHasNoSource(product, key);
  }

  /** The slot holds a string where an item is needed. */
  ghost predicate Occupied(r: Result, w: Write) {
    w.sub.Some? && 1 <= w.index <= |Items(r, w.attr)| && !Items(r, w.attr)[w.index - 1].Obj?
  }

  /** The entry is counted as a mismatch: its source is ill-shaped, yields no string for a slot of
      its target, or finds the slot occupied. */
  ghost predicate SlotRefused(registry: Registry, r: Result, product: map<string, Json>, key: string, target: string) {
    || (key !in product && SourceWrong(product, key))
    || (exists v :: IndexedYields(product, key, v) && NoneFree(registry, r, v, target))
  }

  ghost predicate NoneFree(registry: Registry, r: Result, value: Json, target: string) {
    forall w: Write :: StringFor(registry, value, target, w) ==> Occupied(r, w)
  }

  ghost predicate StringFor(registry: Registry, value: Json, target: string, w: Write) {
    value == Str(w.text) && SlotTarget(registry, target, w)
  }

  lemma IndexedSourceIs(product: map<string, Json>, key: string)
    ensures forall v :: IndexedSource(product, key).0 == Some(v) <==> IndexedYields(product, key, v)
    ensures IndexedSource(product, key).1 <==> key !in product && SourceWrong(product, key)
    ensures IndexedSource(product, key).1 ==> IndexedSource(product, key).0.None?
  {
    hide SubSource, SourceYields, SourceWrong;
    SubSourceIs(product, key, Null);
    MismatchHasNoSource(product, key);
    forall v ensures SubSource(product, key).0 == Some(v) <==> SourceYields(product, key, v) {
      SubSourceIs(product, key, v);
    }
  }

  lemma SlotRefusedIff(
    registry: Registry, r: Result, product: map<string, Json>, mappings: Mappings, key: string)
    requires key in mappings && IsIndexed(mappings[key])
    ensures SourceMismatch(registry, r, IndexedSource(product, key), mappings[key]) ==
      if SlotRefused(registry, r, product, key, mappings[key]) then 1 else 0
  {
    var target := mappings[key];
    IndexedSourceIs(product, key);
    hide IndexedSource, IndexedYields, SourceWrong, EntryEffect, NoneFree;
    var (source, mismatch) := IndexedSource(product, key);
    if source.Some? {
      assert IndexedYields(product, key, source.value);
      SlotTaken(registry, r, source.value, target);
    }
  }

  /** An indexed entry is taken exactly when its value is a string for a slot that is not occupied. */
  lemma SlotTaken(registry: Registry, r: Result, value: Json, target: string)
    requires IsIndexed(target)
    ensures EntryEffect(registry, r, value, target).1 <==> !NoneFree(registry, r, value, target)
  {
    hide Parse, Spells;
    var p := Parse(target).value;
    ParsedIsWellFormed(target);
    forall path ensures Parse(target) == Some(path) <==> Spells(target, path) && WellFormed(path) {
      ParseIff(target, path);
    }
    if value.Str? {
      var w := Write(p.attr, p.index.value, p.sub, value.text);
      assert Path(w.attr, Some(w.index), w.sub) == p;
      assert StringFor(registry, value, target, w) <==> WriteFor(registry, value, p) == Some(w);
      forall u: Write | StringFor(registry, value, target, u) ensures u == w {
        assert Parse(target) == Some(Path(u.attr, Some(u.index), u.sub));
      }
    }
  }

  lemma {:induction false} IndexedMismatchesAre(
    registry: Registry, r: Result, product: map<string, Json>, mappings: Mappings, keys: seq<string>)
    requires forall k :: k in keys ==> k in mappings && IsIndexed(mappings[k])
    ensures IndexedMismatches(registry, r, product, mappings, keys) ==
      |RefusedSlots(registry, r, product, mappings, keys, |keys|)|
  {
    hide IndexedWrites, SetAll, SourceMismatch, SlotRefused, IndexedSource;
    NoWrites(registry, product, mappings, r);
    if keys != [] {
      var n := |keys| - 1;
      var rest := keys[..n];
      assert keys == rest + [keys[n]];
      IndexedMismatchesAre(registry, r, product, mappings, rest);
      WriteIndicesPositive(registry, product, mappings, rest);
      var before := SetAll(r, IndexedWrites(registry, product, mappings, rest));
      SlotRefusedIff(registry, before, product, mappings, keys[n]);
      hide RefusedSlots;
      RefusedSlotsOneMore(registry, r, product, mappings, keys);
    }
  }

  lemma SameBefore(
    registry: Registry, r: Result, product: map<string, Json>, mappings: Mappings, keys: seq<string>, n: nat, i: nat)
    requires i < n <= |keys| && forall k :: k in keys ==> k in mappings && IsIndexed(mappings[k])
    ensures forall k :: k in keys[..n] ==> k in keys
    ensures SlotRefusedAt(registry, r, product, mappings, keys, i) ==
      SlotRefusedAt(registry, r, product, mappings, keys[..n], i)
  {
    hide SlotRefused, SetAll, IndexedWrites, IsIndexed;
    assert keys[i] == keys[..n][i] && keys[..i] == keys[..n][..i];
  }

  lemma RefusedSlotsOneMore(
    registry: Registry, r: Result, product: map<string, Json>, mappings: Mappings, keys: seq<string>)
    requires keys != [] && forall k :: k in keys ==> k in mappings && IsIndexed(mappings[k])
    ensures forall k :: k in keys[..|keys| - 1] ==> k in keys
    ensures
      var n := |keys| - 1;
      |RefusedSlots(registry, r, product, mappings, keys, n + 1)| ==
        |RefusedSlots(registry, r, product, mappings, keys[..n], n)|
        + if SlotRefusedAt(registry, r, product, mappings, keys, n) then 1 else 0
  {
    hide SlotRefusedAt, IsIndexed;
    var n := |keys| - 1;
    var rest := keys[..n];
    forall i: nat | i < n
      ensures SlotRefusedAt(registry, r, product, mappings, keys, i) ==
        SlotRefusedAt(registry, r, product, mappings, rest, i)
    {
      SameBefore(registry, r, product, mappings, keys, n, i);
    }
    var after := RefusedSlots(registry, r, product, mappings, keys, n + 1);
    var before := RefusedSlots(registry, r, product, mappings, rest, n);
    var last := SlotRefusedAt(registry, r, product, mappings, keys, n);
    OneMoreNumber(before, after, n, last);
  }

  lemma OneMoreNumber(before: set<nat>, after: set<nat>, n: nat, last: bool)
    requires forall i: nat :: i in after <==> i in before || (i == n && last)
    requires n !in before
    ensures |after| == |before| + if last then 1 else 0
  {
    assert after == before + if last then {n} else {};
  }

  /** The entries that are refused where they come in the order of the targets. */
  ghost function RefusedSlots(
    registry: Registry, r: Result, product: map<string, Json>, mappings: Mappings, keys: seq<string>, n: nat): set<nat>
    requires forall k :: k in keys ==> k in mappings && IsIndexed(mappings[k])
    requires n <= |keys|
  {
    set i: nat | i < n && SlotRefusedAt(registry, r, product, mappings, keys, i)
  }

  ghost predicate SlotRefusedAt(
    registry: Registry, r: Result, product: map<string, Json>, mappings: Mappings, keys: seq<string>, i: nat)
    requires forall k :: k in keys ==> k in mappings && IsIndexed(mappings[k])
    requires i < |keys|
  {
    assert forall k :: k in keys[..i] ==> k in keys;
    WriteIndicesPositive(registry, product, mappings, keys[..i]);
    SlotRefused(
      registry, SetAll(r, IndexedWrites(registry, product, mappings, keys[..i])), product, keys[i], mappings[keys[i]])
  }
}
