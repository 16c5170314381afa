/** What a chain of plugins comes to, told from the answers of the plugins alone. */
module ChainTraces {
  import opened Hashing
  import opened Delta
  import opened Persistence
  import opened Steps
  import opened IncrementalRuns
  import opened Wrappers

  // ----- The prepared states -----

  ghost predicate Prepares(instance: Instance, registry: Registry) {
    instance.plugin in registry && registry[instance.plugin].prepare.Some?
  }

  /** What the preparation of an instance gives. */
  ghost predicate Gives(instance: Instance, registry: Registry, state: Option<Json>) {
    Prepares(instance, registry) && registry[instance.plugin].prepare.value(instance.config, instance.data) == state
  }

  ghost predicate LastGivesAt(
    instances: seq<Instance>, registry: Registry, position: Json, state: Json, i: nat)
  {
    i < |instances| && instances[i].position == position && Gives(instances[i], registry, Some(state))
    && forall j :: i < j < |instances| && instances[j].position == position ==> !Prepares(instances[j], registry)
  }

  /** The last instance at a position that prepares one gave this state. */
  ghost predicate LastGives(instances: seq<Instance>, registry: Registry, position: Json, state: Json) {
    exists i :: LastGivesAt(instances, registry, position, state, i)
  }

  /** No preparation raises, and exactly the last state given at each position is kept. */
  ghost predicate PreparedAs(instances: seq<Instance>, registry: Registry, states: States) {
    && (forall i :: 0 <= i < |instances| ==> !Gives(instances[i], registry, None))
    && (forall position, state ::
      At(states, position) == Some(state) <==> LastGives(instances, registry, position, state))
  }

  lemma LastGivesEarlier(
    instances: seq<Instance>, last: Instance, registry: Registry, position: Json, state: Json, i: nat)
    requires i < |instances|
    ensures LastGivesAt(instances + [last], registry, position, state, i) <==>
      LastGivesAt(instances, registry, position, state, i) && !(last.position == position && Prepares(last, registry))
  {
    hide Gives, Prepares;
    var longer, n := instances + [last], |instances|;
    assert longer[n] == last && forall j :: 0 <= j < n ==> longer[j] == instances[j];
    if LastGivesAt(longer, registry, position, state, i) {
      forall j | i < j < n && instances[j].position == position ensures !Prepares(instances[j], registry) {
        assert longer[j] == instances[j];
      }
    }
  }

  lemma LastGivesOneMore(instances: seq<Instance>, last: Instance, registry: Registry, position: Json, state: Json)
    ensures LastGives(instances + [last], registry, position, state) <==>
      if last.position == position && Prepares(last, registry) then Gives(last, registry, Some(state))
      else LastGives(instances, registry, position, state)
  {
    var longer, n := instances + [last], |instances|;
    GivesPrepares(last, registry, state);
    assert LastGivesAt(longer, registry, position, state, n) <==>
      last.position == position && Gives(last, registry, Some(state));
    hide LastGivesAt, Gives, Prepares;
    forall i: nat | i < n
      ensures LastGivesAt(longer, registry, position, state, i) <==>
        LastGivesAt(instances, registry, position, state, i) && !(last.position == position && Prepares(last, registry))
    {
      LastGivesEarlier(instances, last, registry, position, state, i);
    }
    forall i: nat | i > n ensures !LastGivesAt(longer, registry, position, state, i) {
      NotBeyond(longer, registry, position, state, i);
    }
    forall i: nat | i >= n ensures !LastGivesAt(instances, registry, position, state, i) {
      NotBeyond(instances, registry, position, state, i);
    }
  }

  lemma NotBeyond(instances: seq<Instance>, registry: Registry, position: Json, state: Json, i: nat)
    requires i >= |instances|
    ensures !LastGivesAt(instances, registry, position, state, i)
  {
  }

  lemma GivesPrepares(instance: Instance, registry: Registry, state: Json)
    ensures Gives(instance, registry, Some(state)) ==> Prepares(instance, registry)
  {
  }

  lemma {:induction false} PreparedAreLast(instances: seq<Instance>, registry: Registry)
    ensures Prepared(instances, registry).Some? ==>
      PreparedAs(instances, registry, Prepared(instances, registry).value)
    ensures Prepared(instances, registry).None? <==>
      exists i :: 0 <= i < |instances| && Gives(instances[i], registry, None)
  {
    if instances == [] {
    } else {
      hide LastGives;
      var rest, last := instances[..|instances| - 1], instances[|instances| - 1];
      assert instances == rest + [last];
      PreparedAreLast(rest, registry);
      forall position, state
        ensures LastGives(instances, registry, position, state) <==>
          if last.position == position && Prepares(last, registry) then Gives(last, registry, Some(state))
          else LastGives(rest, registry, position, state)
      {
        LastGivesOneMore(rest, last, registry, position, state);
      }
      assert forall i :: 0 <= i < |rest| ==> rest[i] == instances[i];
      if Gives(last, registry, None) { assert Gives(instances[|rest|], registry, None); }
    }
  }

  /** The states of a run: those the preparations gave, or none when one of them raises. */
  lemma PreparedIff(instances: seq<Instance>, registry: Registry, states: States)
    ensures Prepared(instances, registry) == Some(states) <==> PreparedAs(instances, registry, states)
    ensures Prepared(instances, registry).None? <==>
      exists i :: 0 <= i < |instances| && Gives(instances[i], registry, None)
  {
    hide LastGives, Prepared;
    PreparedAreLast(instances, registry);
    if PreparedAs(instances, registry, states) && Prepared(instances, registry).Some? {
      var given := Prepared(instances, registry).value;
      forall position ensures At(states, position) == At(given, position) {
        if At(states, position).Some? { assert LastGives(instances, registry, position, states[position]); }
        if At(given, position).Some? { assert LastGives(instances, registry, position, given[position]); }
      }
      SameAt(states, given);
    }
  }

  lemma SameAt<K, V>(a: map<K, V>, b: map<K, V>)
    requires forall k :: At(a, k) == At(b, k)
    ensures a == b
  {
    forall k ensures k in a <==> k in b { assert At(a, k) == At(b, k); }
    forall k | k in a ensures a[k] == b[k] { assert At(a, k) == At(b, k); }
  }

  // ----- Traces -----

  /** The answer of an instance to a product; an instance without its plugin gives none. */
  ghost predicate Answers(
    instance: Instance, registry: Registry, states: States, original: Json, current: Json, answer: Hook)
  {
    && instance.plugin in registry
    && registry[instance.plugin].process(
      current, instance.config, instance.data, original, At(states, instance.position)) == answer
  }

  /** Products handed on from instance to instance, the first one as it was queued: each installed
      plugin returned the next one. */
  ghost predicate Trace(instances: seq<Instance>, registry: Registry, states: States, original: Json, cs: seq<Json>) {
    && 1 <= |cs| <= |instances| + 1 && cs[0] == original
    && forall i :: 0 <= i < |cs| - 1 ==> HandedOn(instances[i], registry, states, original, cs[i], cs[i + 1])
  }

  ghost predicate HandedOn(
    instance: Instance, registry: Registry, states: States, original: Json, current: Json, next: Json)
  {
    if instance.plugin in registry then Answers(instance, registry, states, original, current, Returned(next))
    else next == current
  }

  /** All instances handed on, and the last product is `q`. */
  ghost predicate Delivered(instances: seq<Instance>, registry: Registry, states: States, original: Json, q: Json) {
    exists cs :: Trace(instances, registry, states, original, cs) && |cs| == |instances| + 1 && cs[|cs| - 1] == q
  }

  /** The instances before one of this plugin handed on, and it gave the answer. */
  ghost predicate Stopped(
    instances: seq<Instance>, registry: Registry, states: States, original: Json, plugin: string, answer: Hook)
  {
    exists cs :: Trace(instances, registry, states, original, cs) && |cs| <= |instances|
      && instances[|cs| - 1].plugin == plugin
      && Answers(instances[|cs| - 1], registry, states, original, cs[|cs| - 1], answer)
  }

  lemma {:induction false} TraceFollows(
    instances: seq<Instance>, registry: Registry, states: States, original: Json, cs: seq<Json>, k: nat)
    requires Trace(instances, registry, states, original, cs) && k < |cs|
    ensures Chain(original, original, instances, registry, states) ==
      Chain(cs[k], original, instances[k..], registry, states)
  {
    if k == 0 {
      assert instances[0..] == instances;
    } else {
      TraceFollows(instances, registry, states, original, cs, k - 1);
      assert HandedOn(instances[k - 1], registry, states, original, cs[k - 1], cs[k]);
      assert instances[k - 1..][0] == instances[k - 1] && instances[k - 1..][1..] == instances[k..];
    }
  }

  /** Some trace goes through, or to an instance that drops or raises. */
  lemma SomeTrace(instances: seq<Instance>, registry: Registry, states: States, original: Json)
    returns (cs: seq<Json>)
    ensures Trace(instances, registry, states, original, cs)
    ensures |cs| <= |instances| ==>
      var last, current := instances[|cs| - 1], cs[|cs| - 1];
      || Answers(last, registry, states, original, current, DroppedProduct)
      || Answers(last, registry, states, original, current, RaisedError)
  {
    cs := [original];
    while |cs| <= |instances|
      invariant Trace(instances, registry, states, original, cs)
      decreases |instances| + 1 - |cs|
    {
      var instance, current := instances[|cs| - 1], cs[|cs| - 1];
      var next := current;
      if instance.plugin in registry {
        match registry[instance.plugin].process(
          current, instance.config, instance.data, original, At(states, instance.position)) {
          case RaisedError => return;
          case DroppedProduct => return;
          case Returned(q) => next := q;
        }
      }
      assert HandedOn(instance, registry, states, original, current, next);
      ghost var longer := cs + [next];
      forall i | 0 <= i < |longer| - 1
        ensures HandedOn(instances[i], registry, states, original, longer[i], longer[i + 1])
      {
        if i < |cs| - 1 { assert HandedOn(instances[i], registry, states, original, cs[i], cs[i + 1]); }
      }
      cs := longer;
    }
  }

  /** Chains end as their traces do. */
  lemma ChainIff(instances: seq<Instance>, registry: Registry, states: States, original: Json, q: Json, plugin: string)
    ensures
      var result := Chain(original, original, instances, registry, states);
      && (result == Survives(q) <==> Delivered(instances, registry, states, original, q))
      && (result == Drops(plugin) <==> Stopped(instances, registry, states, original, plugin, DroppedProduct))
      && (result.Fails? <==> exists p :: Stopped(instances, registry, states, original, p, RaisedError))
  {
    var result := Chain(original, original, instances, registry, states);
    var cs := SomeTrace(instances, registry, states, original);
    TraceEnds(instances, registry, states, original, cs);
    hide Trace, Chain, Answers;
    assert 1 <= |cs| <= |instances| + 1 by { TraceBounds(instances, registry, states, original, cs); }
    forall ds | Trace(instances, registry, states, original, ds)
      ensures Ends(instances, registry, states, original, ds)
    {
      TraceEnds(instances, registry, states, original, ds);
    }
    if |cs| <= |instances| && Answers(instances[|cs| - 1], registry, states, original, cs[|cs| - 1], RaisedError) {
      assert Stopped(instances, registry, states, original, instances[|cs| - 1].plugin, RaisedError);
    }
  }

  lemma TraceBounds(instances: seq<Instance>, registry: Registry, states: States, original: Json, cs: seq<Json>)
    requires Trace(instances, registry, states, original, cs)
    ensures 1 <= |cs| <= |instances| + 1
  {
  }

  ghost predicate Ends(instances: seq<Instance>, registry: Registry, states: States, original: Json, cs: seq<Json>)
    requires Trace(instances, registry, states, original, cs)
  {
    var result, end := Chain(original, original, instances, registry, states), cs[|cs| - 1];
    if |cs| == |instances| + 1 then result == Survives(end)
    else
      var last := instances[|cs| - 1];
      && (Answers(last, registry, states, original, end, DroppedProduct) ==> result == Drops(last.plugin))
      && (Answers(last, registry, states, original, end, RaisedError) ==> result.Fails?)
  }

  lemma TraceEnds(instances: seq<Instance>, registry: Registry, states: States, original: Json, cs: seq<Json>)
    requires Trace(instances, registry, states, original, cs)
    ensures Ends(instances, registry, states, original, cs)
  {
    TraceFollows(instances, registry, states, original, cs, |cs| - 1);
  }

  // ----- What the step passes on, records and counts -----

  ghost predicate HasRowId(p: Json, pks: map<string, nat>, pk: nat) {
    p.Obj? && "id" in p.fields && p.fields["id"].Str? && At(pks, p.fields["id"].text) == Some(pk)
  }

  /** The outcome, if any, that is recorded for a product with a row. */
  ghost predicate Records(p: Json, pks: map<string, nat>, final: Option<Json>, recorded: seq<PluginOutcome>) {
    && (forall pk: nat :: HasRowId(p, pks, pk) ==> recorded == [PluginOutcome(pk, final)])
    && ((forall pk: nat :: !HasRowId(p, pks, pk)) ==> recorded == [])
  }

  /** One more product adds what the answers to it come to: a survivor and its outcome, a logged
      drop and its outcome, or an error and nothing else. */
  lemma StepOneMore(
    products: seq<Json>, p: Json, pks: map<string, nat>, config: Config, registry: Registry, states: States, q: Json,
    plugin: string)
    requires PreparedAs(config.instances, registry, states)
    ensures Survivors([], config, registry) == [] && Outcomes([], pks, config, registry) == []
    ensures DroppedBy([], config, registry) == [] && Endings([], config, registry) == (0, 0)
    ensures
      var survivors, after := Survivors(products, config, registry), Survivors(products + [p], config, registry);
      var log, logAfter := DroppedBy(products, config, registry), DroppedBy(products + [p], config, registry);
      var outcomes := Outcomes(products, pks, config, registry);
      var outcomesAfter := Outcomes(products + [p], pks, config, registry);
      var (dropped, errored) := Endings(products, config, registry);
      var endings := Endings(products + [p], config, registry);
      && outcomes <= outcomesAfter
      && var recorded := outcomesAfter[|outcomes|..];
      && (Delivered(config.instances, registry, states, p, q) ==>
        && after == survivors + [q] && logAfter == log && endings == (dropped, errored)
        && Records(p, pks, Some(q), recorded))
      && (Stopped(config.instances, registry, states, p, plugin, DroppedProduct) ==>
        && after == survivors && endings == (dropped + 1, errored) && Records(p, pks, None, recorded)
        && logAfter == log + [Dropped(if p.Obj? then At(p.fields, "id") else None, plugin)])
      && (Stopped(config.instances, registry, states, p, plugin, RaisedError) ==>
        && after == survivors && logAfter == log && endings == (dropped, errored + 1) && recorded == [])
  {
    PreparedIff(config.instances, registry, states);
    ChainIff(config.instances, registry, states, p, q, plugin);
    RowIds(p, pks);
    StepUnrolled(products, p, pks, config, registry);
    NoSteps(pks, config, registry);
    hide Prepared, PreparedAs, Delivered, Stopped, Survivors, Outcomes, DroppedBy, Endings, PkOf, HasRowId, Chain;
    var outcomes, after := Outcomes(products, pks, config, registry), Outcomes(products + [p], pks, config, registry);
    assert after[|outcomes|..] == OutcomesOf(p, pks, config, registry);
  }

  lemma NoSteps(pks: map<string, nat>, config: Config, registry: Registry)
    ensures Survivors([], config, registry) == [] && Outcomes([], pks, config, registry) == []
    ensures DroppedBy([], config, registry) == [] && Endings([], config, registry) == (0, 0)
  {
  }

  function OutcomesOf(p: Json, pks: map<string, nat>, config: Config, registry: Registry): seq<PluginOutcome> {
    var pk := PkOf(p, pks);
    var outcome := if pk.Some? then OutcomeOf(Processed(p, config, registry), pk.value) else None;
    if outcome.Some? then [outcome.value] else []
  }

  lemma StepUnrolled(products: seq<Json>, p: Json, pks: map<string, nat>, config: Config, registry: Registry)
    ensures
      var result, all := Processed(p, config, registry), products + [p];
      var (dropped, errored) := Endings(products, config, registry);
      && Outcomes(all, pks, config, registry) ==
        Outcomes(products, pks, config, registry) + OutcomesOf(p, pks, config, registry)
      && Survivors(all, config, registry) ==
        Survivors(products, config, registry) + (if result.Survives? then [result.product] else [])
      && DroppedBy(all, config, registry) ==
        DroppedBy(products, config, registry) + (if result.Drops? then [Dropped(IdOf(p), result.plugin)] else [])
      && Endings(all, config, registry) ==
        (dropped + (if result.Drops? then 1 else 0), errored + (if result.Fails? then 1 else 0))
  {
    hide Processed, PkOf, OutcomeOf, IdOf;
    assert (products + [p])[..|products|] == products;
  }

  lemma RowIds(p: Json, pks: map<string, nat>)
    ensures forall pk: nat :: HasRowId(p, pks, pk) <==> PkOf(p, pks) == Some(pk)
  {
  }

  // ----- The row a run leaves -----

  /** New, changed or back after it was removed. */
  ghost predicate Queued(before: Rows, feed: int, product: Json, config: Config, k: Key) {
    k in before ==>
      || before[k].status != Active
      || before[k].contentHash != ContentHash(product) || before[k].configHash != ConfigHash(config)
  }

  /** The outcome that a row had before a run. */
  function EarlierOutcome(before: Rows, k: Key): (Option<Json>, bool) {
    if k in before then (before[k].processed, before[k].excluded) else (None, false)
  }

  /** The row of a queued product after a run shows what the answers of the plugins come to: the
      last product handed on is kept and exported, a drop excludes it, and an error leaves the
      outcome as it was. One of these always applies. */
  lemma RunRowIsTraced(
    before: Rows, after: Rows, feed: int, products: seq<Json>, config: Config, registry: Registry, now: int, id: string,
    states: States, q: Json, plugin: string)
    requires Ran(before, after, feed, products, config, registry, now) && id in FirstById(products)
    requires Queued(before, feed, FirstById(products)[id], config, Key(feed, id))
    requires PreparedAs(config.instances, registry, states)
    ensures Key(feed, id) in after && after[Key(feed, id)].status == Active
    ensures
      var r, p, instances := after[Key(feed, id)], FirstById(products)[id], config.instances;
      && (Delivered(instances, registry, states, p, q) ==>
        r.processed == Some(q) && !r.excluded && At(ExportMap(after, feed), id) == Some(q))
      && (Stopped(instances, registry, states, p, plugin, DroppedProduct) ==>
        r.processed == None && r.excluded && At(ExportMap(after, feed), id) == None)
      && (Stopped(instances, registry, states, p, plugin, RaisedError) ==>
        (r.processed, r.excluded) == EarlierOutcome(before, Key(feed, id)))
      && ((exists c :: Delivered(instances, registry, states, p, c))
        || (exists k :: Stopped(instances, registry, states, p, k, DroppedProduct))
        || (exists k :: Stopped(instances, registry, states, p, k, RaisedError)))
  {
    hide Ran, ConfigHash, ContentHash, FirstById, Chain, Prepared, Delivered, Stopped, PreparedAs;
    var p := FirstById(products)[id];
    PreparedIff(config.instances, registry, states);
    ChainIff(config.instances, registry, states, p, q, plugin);
    RunAtKey(before, after, feed, products, config, registry, now, Key(feed, id));
    var result := Chain(p, p, config.instances, registry, states);
    match result
    case Survives(c) => ChainIff(config.instances, registry, states, p, c, plugin);
    case Drops(k) => ChainIff(config.instances, registry, states, p, q, k);
    case Fails =>
  }

  /** A preparation that raises leaves every outcome as it was. */
  lemma UnpreparedRunKeepsOutcomes(
    before: Rows, after: Rows, feed: int, products: seq<Json>, config: Config, registry: Registry, now: int, id: string,
    i: nat)
    requires Ran(before, after, feed, products, config, registry, now) && id in FirstById(products)
    requires i < |config.instances| && Gives(config.instances[i], registry, None)
    ensures Key(feed, id) in after
    ensures
      (after[Key(feed, id)].processed, after[Key(feed, id)].excluded) == EarlierOutcome(before, Key(feed, id))
  {
    hide Ran, ConfigHash, ContentHash, FirstById, Chain, Prepared, Gives;
    PreparedIff(config.instances, registry, map[]);
    RunAtKey(before, after, feed, products, config, registry, now, Key(feed, id));
  }
}
