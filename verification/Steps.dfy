/** The staging and plugin steps of a pipeline run, and the run they make together. */
module Steps {
  import opened Hashing
  import opened Delta
  import opened Persistence
  import opened StagingTable
  import opened StagingProofs
  import opened Wrappers

  /** How one plugin call ends. A timeout is an exception like any other. */
  datatype Hook = Returned(product: Json) | DroppedProduct | RaisedError

  /** `prepare`, if any, makes the state of a run from configuration and data; None when it raises.
      `process` sees the current product, its configuration and data, the product as enqueued, and
      the state. */
  datatype Plugin = Plugin(
    prepare: Option<(Json, Json) -> Option<Json>>,
    process: (Json, Json, Json, Json, Option<Json>) -> Hook)

  type Registry = map<string, Plugin>

  datatype Instance = Instance(position: Json, plugin: string, version: string, own: Json, config: Json, data: Json)

  /** The resolved bundle of a feed source, and the AI rule settings hashed with it. */
  datatype Config = Config(pipeline: Json, instances: seq<Instance>, aiRules: Option<Json>)

  function InstanceJson(i: Instance): Json {
    Obj(map[
      "position" := i.position,
      "plugin" := Str(i.plugin),
      "plugin_version" := Str(i.version),
      "instance_config" := i.own,
      "resolved_config" := i.config,
      "resolved_data" := i.data])
  }

  function HashInput(config: Config): Json {
    var bundle := map[
      "pipeline" := config.pipeline,
      "instances" := Arr(
        seq(|config.instances|, i requires 0 <= i < |config.instances| => InstanceJson(config.instances[i])))];
    Obj(if config.aiRules.Some? then bundle["ai_rules" := config.aiRules.value] else bundle)
  }

  function ConfigHash(config: Config): Digest {
    ContentHash(HashInput(config))
  }

  lemma SameInstance(a: Instance, b: Instance)
    requires InstanceJson(a) == InstanceJson(b)
    ensures a == b
  {
    var x, y := InstanceJson(a).fields, InstanceJson(b).fields;
    assert x["position"] == y["position"] && x["plugin"] == y["plugin"];
    assert x["plugin_version"] == y["plugin_version"] && x["instance_config"] == y["instance_config"];
    assert x["resolved_config"] == y["resolved_config"] && x["resolved_data"] == y["resolved_data"];
  }

  /** Two configurations without derived keys hash alike only if they are the same. */
  lemma ConfigHashFixesChain(c: Config, d: Config)
    requires Plain(HashInput(c)) && Plain(HashInput(d)) && ConfigHash(c) == ConfigHash(d)
    ensures c.instances == d.instances && c == d
  {
    hide InstanceJson, Plain;
    HashIdentifiesPlainValues(HashInput(c), HashInput(d));
    var x, y := HashInput(c).fields, HashInput(d).fields;
    var cs, ds := x["instances"].items, y["instances"].items;
    assert |c.instances| == |cs| == |ds| == |d.instances|;
    forall i | 0 <= i < |cs| ensures c.instances[i] == d.instances[i] {
      assert cs[i] == InstanceJson(c.instances[i]) && ds[i] == InstanceJson(d.instances[i]);
      SameInstance(c.instances[i], d.instances[i]);
    }
    assert x["pipeline"] == y["pipeline"] && ("ai_rules" in x <==> "ai_rules" in y);
    if c.aiRules.Some? { assert x["ai_rules"] == y["ai_rules"]; }
  }

  // ----- The plugin chain -----

  /** What the plugins prepared for this run, by the position of the instance. */
  type States = map<Json, Json>

  /** None when some preparation raises. */
  function Prepared(instances: seq<Instance>, registry: Registry): Option<States> {
    if instances == [] then Some(map[])
    else
      var before, last := Prepared(instances[..|instances| - 1], registry), instances[|instances| - 1];
      if before.None? || last.plugin !in registry || registry[last.plugin].prepare.None? then before
      else
        var state := registry[last.plugin].prepare.value(last.config, last.data);
        if state.None? then None else Some(before.value[last.position := state.value])
  }

  datatype ChainResult = Survives(product: Json) | Drops(plugin: string) | Fails

  function Chain(
    current: Json, original: Json, instances: seq<Instance>, registry: Registry, states: States): ChainResult
    decreases |instances|
  {
    if instances == [] then Survives(current)
    else
      var first, rest := instances[0], instances[1..];
      if first.plugin !in registry then Chain(current, original, rest, registry, states)
      else
        match registry[first.plugin].process(current, first.config, first.data, original, At(states, first.position))
        case RaisedError => Fails
        case DroppedProduct => Drops(first.plugin)
        case Returned(next) => Chain(next, original, rest, registry, states)
  }

  /** What comes of a product in a run. A failing preparation fails the run before any product. */
  function Processed(product: Json, config: Config, registry: Registry): ChainResult {
    var states := Prepared(config.instances, registry);
    if states.None? then Fails else Chain(product, product, config.instances, registry, states.value)
  }

  /** The outcome a chain leaves for a row: none at all after an error. */
  function OutcomeOf(result: ChainResult, pk: nat): Option<PluginOutcome> {
    match result
    case Survives(p) => Some(PluginOutcome(pk, Some(p)))
    case Drops(_) => Some(PluginOutcome(pk, None))
    case Fails => None
  }

  function PkOf(product: Json, pks: map<string, nat>): Option<nat> {
    if product.Obj? && "id" in product.fields && product.fields["id"].Str? then At(pks, product.fields["id"].text)
    else None
  }

  function Outcomes(
    products: seq<Json>, pks: map<string, nat>, config: Config, registry: Registry): seq<PluginOutcome>
  {
    if products == [] then []
    else
      var product := products[|products| - 1];
      var pk := PkOf(product, pks);
      var outcome := if pk.Some? then OutcomeOf(Processed(product, config, registry), pk.value) else None;
      Outcomes(products[..|products| - 1], pks, config, registry) + (if outcome.Some? then [outcome.value] else [])
  }

  function IdOf(product: Json): Option<Json> {
    if product.Obj? then At(product.fields, "id") else None
  }

  /** The log of dropped products, and the plugins that dropped them. */
  function DroppedBy(products: seq<Json>, config: Config, registry: Registry): seq<Dropped> {
    if products == [] then []
    else
      var product := products[|products| - 1];
      var result := Processed(product, config, registry);
      DroppedBy(products[..|products| - 1], config, registry) +
      (if result.Drops? then [Dropped(IdOf(product), result.plugin)] else [])
  }

  function Survivors(products: seq<Json>, config: Config, registry: Registry): seq<Json> {
    if products == [] then []
    else
      var result := Processed(products[|products| - 1], config, registry);
      Survivors(products[..|products| - 1], config, registry) + (if result.Survives? then [result.product] else [])
  }

  /** How many chains end in a drop, and how many in an error. */
  function Endings(products: seq<Json>, config: Config, registry: Registry): (nat, nat) {
    if products == [] then (0, 0)
    else
      var (dropped, errored) := Endings(products[..|products| - 1], config, registry);
      match Processed(products[|products| - 1], config, registry)
      case Survives(_) => (dropped, errored)
      case Drops(_) => (dropped + 1, errored)
      case Fails => (dropped, errored + 1)
  }

  method PrepareRun(instances: seq<Instance>, registry: Registry) returns (states: Option<States>)
    ensures states == Prepared(instances, registry)
  {
    var prepared: States := map[];
    for i := 0 to |instances|
      invariant Prepared(instances[..i], registry) == Some(prepared)
    {
      var instance := instances[i];
      assert instances[..i + 1][..i] == instances[..i];
      if instance.plugin !in registry || registry[instance.plugin].prepare.None? { continue; }
      var state := registry[instance.plugin].prepare.value(instance.config, instance.data);
      if state.None? {
        StaysUnprepared(instances, registry, i + 1);
        return None;
      }
      prepared := prepared[instance.position := state.value];
    }
    assert instances[..|instances|] == instances;
    states := Some(prepared);
  }

  lemma {:induction false} StaysUnprepared(instances: seq<Instance>, registry: Registry, n: nat)
    requires n <= |instances| && Prepared(instances[..n], registry).None?
    ensures Prepared(instances, registry).None?
    decreases |instances| - n
  {
    if n < |instances| {
      assert instances[..n + 1][..n] == instances[..n];
      StaysUnprepared(instances, registry, n + 1);
    } else {
      assert instances[..n] == instances;
    }
  }

  method RunChain(product: Json, instances: seq<Instance>, registry: Registry, states: States)
    returns (result: ChainResult)
    ensures result == Chain(product, product, instances, registry, states)
  {
    var current := product;
    for i := 0 to |instances|
      invariant Chain(product, product, instances, registry, states) ==
        Chain(current, product, instances[i..], registry, states)
    {
      var instance := instances[i];
      assert instances[i..][0] == instance && instances[i..][1..] == instances[i + 1..];
      if instance.plugin in registry {
        var state := At(states, instance.position);
        match registry[instance.plugin].process(current, instance.config, instance.data, product, state) {
          case RaisedError => return Fails;
          case DroppedProduct => return Drops(instance.plugin);
          case Returned(next) => current := next;
        }
      }
    }
    result := Survives(current);
  }

  // ----- The steps -----

  datatype Dropped = Dropped(id: Option<Json>, plugin: string)

  class RunState {
    var dropped: seq<Dropped>
    var products: seq<Json>
    var productPks: map<string, nat>
    var config: Config

    constructor (products: seq<Json>, config: Config)
      ensures this.products == products && this.config == config && dropped == []
    {
      this.products, this.productPks, this.config, dropped := products, map[], config, [];
    }
  }

  method StagingStep(table: Table, state: RunState, feed: int, now: int, chunkSize: nat)
    returns (counts: Counts, configHash: Digest, ghost delta: StagingDelta)
    requires chunkSize > 0
    modifies table, state`products, state`productPks
    ensures configHash == ConfigHash(state.config)
    ensures Classifies(delta, old(state.products), old(Stored(table.rows, feed)), configHash)
    ensures table.rows == Applied(old(table.rows), feed, delta, configHash, now, old(table.nextPk))
    ensures table.nextPk == old(table.nextPk) + |Inserting(delta.upserts, true)|
    ensures state.products == delta.enqueue
    ensures state.productPks == AppliedPks(old(table.rows), feed, delta, configHash, old(table.nextPk))
    ensures counts == delta.counts
  {
    hide Stored, Classifies, Applied, AppliedPks, ConfigHash, Inserting;
    configHash := ConfigHash(state.config);
    var stored := table.LoadStoredRows(feed);
    var d := Classify(state.products, stored, configHash);
    delta := d;
    UpsertsHaveRows(state.products, stored, configHash, d);
    var pks := table.ApplyStagingDelta(feed, d, configHash, now, chunkSize);
    state.products, state.productPks := d.enqueue, pks;
    counts := d.counts;
  }

  lemma UpsertsHaveRows(products: seq<Json>, stored: map<string, Row>, configHash: Digest, delta: StagingDelta)
    requires Classifies(delta, products, stored, configHash)
    ensures forall u :: u in delta.upserts ==> u.insert || u.pk.Some?
  {
    UpsertsExactly(Comparison(FirstById(products), stored, configHash), products, delta);
  }

  /** No chain is run when a preparation raises, so no outcome is recorded. */
  lemma {:induction false} NothingWithoutStates(
    products: seq<Json>, pks: map<string, nat>, config: Config, registry: Registry)
    requires Prepared(config.instances, registry).None?
    ensures Outcomes(products, pks, config, registry) == []
  {
    if products != [] { NothingWithoutStates(products[..|products| - 1], pks, config, registry); }
  }

  /** The loop over the products, with the states prepared for the run. */
  method RunChains(
      products: seq<Json>, pks: map<string, nat>, config: Config, registry: Registry, states: States)
    returns (survivors: seq<Json>, outcomes: seq<PluginOutcome>, log: seq<Dropped>, dropped: nat, errored: nat)
    requires Prepared(config.instances, registry) == Some(states)
    ensures outcomes == Outcomes(products, pks, config, registry)
    ensures survivors == Survivors(products, config, registry)
    ensures log == DroppedBy(products, config, registry)
    ensures (dropped, errored) == Endings(products, config, registry)
    ensures |survivors| + dropped + errored == |products|
  {
    hide Chain, Prepared, PkOf, IdOf;
    survivors, outcomes, log, dropped, errored := [], [], [], 0, 0;
    for i := 0 to |products|
      invariant outcomes == Outcomes(products[..i], pks, config, registry)
      invariant survivors == Survivors(products[..i], config, registry)
      invariant log == DroppedBy(products[..i], config, registry)
      invariant (dropped, errored) == Endings(products[..i], config, registry)
      invariant |survivors| + dropped + errored == i
    {
      var product := products[i];
      assert products[..i + 1][..i] == products[..i];
      var result := RunChain(product, config.instances, registry, states);
      var pk := PkOf(product, pks);
      match result {
        case Fails => errored := errored + 1;
        case Drops(plugin) =>
          dropped := dropped + 1;
          log := log + [Dropped(IdOf(product), plugin)];
          if pk.Some? { outcomes := outcomes + [PluginOutcome(pk.value, None)]; }
        case Survives(current) =>
          survivors := survivors + [current];
          if pk.Some? { outcomes := outcomes + [PluginOutcome(pk.value, Some(current))]; }
      }
    }
    assert products[..|products|] == products;
  }

  /** None when a preparation raises: the run stops there, and nothing is changed. */
  method PluginStep(table: Table, state: RunState, feed: int, registry: Registry)
    returns (counts: Option<(nat, nat, nat)>)
    modifies table`rows, state`products, state`dropped
    ensures counts.None? <==> Prepared(state.config.instances, registry).None?
    ensures counts.None? ==> unchanged(table) && unchanged(state)
    ensures table.rows == old(RecordOutcomes(
      table.rows, feed, Outcomes(state.products, state.productPks, state.config, registry)))
    ensures counts.Some? ==>
      var (processed, dropped, errored) := counts.value;
      && state.products == old(Survivors(state.products, state.config, registry))
      && state.dropped == old(state.dropped + DroppedBy(state.products, state.config, registry))
      && processed + dropped + errored == |old(state.products)| && processed == |state.products|
      && (dropped, errored) == old(Endings(state.products, state.config, registry))
  {
    hide Chain, Prepared, Outcomes, Survivors, DroppedBy, Endings;
    var states := PrepareRun(state.config.instances, registry);
    if states.None? {
      NothingWithoutStates(state.products, state.productPks, state.config, registry);
      return None;
    }
    var survivors, outcomes, log, dropped, errored :=
      RunChains(state.products, state.productPks, state.config, registry, states.value);
    table.ApplyPluginOutcomes(feed, outcomes, 1000);
    state.products, state.dropped := survivors, state.dropped + log;
    counts := Some((|survivors|, dropped, errored));
  }
}
