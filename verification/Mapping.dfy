/** Applying a field mapping to one product: whole fields and sub-fields first, indexed
    targets last. */
module Mapping {
  import opened AttributeKinds
  import opened Hashing
  import opened IndexedPath
  import opened Slots
  import opened Wrappers

  datatype Attribute = Attribute(kind: Kind, subs: seq<string>)

  type Registry = map<string, Attribute>

  /** Mapping targets by source key. */
  type Mappings = map<string, string>

  // ----- Values of a source -----

  predicate AllObjects(items: seq<Json>) {
    forall i :: 0 <= i < |items| ==> items[i].Obj?
  }

  predicate AllTexts(items: seq<Json>) {
    forall i :: 0 <= i < |items| ==> items[i].Str?
  }

  /** The sub-field of each item, with "" where an item has none. */
  function SubItems(items: seq<Json>, sub: string): seq<Json>
    requires AllObjects(items)
  {
    seq(|items|, i requires 0 <= i < |items| =>
      if sub in items[i].fields && items[i].fields[sub] != Null then items[i].fields[sub] else Str(""))
  }

  /** The strings a sub-field source yields, if any, and whether its shape is wrong. */
  function SubValues(value: Json, sub: string): (Option<seq<Json>>, bool) {
    match value
    case Obj(fields) =>
      if sub !in fields || fields[sub] == Null then (None, false)
      else if fields[sub].Str? then (Some([fields[sub]]), false)
      else (None, true)
    case Arr(items) =>
      if !AllObjects(items) then (None, true)
      else
        var values := SubItems(items, sub);
        if !AllTexts(values) then (None, true)
        else if forall i :: 0 <= i < |values| ==> values[i] == Str("") then (None, false)
        else (Some(values), false)
    case _ => (None, false)
  }

  function Single(values: seq<Json>): Json {
    if |values| == 1 then values[0] else Arr(values)
  }

  /** `parent.sub` with a parent of the product, read through that parent. */
  function SubSource(product: map<string, Json>, key: string): (Option<Json>, bool) {
    var parts := Split(key);
    if |parts| != 2 || parts[1] == "" || parts[0] !in product then (None, false)
    else
      var (values, mismatch) := SubValues(product[parts[0]], parts[1]);
      (if values.Some? then Some(Single(values.value)) else None, mismatch)
  }

  lemma MismatchHasNoSource(product: map<string, Json>, key: string)
    ensures SubSource(product, key).1 ==> SubSource(product, key).0.None?
  {
  }

  /** What an indexed entry reads: a field by its own name, or a sub-field of its parent. */
  function IndexedSource(product: map<string, Json>, key: string): (Option<Json>, bool) {
    if key in product then
      (Some(if product[key].Arr? then Single(product[key].items) else product[key]), false)
    else SubSource(product, key)
  }

  // ----- One entry -----

  predicate WellKinded(registry: Registry, r: Result) {
    forall attr :: attr in r ==>
      && attr in registry
      && match registry[attr].kind
         case Scalar => r[attr].Str?
         case RepeatedScalar => r[attr].Arr? && AllTexts(r[attr].items)
         case Structured => r[attr].Obj?
         case RepeatedStructured => r[attr].Arr? && AllObjects(r[attr].items)
  }

  predicate IsIndexed(target: string) {
    Parse(target).Some? && Parse(target).value.index.Some?
  }

  function SetField(item: Json, sub: string, value: Json): Json {
    if item.Obj? then Obj(item.fields[sub := value]) else item
  }

  /** Values spread over the items of a list, one each; "" leaves its item alone. */
  function Merged(items: seq<Json>, sub: string, values: seq<Json>): seq<Json> {
    var padded := Padded(items, |values|, Obj(map[]));
    seq(|padded|, i requires 0 <= i < |padded| =>
      if i < |values| && values[i] != Str("") then SetField(padded[i], sub, values[i]) else padded[i])
  }

  function SubEffect(kind: Kind, r: Result, attr: string, sub: string, value: Json): (Result, bool) {
    var entry := if attr in r then r[attr] else Obj(map[]);
    if kind == Structured then
      match value
      case Str(_) => (r[attr := SetField(entry, sub, value)], true)
      case Arr(values) =>
        if |values| == 1 then (r[attr := SetField(entry, sub, values[0])], true) else (r, false)
      case _ => (r, false)
    else if kind == RepeatedStructured then
      match value
      case Str(_) =>
        var items := Padded(Items(r, attr), 1, Obj(map[]));
        (r[attr := Arr(items[0 := SetField(items[0], sub, value)])], true)
      case Arr(values) => (r[attr := Arr(Merged(Items(r, attr), sub, values))], true)
      case _ => (r, false)
    else (r, false)
  }

  function NonEmptyTexts(items: seq<Json>): seq<Json> {
    if items == [] then []
    else
      var last := items[|items| - 1];
      NonEmptyTexts(items[..|items| - 1]) + (if last == Str("") then [] else [last])
  }

  function WholeEffect(attribute: Attribute, r: Result, attr: string, value: Json): (Result, bool) {
    match (attribute.kind, value)
    case (Scalar, Str(_)) => (r[attr := value], true)
    case (RepeatedScalar, Str(_)) => (r[attr := Arr([value])], true)
    case (RepeatedScalar, Arr(items)) =>
      if AllTexts(items) then (r[attr := Arr(NonEmptyTexts(items))], true) else (r, false)
    case (Structured, Obj(fields)) =>
      (r[attr := Obj(map k | k in fields && k in attribute.subs :: fields[k])], true)
    case (RepeatedStructured, Obj(_)) => (r[attr := Arr([value])], true)
    case (RepeatedStructured, Arr(items)) => if AllObjects(items) then (r[attr := value], true) else (r, false)
    case _ => (r, false)
  }

  /** The indexed write an entry stands for, if its attribute takes one. */
  function WriteFor(registry: Registry, value: Json, p: Path): Option<Write>
    requires p.index.Some?
  {
    if p.attr !in registry then None
    else
      var kind := registry[p.attr].kind;
      if kind != RepeatedScalar && kind != RepeatedStructured then None
      else if p.sub.Some? && kind != RepeatedStructured then None
      else if !value.Str? then None
      else Some(Write(p.attr, p.index.value, p.sub, value.text))
  }

  /** The mapped product after one entry, and whether the shapes matched. */
  function EntryEffect(registry: Registry, r: Result, value: Json, target: string): (Result, bool) {
    match Parse(target)
    case None => (r, false)
    case Some(p) =>
      if p.attr !in registry then (r, false)
      else if p.index.Some? then
        ParsedIsWellFormed(target);
        (match WriteFor(registry, value, p)
         case None => (r, false)
         case Some(w) => SetIndexed(r, w))
      else if p.sub.Some? then SubEffect(registry[p.attr].kind, r, p.attr, p.sub.value, value)
      else WholeEffect(registry[p.attr], r, p.attr, value)
  }

  lemma {:induction false} NonEmptyTextsAreTexts(items: seq<Json>)
    requires AllTexts(items)
    ensures AllTexts(NonEmptyTexts(items))
  {
    if items != [] { NonEmptyTextsAreTexts(items[..|items| - 1]); }
  }

  /** Entries without an index keep every attribute in the shape of its kind. */
  lemma EntryKeepsKinds(registry: Registry, r: Result, value: Json, target: string)
    requires WellKinded(registry, r) && !IsIndexed(target)
    ensures WellKinded(registry, EntryEffect(registry, r, value, target).0)
  {
    hide Parse, NonEmptyTexts;
    if Parse(target).Some? && Parse(target).value.sub.None? && value.Arr? && AllTexts(value.items) {
      NonEmptyTextsAreTexts(value.items);
    }
  }

  // ----- The passes before the indexed one -----

  /** Fields mapped as a whole, in product order; indexed targets are left for later. */
  function WholePassed(registry: Registry, product: map<string, Json>, mappings: Mappings, order: seq<string>): Result
    requires forall k :: k in order ==> k in product
  {
    if order == [] then map[]
    else
      var last := order[|order| - 1];
      assert last in order;
      var r := WholePassed(registry, product, mappings, order[..|order| - 1]);
      if last in mappings && !IsIndexed(mappings[last])
      then EntryEffect(registry, r, product[last], mappings[last]).0
      else r
  }

  /** Sub-field sources, in mapping order, on top of that. */
  function SubPassed(
    registry: Registry, r: Result, product: map<string, Json>, mappings: Mappings, order: seq<string>): Result
    requires forall k :: k in order ==> k in mappings
  {
    if order == [] then r
    else
      var last := order[|order| - 1];
      assert last in order;
      var s := SubPassed(registry, r, product, mappings, order[..|order| - 1]);
      var source := SubSource(product, last).0;
      if last !in product && !IsIndexed(mappings[last]) && source.Some?
      then EntryEffect(registry, s, source.value, mappings[last]).0
      else s
  }

  /** The parents through whose sub-fields a mapping reads. */
  function SubMappedParents(product: map<string, Json>, mappings: Mappings): set<string> {
    set k | k in mappings && |Split(k)| > 1 && k !in product :: Split(k)[0]
  }

  /** The fields nothing is mapped from. */
  function Dropped(product: map<string, Json>, mappings: Mappings, order: seq<string>): nat {
    if order == [] then 0
    else
      var last := order[|order| - 1];
      Dropped(product, mappings, order[..|order| - 1]) +
      (if last !in mappings && last !in SubMappedParents(product, mappings) then 1 else 0)
  }

  function Refused(ok: bool): nat {
    if ok then 0 else 1
  }

  /** The entries of the first pass whose value does not fit their target. */
  function WholeMismatches(registry: Registry, product: map<string, Json>, mappings: Mappings, order: seq<string>): nat
    requires forall k :: k in order ==> k in product
  {
    if order == [] then 0
    else
      var rest, last := order[..|order| - 1], order[|order| - 1];
      assert last in order;
      WholeMismatches(registry, product, mappings, rest) +
      (if last in mappings && !IsIndexed(mappings[last])
       then
         Refused(EntryEffect(registry, WholePassed(registry, product, mappings, rest), product[last], mappings[last]).1)
       else 0)
  }

  /** A source that is refused itself, or whose value is. */
  function SourceMismatch(registry: Registry, r: Result, source: (Option<Json>, bool), target: string): nat {
    if source.1 then 1
    else if source.0.Some? then Refused(EntryEffect(registry, r, source.0.value, target).1)
    else 0
  }

  function SubMismatches(
    registry: Registry, r: Result, product: map<string, Json>, mappings: Mappings, order: seq<string>): nat
    requires forall k :: k in order ==> k in mappings
  {
    if order == [] then 0
    else
      var rest, last := order[..|order| - 1], order[|order| - 1];
      assert last in order;
      SubMismatches(registry, r, product, mappings, rest) +
      (if last !in product && !IsIndexed(mappings[last])
       then SourceMismatch(
         registry, SubPassed(registry, r, product, mappings, rest), SubSource(product, last), mappings[last])
       else 0)
  }

  lemma {:induction false} WholePassKeepsKinds(
    registry: Registry, product: map<string, Json>, mappings: Mappings, order: seq<string>)
    requires forall k :: k in order ==> k in product
    ensures WellKinded(registry, WholePassed(registry, product, mappings, order))
  {
    if order != [] {
      var last := order[|order| - 1];
      WholePassKeepsKinds(registry, product, mappings, order[..|order| - 1]);
      if last in mappings && !IsIndexed(mappings[last]) {
        EntryKeepsKinds(
          registry, WholePassed(registry, product, mappings, order[..|order| - 1]), product[last], mappings[last]);
      }
    }
  }

  lemma {:induction false} SubPassKeepsKinds(
    registry: Registry, r: Result, product: map<string, Json>, mappings: Mappings, order: seq<string>)
    requires WellKinded(registry, r) && forall k :: k in order ==> k in mappings
    ensures WellKinded(registry, SubPassed(registry, r, product, mappings, order))
  {
    if order != [] {
      var last := order[|order| - 1];
      SubPassKeepsKinds(registry, r, product, mappings, order[..|order| - 1]);
      var source := SubSource(product, last).0;
      if last !in product && !IsIndexed(mappings[last]) && source.Some? {
        EntryKeepsKinds(
          registry, SubPassed(registry, r, product, mappings, order[..|order| - 1]), source.value, mappings[last]);
      }
    }
  }

  // ----- The indexed pass -----

  function IndexedWrite(registry: Registry, product: map<string, Json>, mappings: Mappings, key: string): Option<Write>
    requires key in mappings && IsIndexed(mappings[key])
  {
    var (source, mismatch) := IndexedSource(product, key);
    if source.None? || mismatch then None else WriteFor(registry, source.value, Parse(mappings[key]).value)
  }

  function IndexedWrites(
    registry: Registry, product: map<string, Json>, mappings: Mappings, keys: seq<string>): seq<Write>
    requires forall k :: k in keys ==> k in mappings && IsIndexed(mappings[k])
  {
    if keys == [] then []
    else
      var last := keys[|keys| - 1];
      assert last in keys;
      var w := IndexedWrite(registry, product, mappings, last);
      IndexedWrites(registry, product, mappings, keys[..|keys| - 1]) + (if w.Some? then [w.value] else [])
  }

  lemma {:induction false} WriteIndicesPositive(
    registry: Registry, product: map<string, Json>, mappings: Mappings, keys: seq<string>)
    requires forall k :: k in keys ==> k in mappings && IsIndexed(mappings[k])
    ensures forall w :: w in IndexedWrites(registry, product, mappings, keys) ==> w.index >= 1
  {
    if keys != [] {
      WriteIndicesPositive(registry, product, mappings, keys[..|keys| - 1]);
      assert keys[|keys| - 1] in keys;
      ParsedIsWellFormed(mappings[keys[|keys| - 1]]);
    }
  }

  function IndexedMismatches(
    registry: Registry, r: Result, product: map<string, Json>, mappings: Mappings, keys: seq<string>): nat
    requires forall k :: k in keys ==> k in mappings && IsIndexed(mappings[k])
  {
    if keys == [] then 0
    else
      var rest, last := keys[..|keys| - 1], keys[|keys| - 1];
      assert last in keys;
      WriteIndicesPositive(registry, product, mappings, rest);
      IndexedMismatches(registry, r, product, mappings, rest) +
      SourceMismatch(
        registry, SetAll(r, IndexedWrites(registry, product, mappings, rest)), IndexedSource(product, last),
        mappings[last])
  }

  lemma NoWrites(registry: Registry, product: map<string, Json>, mappings: Mappings, r: Result)
    ensures IndexedWrites(registry, product, mappings, []) == [] && SetAll(r, []) == r
    ensures IndexedMismatches(registry, r, product, mappings, []) == 0
  {
  }

  lemma WritesOneMore(
    registry: Registry, product: map<string, Json>, mappings: Mappings, keys: seq<string>, key: string, r: Result)
    requires forall k :: k in keys + [key] ==> k in mappings && IsIndexed(mappings[k])
    ensures key in keys + [key] && (forall k :: k in keys ==> k in keys + [key])
    ensures
      var ws := IndexedWrites(registry, product, mappings, keys);
      var us := IndexedWrites(registry, product, mappings, keys + [key]);
      var w := IndexedWrite(registry, product, mappings, key);
      && (forall v :: v in ws + us ==> v.index >= 1)
      && (w.Some? ==> w.value.index >= 1 && SetAll(r, us) == SetIndexed(SetAll(r, ws), w.value).0)
      && (w.None? ==> SetAll(r, us) == SetAll(r, ws))
      && IndexedMismatches(registry, r, product, mappings, keys + [key]) ==
        IndexedMismatches(registry, r, product, mappings, keys) +
        SourceMismatch(registry, SetAll(r, ws), IndexedSource(product, key), mappings[key])
  {
    assert (keys + [key])[..|keys|] == keys;
    WriteIndicesPositive(registry, product, mappings, keys);
    WriteIndicesPositive(registry, product, mappings, keys + [key]);
    var ws := IndexedWrites(registry, product, mappings, keys);
    var w := IndexedWrite(registry, product, mappings, key);
    if w.Some? {
      assert IndexedWrites(registry, product, mappings, keys + [key]) == ws + [w.value];
      SetAllOneMore(r, ws, w.value);
    } else {
      assert IndexedWrites(registry, product, mappings, keys + [key]) == ws + [] == ws;
    }
  }

  /** Distinct indexed entries address distinct slots. */
  ghost predicate SlotsApart(mappings: Mappings) {
    forall j, k :: j in mappings && k in mappings && j != k && IsIndexed(mappings[j]) && IsIndexed(mappings[k]) ==>
      !(Parse(mappings[j]) == Parse(mappings[k]))
  }

  /** Attributes of items are indexed through their sub-fields only. */
  ghost predicate SubsOnItems(registry: Registry, mappings: Mappings) {
    forall k :: k in mappings && IsIndexed(mappings[k]) ==>
      var p := Parse(mappings[k]).value;
      p.attr in registry && registry[p.attr].kind == RepeatedStructured ==> p.sub.Some?
  }

  ghost predicate DistinctKeys(keys: seq<string>) {
    forall i, j :: 0 <= i < j < |keys| ==> keys[i] != keys[j]
  }

  ghost predicate IndexedKeys(mappings: Mappings, keys: seq<string>) {
    DistinctKeys(keys) && forall k :: k in keys <==> k in mappings && IsIndexed(mappings[k])
  }

  lemma {:induction false} WritesExactly(
    registry: Registry, product: map<string, Json>, mappings: Mappings, keys: seq<string>)
    requires forall k :: k in keys ==> k in mappings && IsIndexed(mappings[k])
    ensures forall w :: w in IndexedWrites(registry, product, mappings, keys) <==>
      exists k :: k in keys && IndexedWrite(registry, product, mappings, k) == Some(w)
  {
    hide IndexedWrite;
    if keys != [] {
      WritesExactly(registry, product, mappings, keys[..|keys| - 1]);
      assert keys == keys[..|keys| - 1] + [keys[|keys| - 1]];
    }
  }

  lemma WriteNamesTarget(registry: Registry, product: map<string, Json>, mappings: Mappings, key: string)
    requires key in mappings && IsIndexed(mappings[key]) && IndexedWrite(registry, product, mappings, key).Some?
    ensures
      var w := IndexedWrite(registry, product, mappings, key).value;
      Parse(mappings[key]) == Some(Path(w.attr, Some(w.index), w.sub))
  {
    hide Parse, IndexedSource;
  }

  lemma {:induction false} WritesAreDistinct(
    registry: Registry, product: map<string, Json>, mappings: Mappings, keys: seq<string>)
    requires SlotsApart(mappings) && DistinctKeys(keys)
    requires forall k :: k in keys ==> k in mappings && IsIndexed(mappings[k])
    ensures DistinctSlots(IndexedWrites(registry, product, mappings, keys))
  {
    hide IndexedWrite, Parse;
    if keys != [] {
      var rest, last := keys[..|keys| - 1], keys[|keys| - 1];
      assert keys == rest + [last];
      WritesAreDistinct(registry, product, mappings, rest);
      WritesExactly(registry, product, mappings, rest);
      var ws, w := IndexedWrites(registry, product, mappings, rest), IndexedWrite(registry, product, mappings, last);
      if w.Some? {
        forall i | 0 <= i < |ws| ensures !SameSlot(ws[i], w.value) {
          assert ws[i] in ws;
          var k :| k in rest && IndexedWrite(registry, product, mappings, k) == Some(ws[i]);
          assert k != last;
          WriteNamesTarget(registry, product, mappings, k);
          WriteNamesTarget(registry, product, mappings, last);
        }
      }
    }
  }

  /** Writes of sub-fields go to attributes of items, and with that condition no others do. */
  lemma WritesAreReady(
    registry: Registry, product: map<string, Json>, mappings: Mappings, keys: seq<string>, mid: Result)
    requires WellKinded(registry, mid)
    requires forall k :: k in keys ==> k in mappings && IsIndexed(mappings[k])
    ensures
      var ws := IndexedWrites(registry, product, mappings, keys);
      && Positive(ws) && Ready(mid, ws)
      && (SubsOnItems(registry, mappings) ==>
        forall v, w :: v in ws && w in ws && v.attr == w.attr ==> v.sub.Some? == w.sub.Some?)
  {
    var ws := IndexedWrites(registry, product, mappings, keys);
    WritesExactly(registry, product, mappings, keys);
    forall w | w in ws
      ensures w.index >= 1 && w.attr in registry
      ensures w.sub.Some? ==> registry[w.attr].kind == RepeatedStructured
      ensures SubsOnItems(registry, mappings) && registry[w.attr].kind == RepeatedStructured ==> w.sub.Some?
    {
      var k :| k in keys && IndexedWrite(registry, product, mappings, k) == Some(w);
      ParsedIsWellFormed(mappings[k]);
    }
  }

  lemma WritesAreSame(
    registry: Registry, product: map<string, Json>, mappings: Mappings, keys: seq<string>, other: seq<string>)
    requires SlotsApart(mappings) && IndexedKeys(mappings, keys) && IndexedKeys(mappings, other)
    ensures
      var ws := IndexedWrites(registry, product, mappings, keys);
      var us := IndexedWrites(registry, product, mappings, other);
      DistinctSlots(ws) && SameWrites(us, ws)
  {
    WritesExactly(registry, product, mappings, keys);
    WritesExactly(registry, product, mappings, other);
    WritesAreDistinct(registry, product, mappings, keys);
    WritesAreDistinct(registry, product, mappings, other);
  }

  /** On top of whatever the earlier passes wrote, the indexed pass sets every slot by itself. It
      may meet the entries in any other order exactly when no filler shows; so, in particular,
      when attributes of items are indexed through their sub-fields only. */
  lemma IndexedPassLands(
    registry: Registry, product: map<string, Json>, mappings: Mappings, keys: seq<string>, other: seq<string>,
    mid: Result)
    requires WellKinded(registry, mid) && SlotsApart(mappings)
    requires IndexedKeys(mappings, keys) && IndexedKeys(mappings, other)
    ensures
      var ws := IndexedWrites(registry, product, mappings, keys);
      var us := IndexedWrites(registry, product, mappings, other);
      && Positive(ws) && Positive(us) && SlotsSet(mid, ws, SetAll(mid, ws))
      && (SubsOnItems(registry, mappings) ==> OneFiller(mid, ws))
      && (OneFiller(mid, ws) ==> SetAll(mid, us) == SetAll(mid, ws))
  {
    hide IndexedWrites, SlotsSet, SetAll, Items, SlotsApart, IndexedKeys, WellKinded, SubsOnItems;
    KeysAreIndexed(mappings, keys);
    KeysAreIndexed(mappings, other);
    var ws := IndexedWrites(registry, product, mappings, keys);
    var us := IndexedWrites(registry, product, mappings, other);
    WritesAreSame(registry, product, mappings, keys, other);
    WritesAreReady(registry, product, mappings, keys, mid);
    WritesAreReady(registry, product, mappings, other, mid);
    SetAllSetsSlots(mid, ws);
    if OneFiller(mid, ws) { OrderDoesNotMatter(mid, ws, us); }
  }

  lemma KeysAreIndexed(mappings: Mappings, keys: seq<string>)
    requires IndexedKeys(mappings, keys)
    ensures forall k :: k in keys ==> k in mappings && IsIndexed(mappings[k])
  {
  }

  /** Read out for one entry: a source string ends up, unchanged, in the slot its target names,
      exactly when it is bare or finds an item there that no bare string replaces; always, when
      attributes of items are indexed through their sub-fields only. */
  lemma EachSourceInItsSlot(
    registry: Registry, product: map<string, Json>, mappings: Mappings, keys: seq<string>, mid: Result, key: string)
    requires WellKinded(registry, mid) && SlotsApart(mappings)
    requires IndexedKeys(mappings, keys) && key in keys
    requires IndexedWrite(registry, product, mappings, key).Some?
    ensures
      var ws := IndexedWrites(registry, product, mappings, keys);
      var w := IndexedWrite(registry, product, mappings, key).value;
      && Positive(ws) && w.index >= 1
      && (Landed(SetAll(mid, ws), w) <==>
        w.sub.Some? ==> !BareWritten(ws, w.attr, w.index) && Origin(mid, ws, w.attr, w.index).Obj?)
      && (SubsOnItems(registry, mappings) ==> Landed(SetAll(mid, ws), w))
  {
    hide IndexedWrites, IndexedWrite, SetAll, WellKinded, SlotsApart, Landed, SubsOnItems, FirstReaching, Greatest;
    var ws := IndexedWrites(registry, product, mappings, keys);
    var w := IndexedWrite(registry, product, mappings, key).value;
    WritesExactly(registry, product, mappings, keys);
    WritesAreSame(registry, product, mappings, keys, keys);
    WritesAreReady(registry, product, mappings, keys, mid);
    assert w in ws;
    LandsIff(mid, ws, w);
    FirstReachingReaches(ws, w.attr, w.index);
    GreatestBounds(ws, w.attr);
  }
}
