/** The greedy matcher of source fields to registry attributes. */
module Matcher {
  import opened IndexedPath
  import opened Mapping
  import opened FieldMapping
  import opened Texts
  import opened Wrappers

  /** The registry with its attributes in order. */
  datatype Catalog = Catalog(attributes: Registry, order: seq<string>)

  // ----- Claims -----

  predicate HasSource(es: seq<Entry>, source: string) {
    exists i :: 0 <= i < |es| && es[i].source == source
  }

  predicate Claimed(es: seq<Entry>, target: string) {
    exists i :: 0 <= i < |es| && es[i].target == target
  }

  /** Some sub-field of this source is mapped. */
  predicate HasSubMapping(es: seq<Entry>, field: SourceField) {
    exists i :: 0 <= i < |es| && StartsWith(es[i].source, field.name + ".")
  }

  predicate CanClaim(catalog: Catalog, es: seq<Entry>, field: SourceField, target: string) {
    && target in catalog.attributes
    && !HasSource(es, field.name) && !Claimed(es, target)
    && !(exists i :: 0 <= i < |es| && StartsWith(es[i].target, target + "."))
    && Compatible(field.kind, catalog.attributes[target].kind)
  }

  function SubTarget(attr: string, sub: Option<string>): string {
    if sub.None? then attr else attr + "." + sub.value
  }

  predicate CanClaimSub(
    catalog: Catalog, es: seq<Entry>, field: SourceField, sub: string, attr: string, attrSub: Option<string>)
  {
    && attr in catalog.attributes
    && !HasSource(es, field.name + "." + sub)
    && !Claimed(es, SubTarget(attr, attrSub)) && !Claimed(es, attr)
    && var kind := catalog.attributes[attr].kind;
      if attrSub.Some? then TakesSubFields(kind) && attrSub.value in catalog.attributes[attr].subs
      else TakesSubFields(field.kind) && Compatible(Effective(field.kind), kind)
  }

  // ----- What a mapping made by the matcher looks like -----

  ghost predicate WholeEntry(catalog: Catalog, fields: seq<SourceField>, e: Entry) {
    exists f :: f in fields && e.source == f.name
      && e.target in catalog.attributes && Compatible(f.kind, catalog.attributes[e.target].kind)
  }

  ghost predicate SubEntryFor(
    catalog: Catalog, f: SourceField, sub: string, attr: string, attrSub: Option<string>, e: Entry)
  {
    && TakesSubFields(f.kind) && sub in f.subs
    && e.source == f.name + "." + sub && e.target == SubTarget(attr, attrSub)
    && attr in catalog.attributes
    && var kind := catalog.attributes[attr].kind;
      if attrSub.Some? then TakesSubFields(kind) && attrSub.value in catalog.attributes[attr].subs
      else Compatible(Effective(f.kind), kind)
  }

  ghost predicate SubEntry(catalog: Catalog, fields: seq<SourceField>, e: Entry) {
    exists f, sub, attr, attrSub :: f in fields && SubEntryFor(catalog, f, sub, attr, attrSub, e)
  }

  /** Names as the matcher's callers observe them: fields, sub-fields and attributes without
      dots, fields distinct, and sub-fields that read as sub-fields of a path. */
  ghost predicate WellNamed(catalog: Catalog, fields: seq<SourceField>) {
    && (forall a :: a in catalog.attributes ==> WellFormed(Path(a, None, None)))
    && (forall a, s :: a in catalog.attributes && s in catalog.attributes[a].subs ==>
      WellFormed(Path(a, None, Some(s))))
    && (forall a :: a in catalog.order ==> a in catalog.attributes)
    && (forall f :: f in fields ==> DotFree(f.name) && forall s :: s in f.subs ==> s != "" && DotFree(s))
    && (forall i, j :: 0 <= i < j < |fields| ==> fields[i].name != fields[j].name)
  }

  ghost predicate Made(catalog: Catalog, fields: seq<SourceField>, es: seq<Entry>) {
    && (forall i :: 0 <= i < |es| ==> WholeEntry(catalog, fields, es[i]) || SubEntry(catalog, fields, es[i]))
    && NoClash(es)
    && (forall i, j :: 0 <= i < j < |es| ==> es[i].source != es[j].source)
  }

  // ----- Claiming keeps it so -----

  lemma AttrParses(catalog: Catalog, fields: seq<SourceField>, attr: string, sub: Option<string>)
    requires WellNamed(catalog, fields) && attr in catalog.attributes
    requires sub.Some? ==> sub.value in catalog.attributes[attr].subs
    ensures Parse(SubTarget(attr, sub)) == Some(Path(attr, None, sub)) && DotFree(attr)
    ensures HasDot(SubTarget(attr, sub)) <==> sub.Some?
  {
    hide Parse, Split, DotFree;
    ParsePrint(Path(attr, None, sub));
    assert WellFormed(Path(attr, None, None));
    if sub.Some? {
      assert WellFormed(Path(attr, None, sub));
      assert Print(Path(attr, None, sub)) == SubTarget(attr, sub);
      SplitTwo(attr, sub.value);
    } else {
      assert Print(Path(attr, None, sub)) == SubTarget(attr, sub);
      SplitDotFree(attr);
    }
  }

  lemma AppendKeepsMade(catalog: Catalog, fields: seq<SourceField>, es: seq<Entry>, e: Entry)
    requires Made(catalog, fields, es)
    requires WholeEntry(catalog, fields, e) || SubEntry(catalog, fields, e)
    requires !HasSource(es, e.source) && Parse(e.target).Some?
    requires forall i :: 0 <= i < |es| ==> !Clash(es[i].target, e.target)
    ensures Made(catalog, fields, es + [e])
  {
    hide WholeEntry, SubEntry, Clash, Parse;
    NoClashOneMore(es, e);
    assert forall t :: t in Targets(es) ==> !Clash(t, e.target);
  }

  /** A whole claim: the target is free, and so are its sub-fields. */
  lemma ClaimKeepsMade(catalog: Catalog, fields: seq<SourceField>, es: seq<Entry>, field: SourceField, target: string)
    requires WellNamed(catalog, fields) && Made(catalog, fields, es) && field in fields
    requires CanClaim(catalog, es, field, target)
    ensures Made(catalog, fields, es + [Entry(field.name, target)])
  {
    hide Made, WholeEntry, SubEntry, Parse, Split, WellNamed;
    AttrParses(catalog, fields, target, None);
    assert SubTarget(target, None) == target;
    assert forall i :: 0 <= i < |es| ==> !Clash(es[i].target, target);
    assert WholeEntry(catalog, fields, Entry(field.name, target)) by { WholeClaim(catalog, fields, field, target); }
    AppendKeepsMade(catalog, fields, es, Entry(field.name, target));
  }

  lemma WholeClaim(catalog: Catalog, fields: seq<SourceField>, field: SourceField, target: string)
    requires field in fields && target in catalog.attributes
    requires Compatible(field.kind, catalog.attributes[target].kind)
    ensures WholeEntry(catalog, fields, Entry(field.name, target))
  {
  }

  /** A sub-field claim of a whole attribute cannot meet a claimed sub-field of it: the kinds
      that fit the one do not have the other. */
  lemma SubClaimKeepsMade(
    catalog: Catalog, fields: seq<SourceField>, es: seq<Entry>, field: SourceField, sub: string, attr: string,
    attrSub: Option<string>)
    requires WellNamed(catalog, fields) && Made(catalog, fields, es) && field in fields
    requires TakesSubFields(field.kind) && sub in field.subs
    requires CanClaimSub(catalog, es, field, sub, attr, attrSub)
    ensures Made(catalog, fields, es + [Entry(field.name + "." + sub, SubTarget(attr, attrSub))])
  {
    hide Parse, Split, WellNamed, NoClash;
    var e := Entry(field.name + "." + sub, SubTarget(attr, attrSub));
    AttrParses(catalog, fields, attr, attrSub);
    assert SubEntryFor(catalog, field, sub, attr, attrSub, e);
    forall i | 0 <= i < |es| ensures !Clash(es[i].target, e.target) {
      if attrSub.None? && HasDot(es[i].target) {
        DottedTargetTakesSubs(catalog, fields, es[i], attr);
      }
    }
    AppendKeepsMade(catalog, fields, es, e);
  }

  lemma DottedTargetTakesSubs(catalog: Catalog, fields: seq<SourceField>, e: Entry, attr: string)
    requires WellNamed(catalog, fields) && attr in catalog.attributes && HasDot(e.target)
    requires WholeEntry(catalog, fields, e) || SubEntry(catalog, fields, e)
    ensures StartsWith(e.target, attr + ".") ==> TakesSubFields(catalog.attributes[attr].kind)
  {
    hide Parse, Split;
    if WholeEntry(catalog, fields, e) {
      AttrParses(catalog, fields, e.target, None);
      assert false;
    } else {
      var f, sub, a, s :| f in fields && SubEntryFor(catalog, f, sub, a, s, e);
      AttrParses(catalog, fields, a, s);
      AttrParses(catalog, fields, attr, None);
      if StartsWith(e.target, attr + ".") { SamePrefix(a, attr, s.value, e.target); }
    }
  }

  /** Two dot-free heads of one text before a dot are the same. */
  lemma SamePrefix(a: string, b: string, s: string, t: string)
    requires DotFree(a) && DotFree(b) && t == a + "." + s && StartsWith(t, b + ".")
    ensures a == b
  {
    var rest := t[|b| + 1..];
    assert t == b + "." + rest;
    SplitAtDot(a, s);
    SplitAtDot(b, rest);
    assert Split(t)[0] == a && Split(t)[0] == b;
  }

  // ----- The three passes -----

  function WholeStep(
    catalog: Catalog, norm: string -> string, names: map<string, string>, es: seq<Entry>, field: SourceField)
    : seq<Entry>
  {
    if HasSubMapping(es, field) || norm(field.name) !in names then es
    else
      var target := names[norm(field.name)];
      if CanClaim(catalog, es, field, target) then es + [Entry(field.name, target)] else es
  }

  /** One pass over whole fields, by normalized name or by synonym; the first field wins. */
  function WholeMatched(
    catalog: Catalog, norm: string -> string, names: map<string, string>, fields: seq<SourceField>, start: seq<Entry>)
    : seq<Entry>
  {
    if fields == [] then start
    else
      WholeStep(
        catalog, norm, names, WholeMatched(catalog, norm, names, fields[..|fields| - 1], start), fields[|fields| - 1])
  }

  /** The first sub-field of `attr`, from the `i`-th on, that this source sub-field may claim. */
  function FirstSub(
    catalog: Catalog, norm: string -> string, es: seq<Entry>, field: SourceField, sub: string, attr: string, i: nat)
    : Option<string>
    requires attr in catalog.attributes && i <= |catalog.attributes[attr].subs|
    decreases |catalog.attributes[attr].subs| - i
  {
    var subs := catalog.attributes[attr].subs;
    if i == |subs| then None
    else if norm(subs[i]) == norm(sub) && CanClaimSub(catalog, es, field, sub, attr, Some(subs[i])) then Some(subs[i])
    else FirstSub(catalog, norm, es, field, sub, attr, i + 1)
  }

  /** The first attribute, from the `i`-th on, with such a sub-field. */
  function FirstAttr(
    catalog: Catalog, norm: string -> string, es: seq<Entry>, field: SourceField, sub: string, i: nat)
    : Option<(string, string)>
    requires i <= |catalog.order| && forall a :: a in catalog.order ==> a in catalog.attributes
    decreases |catalog.order| - i
  {
    if i == |catalog.order| then None
    else
      var attr := catalog.order[i];
      var found :=
        if TakesSubFields(catalog.attributes[attr].kind)
        then FirstSub(catalog, norm, es, field, sub, attr, 0)
        else None;
      if found.Some? then Some((attr, found.value)) else FirstAttr(catalog, norm, es, field, sub, i + 1)
  }

  /** A source sub-field goes to a whole attribute of its name if it may, else to the first
      sub-field of its name. */
  function SubStep(
    catalog: Catalog, norm: string -> string, names: map<string, string>, es: seq<Entry>, field: SourceField,
    sub: string)
    : seq<Entry>
    requires forall a :: a in catalog.order ==> a in catalog.attributes
  {
    var key := field.name + "." + sub;
    if norm(sub) in names && CanClaimSub(catalog, es, field, sub, names[norm(sub)], None) then
      es + [Entry(key, SubTarget(names[norm(sub)], None))]
    else
      var found := FirstAttr(catalog, norm, es, field, sub, 0);
      if found.Some? then es + [Entry(key, SubTarget(found.value.0, Some(found.value.1)))] else es
  }

  function SubsMatched(
    catalog: Catalog, norm: string -> string, names: map<string, string>, es: seq<Entry>, field: SourceField,
    subs: seq<string>): seq<Entry>
    requires forall a :: a in catalog.order ==> a in catalog.attributes
  {
    if subs == [] then es
    else
      SubStep(
        catalog, norm, names, SubsMatched(catalog, norm, names, es, field, subs[..|subs| - 1]), field, subs[|subs| - 1])
  }

  function SubMatched(
    catalog: Catalog, norm: string -> string, names: map<string, string>, fields: seq<SourceField>, start: seq<Entry>)
    : seq<Entry>
    requires forall a :: a in catalog.order ==> a in catalog.attributes
  {
    if fields == [] then start
    else
      var es, field := SubMatched(catalog, norm, names, fields[..|fields| - 1], start), fields[|fields| - 1];
      if !TakesSubFields(field.kind) || HasSource(es, field.name) then es
      else SubsMatched(catalog, norm, names, es, field, field.subs)
  }

  function ByNormalized(order: seq<string>, norm: string -> string): map<string, string> {
    if order == [] then map[]
    else ByNormalized(order[..|order| - 1], norm)[norm(order[|order| - 1]) := order[|order| - 1]]
  }

  /** The three passes on top of what is mapped already. */
  function AutoMatched(
    fields: seq<SourceField>, catalog: Catalog, norm: string -> string, synonyms: map<string, string>,
    existing: seq<Entry>): seq<Entry>
    requires forall a :: a in catalog.order ==> a in catalog.attributes
  {
    var names := ByNormalized(catalog.order, norm);
    SubMatched(
      catalog, norm, names, fields,
      WholeMatched(catalog, norm, synonyms, fields, WholeMatched(catalog, norm, names, fields, existing)))
  }

  class Matching {
    const catalog: Catalog
    var entries: seq<Entry>

    constructor (catalog: Catalog)
      ensures this.catalog == catalog && entries == []
    {
      this.catalog := catalog;
      entries := [];
    }

    method WholePass(fields: seq<SourceField>, norm: string -> string, names: map<string, string>)
      modifies this
      ensures entries == WholeMatched(catalog, norm, names, fields, old(entries))
    {
      for i := 0 to |fields|
        invariant entries == WholeMatched(catalog, norm, names, fields[..i], old(entries))
      {
        assert fields[..i + 1][..i] == fields[..i];
        var field := fields[i];
        if !HasSubMapping(entries, field) && norm(field.name) in names {
          var target := names[norm(field.name)];
          if CanClaim(catalog, entries, field, target) {
            entries := entries + [Entry(field.name, target)];
          }
        }
      }
      assert fields[..|fields|] == fields;
    }

    method TryClaimSub(field: SourceField, sub: string, attr: string, attrSub: Option<string>) returns (ok: bool)
      modifies this
      ensures ok == CanClaimSub(catalog, old(entries), field, sub, attr, attrSub)
      ensures entries ==
        if ok then old(entries) + [Entry(field.name + "." + sub, SubTarget(attr, attrSub))] else old(entries)
    {
      ok := CanClaimSub(catalog, entries, field, sub, attr, attrSub);
      if ok { entries := entries + [Entry(field.name + "." + sub, SubTarget(attr, attrSub))]; }
    }

    method ClaimFirstAttr(field: SourceField, sub: string, norm: string -> string)
      requires forall a :: a in catalog.order ==> a in catalog.attributes
      modifies this
      ensures
        var found := FirstAttr(catalog, norm, old(entries), field, sub, 0);
        entries == if found.Some?
          then old(entries) + [Entry(field.name + "." + sub, SubTarget(found.value.0, Some(found.value.1)))]
          else old(entries)
    {
      for i := 0 to |catalog.order|
        invariant entries == old(entries)
        invariant FirstAttr(catalog, norm, entries, field, sub, 0) == FirstAttr(catalog, norm, entries, field, sub, i)
      {
        var attr := catalog.order[i];
        assert attr in catalog.order;
        if TakesSubFields(catalog.attributes[attr].kind) {
          var subs := catalog.attributes[attr].subs;
          for j := 0 to |subs|
            invariant entries == old(entries)
            invariant FirstSub(catalog, norm, entries, field, sub, attr, 0) ==
              FirstSub(catalog, norm, entries, field, sub, attr, j)
          {
            if norm(subs[j]) == norm(sub) {
              var ok := TryClaimSub(field, sub, attr, Some(subs[j]));
              if ok { return; }
            }
          }
        }
      }
    }

    method SubPass(fields: seq<SourceField>, norm: string -> string, names: map<string, string>)
      requires forall a :: a in catalog.order ==> a in catalog.attributes
      modifies this
      ensures entries == SubMatched(catalog, norm, names, fields, old(entries))
    {
      for i := 0 to |fields|
        invariant entries == SubMatched(catalog, norm, names, fields[..i], old(entries))
      {
        assert fields[..i + 1][..i] == fields[..i];
        var field := fields[i];
        if TakesSubFields(field.kind) && !HasSource(entries, field.name) {
          ghost var start := entries;
          for j := 0 to |field.subs|
            invariant entries == SubsMatched(catalog, norm, names, start, field, field.subs[..j])
          {
            assert field.subs[..j + 1][..j] == field.subs[..j];
            var sub := field.subs[j];
            var ok := false;
            if norm(sub) in names { ok := TryClaimSub(field, sub, names[norm(sub)], None); }
            if !ok { ClaimFirstAttr(field, sub, norm); }
          }
          assert field.subs[..|field.subs|] == field.subs;
        }
      }
      assert fields[..|fields|] == fields;
    }

    method AutoMatch(fields: seq<SourceField>, norm: string -> string, synonyms: map<string, string>)
      requires forall a :: a in catalog.order ==> a in catalog.attributes
      modifies this
      ensures entries == AutoMatched(fields, catalog, norm, synonyms, old(entries))
    {
      var names: map<string, string> := map[];
      for i := 0 to |catalog.order|
        invariant names == ByNormalized(catalog.order[..i], norm)
      {
        assert catalog.order[..i + 1][..i] == catalog.order[..i];
        names := names[norm(catalog.order[i]) := catalog.order[i]];
      }
      assert catalog.order[..|catalog.order|] == catalog.order;
      WholePass(fields, norm, names);
      WholePass(fields, norm, synonyms);
      SubPass(fields, norm, names);
    }
  }

  // ----- The matcher's output is accepted -----

  ghost predicate OnlyWhole(catalog: Catalog, fields: seq<SourceField>, es: seq<Entry>) {
    forall i :: 0 <= i < |es| ==> WholeEntry(catalog, fields, es[i])
  }

  lemma {:induction false} WholeMatchedIsMade(
    catalog: Catalog, norm: string -> string, names: map<string, string>, all: seq<SourceField>,
    fields: seq<SourceField>, start: seq<Entry>)
    requires WellNamed(catalog, all) && Made(catalog, all, start) && OnlyWhole(catalog, all, start)
    requires forall f :: f in fields ==> f in all
    ensures
      var es := WholeMatched(catalog, norm, names, fields, start);
      Made(catalog, all, es) && OnlyWhole(catalog, all, es)
  {
    hide Made, WellNamed, WholeEntry;
    if fields != [] {
      var rest, field := fields[..|fields| - 1], fields[|fields| - 1];
      WholeMatchedIsMade(catalog, norm, names, all, rest, start);
      var es := WholeMatched(catalog, norm, names, rest, start);
      if norm(field.name) in names && CanClaim(catalog, es, field, names[norm(field.name)]) {
        ClaimKeepsMade(catalog, all, es, field, names[norm(field.name)]);
        WholeClaim(catalog, all, field, names[norm(field.name)]);
      }
    }
  }

  ghost predicate NamesField(fields: seq<SourceField>, source: string) {
    exists f :: f in fields && source == f.name
  }

  ghost predicate NamesUnmappedSub(fields: seq<SourceField>, es: seq<Entry>, source: string) {
    exists f, sub :: f in fields && sub in f.subs && source == f.name + "." + sub && !HasSource(es, f.name)
  }

  /** Entries whose source is a sub-field belong to a field that is not mapped whole. */
  ghost predicate Apart(fields: seq<SourceField>, es: seq<Entry>) {
    forall i :: 0 <= i < |es| ==> NamesField(fields, es[i].source) || NamesUnmappedSub(fields, es, es[i].source)
  }

  lemma FirstSubMayClaim(
    catalog: Catalog, norm: string -> string, es: seq<Entry>, field: SourceField, sub: string, attr: string, i: nat)
    requires attr in catalog.attributes && i <= |catalog.attributes[attr].subs|
    ensures
      var found := FirstSub(catalog, norm, es, field, sub, attr, i);
      found.Some? ==> CanClaimSub(catalog, es, field, sub, attr, found)
    decreases |catalog.attributes[attr].subs| - i
  {
    if i < |catalog.attributes[attr].subs| { FirstSubMayClaim(catalog, norm, es, field, sub, attr, i + 1); }
  }

  lemma FirstAttrMayClaim(
    catalog: Catalog, norm: string -> string, es: seq<Entry>, field: SourceField, sub: string, i: nat)
    requires i <= |catalog.order| && forall a :: a in catalog.order ==> a in catalog.attributes
    ensures
      var found := FirstAttr(catalog, norm, es, field, sub, i);
      found.Some? ==> CanClaimSub(catalog, es, field, sub, found.value.0, Some(found.value.1))
    decreases |catalog.order| - i
  {
    if i < |catalog.order| {
      assert catalog.order[i] in catalog.order;
      FirstSubMayClaim(catalog, norm, es, field, sub, catalog.order[i], 0);
      FirstAttrMayClaim(catalog, norm, es, field, sub, i + 1);
    }
  }

  lemma SubStepIsMade(
    catalog: Catalog, norm: string -> string, names: map<string, string>, fields: seq<SourceField>, es: seq<Entry>,
    field: SourceField, sub: string)
    requires WellNamed(catalog, fields) && Made(catalog, fields, es) && Apart(fields, es)
    requires field in fields && TakesSubFields(field.kind) && sub in field.subs && !HasSource(es, field.name)
    ensures forall a :: a in catalog.order ==> a in catalog.attributes
    ensures
      var r := SubStep(catalog, norm, names, es, field, sub);
      Made(catalog, fields, r) && Apart(fields, r) && !HasSource(r, field.name)
  {
    hide Made, CanClaimSub, FirstAttr;
    var key, r := field.name + "." + sub, SubStep(catalog, norm, names, es, field, sub);
    if norm(sub) in names && CanClaimSub(catalog, es, field, sub, names[norm(sub)], None) {
      SubClaimKeepsMade(catalog, fields, es, field, sub, names[norm(sub)], None);
    } else {
      var found := FirstAttr(catalog, norm, es, field, sub, 0);
      FirstAttrMayClaim(catalog, norm, es, field, sub, 0);
      if found.Some? {
        SubClaimKeepsMade(catalog, fields, es, field, sub, found.value.0, Some(found.value.1));
      }
    }
    if r != es { ApartOneMore(fields, es, field, sub, r[|es|]); }
  }

  lemma ApartOneMore(fields: seq<SourceField>, es: seq<Entry>, field: SourceField, sub: string, e: Entry)
    requires Apart(fields, es) && field in fields && sub in field.subs && e.source == field.name + "." + sub
    requires !HasSource(es, field.name) && forall f :: f in fields ==> DotFree(f.name)
    ensures Apart(fields, es + [e]) && !HasSource(es + [e], field.name)
  {
    var longer := es + [e];
    forall f | f in fields ensures e.source != f.name {
      SplitAtDot(field.name, sub);
      SplitDotFree(f.name);
      assert |Split(e.source)| >= 2;
    }
    forall f | f in fields ensures HasSource(longer, f.name) <==> HasSource(es, f.name) {
      if HasSource(es, f.name) {
        var i :| 0 <= i < |es| && es[i].source == f.name;
        assert longer[i].source == f.name;
      }
    }
    forall i | 0 <= i < |longer|
      ensures NamesField(fields, longer[i].source) || NamesUnmappedSub(fields, longer, longer[i].source)
    {
      if i < |es| {
        assert longer[i] == es[i];
        if NamesUnmappedSub(fields, es, es[i].source) {
          var f, s :| f in fields && s in f.subs && es[i].source == f.name + "." + s && !HasSource(es, f.name);
          assert !HasSource(longer, f.name);
        }
      } else {
        assert longer[i] == e;
      }
    }
  }

  lemma {:induction false} SubsMatchedIsMade(
    catalog: Catalog, norm: string -> string, names: map<string, string>, fields: seq<SourceField>, es: seq<Entry>,
    field: SourceField, subs: seq<string>)
    requires WellNamed(catalog, fields) && Made(catalog, fields, es) && Apart(fields, es)
    requires field in fields && TakesSubFields(field.kind) && !HasSource(es, field.name)
    requires forall s :: s in subs ==> s in field.subs
    ensures forall a :: a in catalog.order ==> a in catalog.attributes
    ensures
      var r := SubsMatched(catalog, norm, names, es, field, subs);
      Made(catalog, fields, r) && Apart(fields, r) && !HasSource(r, field.name)
  {
    hide Made, Apart, SubStep, HasSource;
    if subs != [] {
      SubsMatchedIsMade(catalog, norm, names, fields, es, field, subs[..|subs| - 1]);
      SubStepIsMade(
        catalog, norm, names, fields, SubsMatched(catalog, norm, names, es, field, subs[..|subs| - 1]), field,
        subs[|subs| - 1]);
    }
  }

  lemma {:induction false} SubMatchedIsMade(
    catalog: Catalog, norm: string -> string, names: map<string, string>, all: seq<SourceField>,
    fields: seq<SourceField>, start: seq<Entry>)
    requires WellNamed(catalog, all) && Made(catalog, all, start) && Apart(all, start)
    requires forall f :: f in fields ==> f in all
    ensures forall a :: a in catalog.order ==> a in catalog.attributes
    ensures
      var es := SubMatched(catalog, norm, names, fields, start);
      Made(catalog, all, es) && Apart(all, es)
  {
    hide Made, Apart, SubsMatched, HasSource;
    if fields != [] {
      var rest, field := fields[..|fields| - 1], fields[|fields| - 1];
      SubMatchedIsMade(catalog, norm, names, all, rest, start);
      var es := SubMatched(catalog, norm, names, rest, start);
      if TakesSubFields(field.kind) && !HasSource(es, field.name) {
        SubsMatchedIsMade(catalog, norm, names, all, es, field, field.subs);
      }
    }
  }

  lemma OnlyWholeIsApart(catalog: Catalog, fields: seq<SourceField>, es: seq<Entry>)
    requires OnlyWhole(catalog, fields, es)
    ensures Apart(fields, es)
  {
    forall i | 0 <= i < |es| ensures NamesField(fields, es[i].source) {
      assert WholeEntry(catalog, fields, es[i]);
    }
  }

  lemma AutoMatchedIsMade(
    fields: seq<SourceField>, catalog: Catalog, norm: string -> string, synonyms: map<string, string>)
    requires WellNamed(catalog, fields)
    ensures Made(catalog, fields, AutoMatched(fields, catalog, norm, synonyms, []))
    ensures Apart(fields, AutoMatched(fields, catalog, norm, synonyms, []))
  {
    hide WholeMatched, SubMatched, Apart, OnlyWhole, ByNormalized;
    var names := ByNormalized(catalog.order, norm);
    var first := WholeMatched(catalog, norm, names, fields, []);
    var second := WholeMatched(catalog, norm, synonyms, fields, first);
    NothingIsMade(catalog, fields);
    WholeMatchedIsMade(catalog, norm, names, fields, fields, []);
    WholeMatchedIsMade(catalog, norm, synonyms, fields, fields, first);
    OnlyWholeIsApart(catalog, fields, second);
    SubMatchedIsMade(catalog, norm, names, fields, fields, second);
  }

  lemma NothingIsMade(catalog: Catalog, fields: seq<SourceField>)
    ensures Made(catalog, fields, []) && OnlyWhole(catalog, fields, [])
  {
  }

  /** The fields by name, as the validator looks them up. */
  ghost predicate NamedBy(known: map<string, SourceField>, fields: seq<SourceField>) {
    && (forall f :: f in fields ==> f.name in known && known[f.name] == f)
    && (forall n :: n in known ==> known[n] in fields && known[n].name == n)
  }

  lemma WholeEntryOk(
    catalog: Catalog, fields: seq<SourceField>, known: map<string, SourceField>, custom: Option<set<string>>,
    mapped: set<string>, e: Entry)
    requires WellNamed(catalog, fields) && NamedBy(known, fields) && WholeEntry(catalog, fields, e)
    ensures EntryOk(catalog.attributes, known, custom, mapped, e)
  {
    AttrParses(catalog, fields, e.target, None);
  }

  lemma SubEntryOk(
    catalog: Catalog, fields: seq<SourceField>, known: map<string, SourceField>, custom: Option<set<string>>,
    mapped: set<string>, e: Entry, f: SourceField, sub: string, attr: string, attrSub: Option<string>)
    requires WellNamed(catalog, fields) && NamedBy(known, fields) && f in fields
    requires SubEntryFor(catalog, f, sub, attr, attrSub, e) && f.name !in mapped
    ensures EntryOk(catalog.attributes, known, custom, mapped, e)
  {
    hide Parse;
    assert DotFree(f.name) && DotFree(sub);
    SplitTwo(f.name, sub);
    AttrParses(catalog, fields, attr, attrSub);
    if e.source in known {
      assert known[e.source] in fields && DotFree(e.source);
      SplitDotFree(e.source);
      assert false;
    }
  }

  /** Started from no manual entries, over well-named fields and attributes, the matcher always
      makes a mapping the validator accepts without error, whatever the normalization, the
      synonyms and the custom fields. */
  lemma AutoMatchIsAccepted(
    fields: seq<SourceField>, catalog: Catalog, norm: string -> string, synonyms: map<string, string>,
    known: map<string, SourceField>, custom: Option<set<string>>)
    requires WellNamed(catalog, fields) && NamedBy(known, fields)
    ensures
      var es := AutoMatched(fields, catalog, norm, synonyms, []);
      Checked(catalog.attributes, known, custom, Sources(es), es).1 == []
  {
    hide AutoMatched, Checked, EntryOk, NoClash;
    var es := AutoMatched(fields, catalog, norm, synonyms, []);
    AutoMatchedIsMade(fields, catalog, norm, synonyms);
    assert NoClash(es);
    forall i | 0 <= i < |es| ensures EntryOk(catalog.attributes, known, custom, Sources(es), es[i]) {
      if WholeEntry(catalog, fields, es[i]) {
        WholeEntryOk(catalog, fields, known, custom, Sources(es), es[i]);
      } else {
        var f, sub, attr, attrSub :| f in fields && SubEntryFor(catalog, f, sub, attr, attrSub, es[i]);
        SubParentNotMapped(catalog, fields, es, i, f, sub);
        SubEntryOk(catalog, fields, known, custom, Sources(es), es[i], f, sub, attr, attrSub);
      }
    }
    AcceptedIff(catalog.attributes, known, custom, Sources(es), es);
  }

  lemma SubParentNotMapped(
    catalog: Catalog, fields: seq<SourceField>, es: seq<Entry>, i: nat, f: SourceField, sub: string)
    requires WellNamed(catalog, fields) && Apart(fields, es) && i < |es| && f in fields && sub in f.subs
    requires es[i].source == f.name + "." + sub
    ensures f.name !in Sources(es)
  {
    SplitTwo(f.name, sub);
    if NamesField(fields, es[i].source) {
      var g :| g in fields && es[i].source == g.name;
      SplitDotFree(g.name);
      assert false;
    }
    var g, s :| g in fields && s in g.subs && es[i].source == g.name + "." + s && !HasSource(es, g.name);
    SplitTwo(g.name, s);
    assert g.name == f.name;
  }

  // ----- Priority -----

  ghost predicate Wants(
    catalog: Catalog, norm: string -> string, names: map<string, string>, f: SourceField, target: string)
  {
    && norm(f.name) in names && names[norm(f.name)] == target && target in catalog.attributes
    && Compatible(f.kind, catalog.attributes[target].kind)
  }

  ghost predicate WantedBy(
    catalog: Catalog, norm: string -> string, names: map<string, string>, fields: seq<SourceField>, e: Entry)
  {
    exists f :: f in fields && e.source == f.name && Wants(catalog, norm, names, f, e.target)
  }

  lemma {:induction false} MatchedAreWanted(
    catalog: Catalog, norm: string -> string, names: map<string, string>, fields: seq<SourceField>, start: seq<Entry>)
    ensures forall e :: e in WholeMatched(catalog, norm, names, fields, start) ==>
      e in start || WantedBy(catalog, norm, names, fields, e)
  {
    if fields != [] {
      var rest, last := fields[..|fields| - 1], fields[|fields| - 1];
      MatchedAreWanted(catalog, norm, names, rest, start);
      assert fields == rest + [last];
      var before := WholeMatched(catalog, norm, names, rest, start);
      forall e | e in WholeMatched(catalog, norm, names, fields, start)
        ensures e in start || WantedBy(catalog, norm, names, fields, e)
      {
        if e in before {
          assert e in start || WantedBy(catalog, norm, names, rest, e);
        } else {
          assert last in fields && Wants(catalog, norm, names, last, e.target);
        }
      }
    }
  }

  lemma {:induction false} MatchesStay(
    catalog: Catalog, norm: string -> string, names: map<string, string>, fields: seq<SourceField>, n: nat,
    start: seq<Entry>)
    requires n <= |fields|
    ensures WholeMatched(catalog, norm, names, fields[..n], start) <= WholeMatched(catalog, norm, names, fields, start)
    decreases |fields|
  {
    if n < |fields| {
      var rest := fields[..|fields| - 1];
      assert rest[..n] == fields[..n];
      MatchesStay(catalog, norm, names, rest, n, start);
    } else {
      assert fields[..n] == fields;
    }
  }

  lemma {:induction false} SubsMatchedGrows(
    catalog: Catalog, norm: string -> string, names: map<string, string>, es: seq<Entry>, field: SourceField,
    subs: seq<string>)
    requires forall a :: a in catalog.order ==> a in catalog.attributes
    ensures es <= SubsMatched(catalog, norm, names, es, field, subs)
  {
    if subs != [] { SubsMatchedGrows(catalog, norm, names, es, field, subs[..|subs| - 1]); }
  }

  lemma {:induction false} SubMatchedGrows(
    catalog: Catalog, norm: string -> string, names: map<string, string>, fields: seq<SourceField>, start: seq<Entry>)
    requires forall a :: a in catalog.order ==> a in catalog.attributes
    ensures start <= SubMatched(catalog, norm, names, fields, start)
  {
    hide SubsMatched;
    if fields != [] {
      var rest, field := fields[..|fields| - 1], fields[|fields| - 1];
      SubMatchedGrows(catalog, norm, names, rest, start);
      SubsMatchedGrows(catalog, norm, names, SubMatched(catalog, norm, names, rest, start), field, field.subs);
    }
  }

  /** Entries that are there before stay as they are, ahead of the matches. */
  lemma ExistingEntriesStay(
    fields: seq<SourceField>, catalog: Catalog, norm: string -> string, synonyms: map<string, string>,
    existing: seq<Entry>)
    requires forall a :: a in catalog.order ==> a in catalog.attributes
    ensures existing <= AutoMatched(fields, catalog, norm, synonyms, existing)
  {
    hide WholeMatched, SubMatched;
    var names := ByNormalized(catalog.order, norm);
    var first := WholeMatched(catalog, norm, names, fields, existing);
    assert fields[..0] == [];
    NothingMatched(catalog, norm, names, existing);
    NothingMatched(catalog, norm, synonyms, first);
    MatchesStay(catalog, norm, names, fields, 0, existing);
    MatchesStay(catalog, norm, synonyms, fields, 0, first);
    SubMatchedGrows(catalog, norm, names, fields, WholeMatched(catalog, norm, synonyms, fields, first));
  }

  lemma NothingMatched(catalog: Catalog, norm: string -> string, names: map<string, string>, start: seq<Entry>)
    ensures WholeMatched(catalog, norm, names, [], start) == start
  {
  }

  /** Within a pass, whatever is mapped before it, the first source field, in order, that fits an
      attribute gets it, if it may claim it at the start of the pass. */
  lemma FirstMatchWins(
    catalog: Catalog, norm: string -> string, names: map<string, string>, fields: seq<SourceField>, start: seq<Entry>,
    i: nat, target: string)
    requires WellNamed(catalog, fields) && i < |fields| && Wants(catalog, norm, names, fields[i], target)
    requires CanClaim(catalog, start, fields[i], target) && !HasSubMapping(start, fields[i])
    requires forall j :: 0 <= j < i ==> !Wants(catalog, norm, names, fields[j], target)
    ensures Entry(fields[i].name, target) in WholeMatched(catalog, norm, names, fields, start)
  {
    hide Parse;
    var earlier, field := fields[..i], fields[i];
    var es := WholeMatched(catalog, norm, names, earlier, start);
    MatchedAreWanted(catalog, norm, names, earlier, start);
    forall k | 0 <= k < |es|
      ensures es[k].source != field.name && es[k].target != target
      ensures !StartsWith(es[k].target, target + ".") && !StartsWith(es[k].source, field.name + ".")
    {
      if es[k] in start {
        var m :| 0 <= m < |start| && start[m] == es[k];
      } else {
        assert es[k] in es && WantedBy(catalog, norm, names, earlier, es[k]);
        var f :| f in earlier && es[k].source == f.name && Wants(catalog, norm, names, f, es[k].target);
        var j :| 0 <= j < i && fields[j] == f;
        AttrParses(catalog, fields, es[k].target, None);
        DotFreeHasNoPrefix(es[k].target, target);
        DotFreeHasNoPrefix(f.name, field.name);
      }
    }
    assert fields[..i + 1][..i] == earlier;
    assert Entry(field.name, target) in WholeMatched(catalog, norm, names, fields[..i + 1], start);
    MatchesStay(catalog, norm, names, fields, i + 1, start);
  }

  lemma DotFreeHasNoPrefix(s: string, head: string)
    requires DotFree(s)
    ensures !StartsWith(s, head + ".")
  {
    var prefix := head + ".";
    if |prefix| <= |s| { assert s[|head|] != prefix[|head|]; }
  }
}
