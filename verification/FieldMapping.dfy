/** The validator of saved field mappings, and exactly what it accepts. */
module FieldMapping {
  import opened AttributeKinds
  import opened IndexedPath
  import opened Mapping
  import opened Texts
  import opened Wrappers

  datatype SourceField = SourceField(name: string, kind: Kind, subs: seq<string>)

  /** One saved mapping, in the order the request lists them. */
  datatype Entry = Entry(source: string, target: string)

  datatype Error =
    | InvalidTarget(source: string)
    | UnknownAttribute(source: string)
    | NotRepeated(source: string)
    | NotRepeatedStructured(source: string)
    | NoSubFields(source: string)
    | UnknownTargetSub(source: string)
    | IncompatibleKind(source: string)
    | Overlap(source: string)
    | AlreadyClaimed(source: string)
    | UnknownSource(source: string)
    | InvalidSource(source: string)
    | ParentMapped(source: string)
    | NotStructuredSource(source: string)
    | UnknownSourceSub(source: string)

  predicate TakesSubFields(kind: Kind) {
    kind == Structured || kind == RepeatedStructured
  }

  predicate Compatible(source: Kind, target: Kind) {
    match source
    case Scalar => target == Scalar || target == RepeatedScalar
    case RepeatedScalar => target == RepeatedScalar
    case Structured => target == Structured || target == RepeatedStructured
    case RepeatedStructured => target == RepeatedStructured
  }

  /** The kind a sub-field of a structured source counts as. */
  function Effective(kind: Kind): Kind {
    match kind
    case Structured => Scalar
    case RepeatedStructured => RepeatedScalar
    case _ => kind
  }

  predicate HasDot(s: string) {
    |Split(s)| > 1
  }

  // ----- One entry -----

  /** What is wrong with a target taken by itself. */
  function TargetError(registry: Registry, e: Entry, kind: Option<Kind>): Option<Error> {
    match Parse(e.target)
    case None => Some(InvalidTarget(e.source))
    case Some(p) =>
      if p.attr !in registry then Some(UnknownAttribute(e.source))
      else
        var attribute := registry[p.attr];
        if p.index.Some? then
          if attribute.kind != RepeatedScalar && attribute.kind != RepeatedStructured then Some(NotRepeated(e.source))
          else if p.sub.Some? && attribute.kind != RepeatedStructured then Some(NotRepeatedStructured(e.source))
          else if p.sub.Some? && p.sub.value !in attribute.subs then Some(UnknownTargetSub(e.source))
          else None
        else if p.sub.Some? then
          if !TakesSubFields(attribute.kind) then Some(NoSubFields(e.source))
          else if p.sub.value !in attribute.subs then Some(UnknownTargetSub(e.source))
          else None
        else if kind.Some? && !Compatible(kind.value, attribute.kind) then Some(IncompatibleKind(e.source))
        else None
  }

  /** An earlier claim a later target may not be combined with. Indexed targets clash only with
      themselves. */
  predicate Clash(earlier: string, later: string)
    requires Parse(later).Some?
  {
    var p := Parse(later).value;
    || earlier == later
    || (p.index.None? && p.sub.Some? && earlier == p.attr)
    || (p.index.None? && p.sub.None? && HasDot(earlier) && Parse(earlier).Some? && Parse(earlier).value.index.None?
        && StartsWith(earlier, p.attr + "."))
  }

  /** A source as the validator reads it: the kind its target is checked against, or an error. */
  function SourceKind(
    fields: map<string, SourceField>, custom: Option<set<string>>, mapped: set<string>, source: string)
    : (Option<Kind>, Option<Error>)
  {
    var parts := Split(source);
    if source in fields then (Some(fields[source].kind), None)
    else if |parts| == 1 || (|parts| == 2 && parts[1] == "") then
      if custom.Some? && source !in custom.value then (None, Some(UnknownSource(source))) else (None, None)
    else if |parts| > 2 then (None, Some(InvalidSource(source)))
    else if parts[0] in mapped && parts[0] in fields then (None, Some(ParentMapped(source)))
    else if parts[0] !in fields then (None, Some(UnknownSource(source)))
    else if !TakesSubFields(fields[parts[0]].kind) then (None, Some(NotStructuredSource(source)))
    else if parts[1] !in fields[parts[0]].subs then (None, Some(UnknownSourceSub(source)))
    else (Some(Effective(fields[parts[0]].kind)), None)
  }

  function Sources(es: seq<Entry>): set<string> {
    set i | 0 <= i < |es| :: es[i].source
  }

  // ----- The loop -----

  /** The claims after `es` and the errors reported for them. */
  function Checked(
    registry: Registry, fields: map<string, SourceField>, custom: Option<set<string>>, mapped: set<string>,
    es: seq<Entry>)
    : (set<string>, seq<Error>)
  {
    if es == [] then ({}, [])
    else
      var (claimed, errors) := Checked(registry, fields, custom, mapped, es[..|es| - 1]);
      var e := es[|es| - 1];
      var (kind, wrong) := SourceKind(fields, custom, mapped, e.source);
      if wrong.Some? then (claimed, errors + [wrong.value])
      else
        var bad := TargetError(registry, e, kind);
        if bad.Some? then (claimed, errors + [bad.value])
        else if exists t :: t in claimed && t != e.target && Clash(t, e.target)
        then (claimed, errors + [Overlap(e.source)])
        else if e.target in claimed then (claimed, errors + [AlreadyClaimed(e.source)])
        else (claimed + {e.target}, errors)
  }

  method CheckTarget(registry: Registry, claimed: set<string>, e: Entry, kind: Option<Kind>)
    returns (error: Option<Error>)
    ensures
      var bad := TargetError(registry, e, kind);
      error ==
        if bad.Some? then bad
        else if exists t :: t in claimed && t != e.target && Clash(t, e.target) then Some(Overlap(e.source))
        else if e.target in claimed then Some(AlreadyClaimed(e.source))
        else None
  {
    error := TargetError(registry, e, kind);
    if error.Some? { return; }
    var p := Parse(e.target).value;
    if p.index.None? && p.sub.Some? && p.attr in claimed {
      assert p.attr != e.target ==> Clash(p.attr, e.target);
      if p.attr == e.target { AttrIsNotItsSub(e.target); }
      return Some(Overlap(e.source));
    }
    if p.index.None? && p.sub.None? {
      var rest := claimed;
      while rest != {}
        invariant rest <= claimed
        invariant forall t :: t in claimed - rest && t != e.target ==> !Clash(t, e.target)
        decreases |rest|
      {
        var t :| t in rest;
        rest := rest - {t};
        if HasDot(t) {
          var q := Parse(t);
          if q.Some? && q.value.index.None? && StartsWith(t, p.attr + ".") {
            WholeHasNoDot(e.target);
            return Some(Overlap(e.source));
          }
        }
      }
    }
    if e.target in claimed { return Some(AlreadyClaimed(e.source)); }
  }

  lemma AttrIsNotItsSub(target: string)
    requires Parse(target).Some? && Parse(target).value.sub.Some?
    ensures Parse(target).value.attr != target
  {
    hide Split;
    SplitPartsAreDotFree(target);
    SplitDotFree(Parse(target).value.attr);
  }

  lemma WholeHasNoDot(target: string)
    requires Parse(target).Some? && Parse(target).value.sub.None? && Parse(target).value.index.None?
    ensures !HasDot(target)
  {
  }

  method ValidateMappings(
      registry: Registry, fields: map<string, SourceField>, custom: Option<set<string>>, es: seq<Entry>)
    returns (errors: seq<Error>)
    ensures errors == Checked(registry, fields, custom, Sources(es), es).1
  {
    errors := [];
    var claimed: set<string> := {};
    for i := 0 to |es|
      invariant (claimed, errors) == Checked(registry, fields, custom, Sources(es), es[..i])
    {
      assert es[..i + 1][..i] == es[..i];
      var (kind, wrong) := SourceKind(fields, custom, Sources(es), es[i].source);
      if wrong.Some? {
        errors := errors + [wrong.value];
      } else {
        var error := CheckTarget(registry, claimed, es[i], kind);
        if error.Some? { errors := errors + [error.value]; } else { claimed := claimed + {es[i].target}; }
      }
    }
    assert es[..|es|] == es;
  }

  // ----- What is accepted -----

  ghost predicate EntryOk(
    registry: Registry, fields: map<string, SourceField>, custom: Option<set<string>>, mapped: set<string>, e: Entry)
  {
    var (kind, wrong) := SourceKind(fields, custom, mapped, e.source);
    wrong.None? && TargetError(registry, e, kind).None?
  }

  ghost predicate AllOk(
    registry: Registry, fields: map<string, SourceField>, custom: Option<set<string>>, mapped: set<string>,
    es: seq<Entry>)
  {
    forall i :: 0 <= i < |es| ==> EntryOk(registry, fields, custom, mapped, es[i])
  }

  ghost predicate NoClash(es: seq<Entry>) {
    forall i, j :: 0 <= i < j < |es| && Parse(es[j].target).Some? ==> !Clash(es[i].target, es[j].target)
  }

  function Targets(es: seq<Entry>): set<string> {
    set i | 0 <= i < |es| :: es[i].target
  }

  lemma OkTargetParses(registry: Registry, e: Entry, kind: Option<Kind>)
    requires TargetError(registry, e, kind).None?
    ensures Parse(e.target).Some?
  {
  }

  lemma NoClashOneMore(es: seq<Entry>, e: Entry)
    requires Parse(e.target).Some?
    ensures NoClash(es + [e]) <==> NoClash(es) && forall t :: t in Targets(es) ==> !Clash(t, e.target)
    ensures Targets(es + [e]) == Targets(es) + {e.target}
  {
    hide Clash, Parse;
    var longer := es + [e];
    if NoClash(es) && forall t :: t in Targets(es) ==> !Clash(t, e.target) {
      forall i, j | 0 <= i < j < |longer| && Parse(longer[j].target).Some?
        ensures !Clash(longer[i].target, longer[j].target)
      {
        if j == |es| { assert es[i].target in Targets(es); }
      }
    }
    if NoClash(longer) {
      forall i, j | 0 <= i < j < |es| && Parse(es[j].target).Some? ensures !Clash(es[i].target, es[j].target) {
        assert longer[i] == es[i] && longer[j] == es[j];
      }
      forall t | t in Targets(es) ensures !Clash(t, e.target) {
        var i :| 0 <= i < |es| && es[i].target == t;
        assert longer[i] == es[i] && longer[|es|] == e;
      }
    }
    forall t ensures t in Targets(longer) <==> t in Targets(es) || t == e.target {
      if t in Targets(es) {
        var i :| 0 <= i < |es| && es[i].target == t;
        assert longer[i].target == t;
      }
      if t == e.target { assert longer[|es|].target == t; }
    }
  }

  /** A mapping is accepted without error exactly when every entry is right by itself and no
      target clashes with an earlier one. */
  lemma {:induction false} AcceptedIff(
    registry: Registry, fields: map<string, SourceField>, custom: Option<set<string>>, mapped: set<string>,
    es: seq<Entry>)
    ensures Checked(registry, fields, custom, mapped, es).1 == [] <==>
      AllOk(registry, fields, custom, mapped, es) && NoClash(es)
    ensures Checked(registry, fields, custom, mapped, es).1 == [] ==>
      Checked(registry, fields, custom, mapped, es).0 == Targets(es)
  {
    hide TargetError, Parse, NoClash, Targets, Clash, AllOk;
    if es != [] {
      var rest, e := es[..|es| - 1], es[|es| - 1];
      assert es == rest + [e];
      AcceptedIff(registry, fields, custom, mapped, rest);
      if EntryOk(registry, fields, custom, mapped, e) {
        OkTargetParses(registry, e, SourceKind(fields, custom, mapped, e.source).0);
        NoClashOneMore(rest, e);
        SelfClash(e.target);
      }
      PrefixOk(registry, fields, custom, mapped, rest, e);
    } else {
      NothingClashes();
      NothingWrong(registry, fields, custom, mapped);
    }
  }

  lemma SelfClash(t: string)
    requires Parse(t).Some?
    ensures Clash(t, t)
  {
  }

  lemma NothingClashes()
    ensures NoClash([]) && Targets([]) == {}
  {
  }

  lemma NothingWrong(
    registry: Registry, fields: map<string, SourceField>, custom: Option<set<string>>, mapped: set<string>)
    ensures AllOk(registry, fields, custom, mapped, [])
  {
  }

  lemma PrefixOk(
    registry: Registry, fields: map<string, SourceField>, custom: Option<set<string>>, mapped: set<string>,
    es: seq<Entry>, e: Entry)
    ensures AllOk(registry, fields, custom, mapped, es + [e]) <==>
      AllOk(registry, fields, custom, mapped, es) && EntryOk(registry, fields, custom, mapped, e)
    ensures NoClash(es + [e]) ==> NoClash(es)
  {
    hide EntryOk;
    var longer := es + [e];
    assert longer[|es|] == e && forall i :: 0 <= i < |es| ==> longer[i] == es[i];
  }
}
