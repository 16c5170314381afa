/** What each error of the validator of field mappings means, and which entries of a request get
    which. */
module EntryErrors {
  import opened AttributeKinds
  import opened FieldMapping
  import opened IndexedPath
  import opened KindFit
  import opened Mapping
  import opened Texts
  import opened Wrappers

  // ----- Sources -----

  type Fields = map<string, SourceField>

  /** A name without a dot, or with a dot at its end only. */
  ghost predicate Bare(source: string) {
    DotFree(source) || exists name :: DotFree(name) && source == name + "."
  }

  ghost predicate SubOf(source: string, parent: string, sub: string) {
    DotFree(parent) && DotFree(sub) && sub != "" && source == parent + "." + sub
  }

  /** A source that is no field of the feed gets an error; None: it is read, as a custom field or as
      a sub-field. */
  ghost predicate SourceIs(fields: Fields, custom: Option<set<string>>, mapped: set<string>, source: string,
      error: Option<Error>)
  {
    if source in fields then error == None
    else if Bare(source) then
      error == if custom == None || source in custom.value then None else Some(UnknownSource(source))
    else if exists parent, sub :: SubOf(source, parent, sub) then
      exists parent, sub :: SubOf(source, parent, sub) && SubFieldIs(fields, mapped, source, parent, sub, error)
    else error == Some(InvalidSource(source))
  }

  ghost predicate SubFieldIs(fields: Fields, mapped: set<string>, source: string, parent: string, sub: string,
      error: Option<Error>)
  {
    match error
    case None =>
      parent in fields && parent !in mapped && fields[parent].kind !in {Scalar, RepeatedScalar}
        && sub in fields[parent].subs
    case Some(UnknownSource(s)) => s == source && parent !in fields
    case Some(ParentMapped(s)) => s == source && parent in fields && parent in mapped
    case Some(NotStructuredSource(s)) =>
      s == source && parent in fields && parent !in mapped && fields[parent].kind in {Scalar, RepeatedScalar}
    case Some(UnknownSourceSub(s)) =>
      s == source && parent in fields && parent !in mapped && fields[parent].kind !in {Scalar, RepeatedScalar}
      && sub !in fields[parent].subs
    case _ => false
  }

  lemma BareIff(source: string)
    ensures Bare(source) <==> |Split(source)| == 1 || (|Split(source)| == 2 && Split(source)[1] == "")
  {
    hide Split;
    PartsSpell(source);
    if DotFree(source) { SplitDotFree(source); }
    forall name | DotFree(name) && source == name + "." ensures Split(source) == [name, ""] {
      assert source == name + "." + "";
      SplitTwo(name, "");
    }
    if |Split(source)| == 2 && Split(source)[1] == "" { assert source == Split(source)[0] + "."; }
  }

  lemma SubOfIff(source: string, parent: string, sub: string)
    ensures SubOf(source, parent, sub) <==> Split(source) == [parent, sub] && sub != ""
  {
    hide Split;
    PartsSpell(source);
    if SubOf(source, parent, sub) { SplitTwo(parent, sub); }
    if Split(source) == [parent, sub] {
      assert Split(source)[0] == parent && Split(source)[1] == sub;
    }
  }

  lemma SourceIff(fields: Fields, custom: Option<set<string>>, mapped: set<string>, source: string,
      error: Option<Error>)
    ensures SourceKind(fields, custom, mapped, source).1 == error <==> SourceIs(fields, custom, mapped, source, error)
  {
    hide Split, Bare, SubOf;
    BareIff(source);
    var parts := Split(source);
    if |parts| == 2 {
      assert parts == [parts[0], parts[1]];
      SubOfIff(source, parts[0], parts[1]);
      forall parent, sub | SubOf(source, parent, sub) ensures parent == parts[0] && sub == parts[1] {
        SubOfIff(source, parent, sub);
      }
    } else {
      forall parent, sub ensures !SubOf(source, parent, sub) { SubOfIff(source, parent, sub); }
    }
  }

  /** The kind a source is known to have: that of its field, or that of what a sub-field yields. */
  ghost predicate FitsWhole(fields: Fields, source: string, target: Kind) {
    if source in fields then KindFits(fields[source].kind, target)
    else forall parent, sub :: SubOf(source, parent, sub) && parent in fields ==>
      SubKindFits(fields[parent].kind, target)
  }

  lemma FitsWholeIff(fields: Fields, custom: Option<set<string>>, mapped: set<string>, source: string, target: Kind)
    requires SourceKind(fields, custom, mapped, source).1.None?
    ensures
      var kind := SourceKind(fields, custom, mapped, source).0;
      FitsWhole(fields, source, target) <==> (kind.Some? ==> Compatible(kind.value, target))
  {
    hide Split, SubOf, Compatible, KindFits, SubKindFits;
    var parts := Split(source);
    if source in fields {
      CompatibleIff(fields[source].kind, target);
    } else {
      if |parts| == 2 { SubOfIff(source, parts[0], parts[1]); }
      forall parent, sub | SubOf(source, parent, sub)
        ensures parts == [parent, sub] && sub != ""
      {
        SubOfIff(source, parent, sub);
      }
      if |parts| == 2 && parts[1] != "" {
        assert parts == [parts[0], parts[1]];
        CompatibleSubIff(fields[parts[0]].kind, target);
      }
    }
  }

  // ----- Targets -----

  ghost predicate TargetNames(target: string, p: Path) {
    Spells(target, p) && WellFormed(p)
  }

  ghost predicate Repeats(kind: Kind) {
    kind in {RepeatedScalar, RepeatedStructured}
  }

  /** What is wrong with a target that names a path. `fits` says whether the source fits the whole
      attribute. */
  ghost predicate TargetIs(registry: Registry, p: Path, source: string, fits: bool, error: Option<Error>) {
    if p.attr !in registry then error == Some(UnknownAttribute(source))
    else
      var kind, subs := registry[p.attr].kind, registry[p.attr].subs;
      match error
      case None =>
        && (p.index.Some? ==> Repeats(kind)) && (p.index.Some? && p.sub.Some? ==> kind == RepeatedStructured)
        && (p.sub.Some? ==> kind !in {Scalar, RepeatedScalar} && p.sub.value in subs)
        && (p.index.None? && p.sub.None? ==> fits)
      case Some(NotRepeated(s)) => s == source && p.index.Some? && !Repeats(kind)
      case Some(NotRepeatedStructured(s)) => s == source && p.index.Some? && p.sub.Some? && kind == RepeatedScalar
      case Some(NoSubFields(s)) => s == source && p.index.None? && p.sub.Some? && kind in {Scalar, RepeatedScalar}
      case Some(UnknownTargetSub(s)) =>
        && s == source && p.sub.Some? && p.sub.value !in subs
        && if p.index.Some? then kind == RepeatedStructured else kind in {Structured, RepeatedStructured}
      case Some(IncompatibleKind(s)) => s == source && p.index.None? && p.sub.None? && !fits
      case _ => false
  }

  lemma TargetIff(registry: Registry, e: Entry, kind: Option<Kind>, error: Option<Error>)
    ensures TargetError(registry, e, kind) == error <==>
      if exists p :: TargetNames(e.target, p) then
        exists p :: TargetNames(e.target, p) &&
          TargetIs(registry, p, e.source,
            p.attr in registry && (kind.Some? ==> Compatible(kind.value, registry[p.attr].kind)), error)
      else error == Some(InvalidTarget(e.source))
  {
    hide Parse, Spells, WellFormed, Compatible;
    forall p ensures TargetNames(e.target, p) <==> Parse(e.target) == Some(p) { ParseIff(e.target, p); }
  }

  // ----- Clashes -----

  /** One target is the whole of an attribute, the other a sub-field of it, both without an index. */
  ghost predicate WholeAndPart(whole: string, part: string) {
    exists attr, sub :: TargetNames(whole, Path(attr, None, None)) && TargetNames(part, Path(attr, None, Some(sub)))
  }

  lemma ClashIff(earlier: string, later: string)
    requires Parse(later).Some?
    ensures Clash(earlier, later) <==>
      earlier == later || WholeAndPart(earlier, later) || WholeAndPart(later, earlier)
  {
    hide Parse, Split, WholeAndPart;
    PartClash(earlier, later);
    WholeClash(earlier, later);
  }

  lemma PartClash(earlier: string, later: string)
    requires Parse(later).Some?
    ensures
      var p := Parse(later).value;
      WholeAndPart(earlier, later) <==> p.index.None? && p.sub.Some? && earlier == p.attr
  {
    hide Parse, Split;
    var p := Parse(later).value;
    ParseIff(later, p);
    forall attr, sub | TargetNames(later, Path(attr, None, Some(sub))) ensures p == Path(attr, None, Some(sub)) {
      ParseIff(later, Path(attr, None, Some(sub)));
    }
    if p.index.None? && p.sub.Some? && earlier == p.attr {
      assert TargetNames(earlier, Path(p.attr, None, None));
      assert TargetNames(later, Path(p.attr, None, Some(p.sub.value)));
    }
  }

  lemma WholeClash(earlier: string, later: string)
    requires Parse(later).Some?
    ensures
      var p := Parse(later).value;
      WholeAndPart(later, earlier) <==>
        p.index.None? && p.sub.None? && HasDot(earlier) && Parse(earlier).Some? && Parse(earlier).value.index.None?
        && StartsWith(earlier, p.attr + ".")
  {
    hide Parse, Split;
    var p := Parse(later).value;
    ParseIff(later, p);
    if WholeAndPart(later, earlier) {
      var attr, sub :| TargetNames(later, Path(attr, None, None)) && TargetNames(earlier, Path(attr, None, Some(sub)));
      ParseIff(later, Path(attr, None, None));
      ParseIff(earlier, Path(attr, None, Some(sub)));
      SplitTwo(attr, sub);
      assert earlier == attr + "." + sub;
      assert earlier[..|attr + "."|] == attr + ".";
    }
    if p.index.None? && p.sub.None? && HasDot(earlier) && Parse(earlier).Some? && Parse(earlier).value.index.None?
      && StartsWith(earlier, p.attr + ".") {
      var q := Parse(earlier).value;
      ParseIff(earlier, q);
      SpelledParts(earlier, q);
      assert q.sub.Some?;
      SameFront(q.attr, q.sub.value, p.attr, earlier);
      assert TargetNames(later, Path(q.attr, None, None))
        && TargetNames(earlier, Path(q.attr, None, Some(q.sub.value)));
    }
  }

  lemma SameFront(a: string, sub: string, b: string, s: string)
    requires DotFree(a) && DotFree(b) && s == a + "." + sub && StartsWith(s, b + ".")
    ensures a == b
  {
    var tail := s[|b + "."|..];
    assert s == b + "." + tail;
    SplitAtDot(a, sub);
    SplitAtDot(b, tail);
    assert Split(s)[0] == a && Split(b + "." + tail)[0] == b;
  }

  // ----- A whole request -----

  type Found = seq<Option<Error>>

  /** What an entry gets by itself. */
  ghost predicate OwnError(registry: Registry, fields: Fields, custom: Option<set<string>>, mapped: set<string>,
      e: Entry, error: Option<Error>)
  {
    if !SourceIs(fields, custom, mapped, e.source, None) then SourceIs(fields, custom, mapped, e.source, error)
    else if exists p :: TargetNames(e.target, p) then
      exists p :: TargetNames(e.target, p) &&
        TargetIs(registry, p, e.source,
          p.attr in registry && FitsWhole(fields, e.source, registry[p.attr].kind), error)
    else error == Some(InvalidTarget(e.source))
  }

  ghost predicate Overlaps(es: seq<Entry>, found: Found, i: nat)
    requires i < |es| <= |found|
  {
    exists j: nat :: j < i && found[j].None?
      && (WholeAndPart(es[j].target, es[i].target) || WholeAndPart(es[i].target, es[j].target))
  }

  ghost predicate Repeated(es: seq<Entry>, found: Found, i: nat)
    requires i < |es| <= |found|
  {
    exists j: nat :: j < i && found[j].None? && es[j].target == es[i].target
  }

  /** An entry that is right by itself is held against the earlier entries without an error. */
  ghost predicate EntryGets(registry: Registry, fields: Fields, custom: Option<set<string>>, mapped: set<string>,
      es: seq<Entry>, found: Found, i: nat)
    requires i < |es| <= |found|
  {
    if !OwnError(registry, fields, custom, mapped, es[i], None) then
      OwnError(registry, fields, custom, mapped, es[i], found[i])
    else if Overlaps(es, found, i) then found[i] == Some(Overlap(es[i].source))
    else if Repeated(es, found, i) then found[i] == Some(AlreadyClaimed(es[i].source))
    else found[i] == None
  }

  function Somes(found: Found): seq<Error> {
    if found == [] then []
    else Somes(found[..|found| - 1]) + if found[|found| - 1].Some? then [found[|found| - 1].value] else []
  }

  ghost predicate Gets(registry: Registry, fields: Fields, custom: Option<set<string>>, mapped: set<string>,
      es: seq<Entry>, found: Found)
  {
    && |found| == |es|
    && forall i: nat | i < |es| :: EntryGets(registry, fields, custom, mapped, es, found, i)
  }

  function EntryError(registry: Registry, fields: Fields, custom: Option<set<string>>, mapped: set<string>, e: Entry)
    : Option<Error>
  {
    var (kind, wrong) := SourceKind(fields, custom, mapped, e.source);
    if wrong.Some? then wrong else TargetError(registry, e, kind)
  }

  lemma OwnErrorIff(registry: Registry, fields: Fields, custom: Option<set<string>>, mapped: set<string>,
      e: Entry, error: Option<Error>)
    ensures OwnError(registry, fields, custom, mapped, e, error) <==>
      error == EntryError(registry, fields, custom, mapped, e)
  {
    hide SourceKind, TargetError, SourceIs, TargetIs, TargetNames, FitsWhole, Compatible;
    SourceIff(fields, custom, mapped, e.source, None);
    SourceIff(fields, custom, mapped, e.source, error);
    var kind := SourceKind(fields, custom, mapped, e.source).0;
    if SourceIs(fields, custom, mapped, e.source, None) {
      TargetIff(registry, e, kind, error);
      forall p: Path | p.attr in registry
        ensures FitsWhole(fields, e.source, registry[p.attr].kind) <==>
          (kind.Some? ==> Compatible(kind.value, registry[p.attr].kind))
      {
        FitsWholeIff(fields, custom, mapped, e.source, registry[p.attr].kind);
      }
    }
  }

  ghost predicate Claims(es: seq<Entry>, found: Found, claimed: set<string>)
    requires |found| == |es|
  {
    forall t :: t in claimed <==> exists j: nat :: j < |es| && found[j].None? && es[j].target == t
  }

  /** What an entry with this error of its own is reported with, after these claims. */
  ghost function Report(claimed: set<string>, e: Entry, own: Option<Error>): Option<Error> {
    if own.Some? || Parse(e.target).None? then own
    else if exists t :: t in claimed && t != e.target && Clash(t, e.target) then Some(Overlap(e.source))
    else if e.target in claimed then Some(AlreadyClaimed(e.source))
    else None
  }

  lemma CheckedOneMore(registry: Registry, fields: Fields, custom: Option<set<string>>, mapped: set<string>,
      es: seq<Entry>)
    requires es != []
    ensures
      var (claimed, errors) := Checked(registry, fields, custom, mapped, es[..|es| - 1]);
      var e := es[|es| - 1];
      var got := Report(claimed, e, EntryError(registry, fields, custom, mapped, e));
      Checked(registry, fields, custom, mapped, es) ==
        if got.Some? then (claimed, errors + [got.value]) else (claimed + {e.target}, errors)
  {
    hide SourceKind, TargetError, Clash;
    var e := es[|es| - 1];
    if EntryError(registry, fields, custom, mapped, e).None? {
      OkTargetParses(registry, e, SourceKind(fields, custom, mapped, e.source).0);
    }
  }

  /** The errors of a request are those its entries get, in order. */
  lemma {:induction false} CheckedIs(registry: Registry, fields: Fields, custom: Option<set<string>>,
      mapped: set<string>, es: seq<Entry>)
    returns (found: Found)
    ensures Gets(registry, fields, custom, mapped, es, found)
    ensures Checked(registry, fields, custom, mapped, es).1 == Somes(found)
    ensures Claims(es, found, Checked(registry, fields, custom, mapped, es).0)
  {
    hide EntryGets, Claims, Report, Checked, EntryError;
    if es == [] {
      found := [];
      NothingClaimed();
      NothingChecked(registry, fields, custom, mapped);
    } else {
      var n := |es| - 1;
      var before := CheckedIs(registry, fields, custom, mapped, es[..n]);
      var claimed := Checked(registry, fields, custom, mapped, es[..n]).0;
      found := before + [Report(claimed, es[n], EntryError(registry, fields, custom, mapped, es[n]))];
      assert found[..n] == before;
      CheckedOneMore(registry, fields, custom, mapped, es);
      LastGets(registry, fields, custom, mapped, es, found, claimed);
      forall i: nat | i < n ensures EntryGets(registry, fields, custom, mapped, es, found, i) {
        assert EntryGets(registry, fields, custom, mapped, es[..n], before, i);
        EarlierGets(registry, fields, custom, mapped, es, found, i);
      }
      ClaimsOneMore(es, found, claimed);
    }
  }

  lemma NothingChecked(registry: Registry, fields: Fields, custom: Option<set<string>>, mapped: set<string>)
    ensures Checked(registry, fields, custom, mapped, []) == ({}, [])
  {
  }

  lemma NothingClaimed()
    ensures Claims([], [], {})
  {
  }

  lemma ClaimsOneMore(es: seq<Entry>, found: Found, claimed: set<string>)
    requires es != [] && |found| == |es|
    requires var n := |es| - 1; Claims(es[..n], found[..n], claimed)
    ensures
      var n := |es| - 1;
      Claims(es, found, if found[n].None? then claimed + {es[n].target} else claimed)
  {
    var n := |es| - 1;
    forall t ensures (exists j: nat :: j < |es| && found[j].None? && es[j].target == t) <==>
      t in claimed || (found[n].None? && es[n].target == t)
    {
      if t in claimed {
        var j: nat :| j < n && found[..n][j].None? && es[..n][j].target == t;
        assert found[j].None? && es[j].target == t;
      }
      if j: nat :| j < |es| && found[j].None? && es[j].target == t {
        if j < n { assert found[..n][j].None? && es[..n][j].target == t; }
      }
    }
  }

  lemma LastGets(registry: Registry, fields: Fields, custom: Option<set<string>>, mapped: set<string>,
      es: seq<Entry>, found: Found, claimed: set<string>)
    requires es != [] && |found| == |es|
    requires var n := |es| - 1; Claims(es[..n], found[..n], claimed)
    requires
      var e := es[|es| - 1];
      found[|es| - 1] == Report(claimed, e, EntryError(registry, fields, custom, mapped, e))
    ensures EntryGets(registry, fields, custom, mapped, es, found, |es| - 1)
  {
    hide SourceKind, Clash, OwnError, WholeAndPart;
    var n := |es| - 1;
    OwnErrorIff(registry, fields, custom, mapped, es[n], None);
    OwnErrorIff(registry, fields, custom, mapped, es[n], found[n]);
    if EntryError(registry, fields, custom, mapped, es[n]).None? {
      EarlierClaims(es, found, claimed);
      OkTargetParses(registry, es[n], SourceKind(fields, custom, mapped, es[n].source).0);
      OverlapIff(es, found, claimed);
    }
  }

  lemma EarlierClaims(es: seq<Entry>, found: Found, claimed: set<string>)
    requires es != [] && |found| == |es|
    requires var n := |es| - 1; Claims(es[..n], found[..n], claimed)
    ensures
      var n := |es| - 1;
      && (forall t :: t in claimed ==> exists j: nat :: j < n && found[j].None? && es[j].target == t)
      && (forall j: nat | j < n && found[j].None? :: es[j].target in claimed)
  {
    var n := |es| - 1;
    forall t | t in claimed ensures exists j: nat :: j < n && found[j].None? && es[j].target == t {
      var j: nat :| j < n && found[..n][j].None? && es[..n][j].target == t;
      assert found[j].None? && es[j].target == t;
    }
    forall j: nat | j < n && found[j].None? ensures es[j].target in claimed {
      assert found[..n][j].None? && es[..n][j].target == es[j].target;
    }
  }

  lemma OverlapIff(es: seq<Entry>, found: Found, claimed: set<string>)
    requires es != [] && |found| == |es| && Parse(es[|es| - 1].target).Some?
    requires var n := |es| - 1; Claims(es[..n], found[..n], claimed)
    ensures
      var n := |es| - 1;
      Overlaps(es, found, n) <==> exists t :: t in claimed && t != es[n].target && Clash(t, es[n].target)
  {
    hide Clash, WholeAndPart, Parse, Claims;
    var n := |es| - 1;
    EarlierClaims(es, found, claimed);
    forall t ensures Clash(t, es[n].target) <==>
      t == es[n].target || WholeAndPart(t, es[n].target) || WholeAndPart(es[n].target, t)
    {
      ClashIff(t, es[n].target);
    }
    NotItsOwnPart(es[n].target);
    if t :| t in claimed && t != es[n].target && Clash(t, es[n].target) {
      var j: nat :| j < n && found[j].None? && es[j].target == t;
    }
    if Overlaps(es, found, n) {
      var j: nat :| j < n && found[j].None?
        && (WholeAndPart(es[j].target, es[n].target) || WholeAndPart(es[n].target, es[j].target));
      assert es[j].target in claimed;
    }
  }

  lemma NotItsOwnPart(t: string)
    ensures !WholeAndPart(t, t)
  {
    hide Split;
    if attr, sub :| TargetNames(t, Path(attr, None, None)) && TargetNames(t, Path(attr, None, Some(sub))) {
      ParseIff(t, Path(attr, None, None));
      ParseIff(t, Path(attr, None, Some(sub)));
      assert false;
    }
  }

  lemma EarlierGets(registry: Registry, fields: Fields, custom: Option<set<string>>, mapped: set<string>,
      es: seq<Entry>, found: Found, i: nat)
    requires |found| == |es| && i < |es| - 1
    requires var n := |es| - 1; EntryGets(registry, fields, custom, mapped, es[..n], found[..n], i)
    ensures EntryGets(registry, fields, custom, mapped, es, found, i)
  {
    hide OwnError, WholeAndPart;
    var n := |es| - 1;
    assert forall j: nat | j <= i :: es[..n][j] == es[j] && found[..n][j] == found[j];
  }

  /** Entries get their errors independently of how the request is checked: no other list of errors
      answers to what entries get. */
  lemma {:induction false} GetsOnce(registry: Registry, fields: Fields, custom: Option<set<string>>,
      mapped: set<string>, es: seq<Entry>, a: Found, b: Found, n: nat)
    requires Gets(registry, fields, custom, mapped, es, a) && Gets(registry, fields, custom, mapped, es, b) && n <= |es|
    ensures a[..n] == b[..n]
  {
    hide OwnError, WholeAndPart;
    if n > 0 {
      GetsOnce(registry, fields, custom, mapped, es, a, b, n - 1);
      assert forall j: nat | j < n - 1 :: a[j] == a[..n - 1][j] && b[j] == b[..n - 1][j];
      assert EntryGets(registry, fields, custom, mapped, es, a, n - 1);
      assert EntryGets(registry, fields, custom, mapped, es, b, n - 1);
      OwnErrorIff(registry, fields, custom, mapped, es[n - 1], a[n - 1]);
      OwnErrorIff(registry, fields, custom, mapped, es[n - 1], b[n - 1]);
      assert Overlaps(es, a, n - 1) <==> Overlaps(es, b, n - 1);
      assert Repeated(es, a, n - 1) <==> Repeated(es, b, n - 1);
      assert a[..n] == a[..n - 1] + [a[n - 1]] && b[..n] == b[..n - 1] + [b[n - 1]];
    }
  }

  /** The errors of a request are exactly those its entries get, in order. */
  lemma CheckedIff(registry: Registry, fields: Fields, custom: Option<set<string>>, mapped: set<string>,
      es: seq<Entry>, errors: seq<Error>)
    ensures Checked(registry, fields, custom, mapped, es).1 == errors <==>
      exists found :: Gets(registry, fields, custom, mapped, es, found) && errors == Somes(found)
  {
    hide Checked, EntryGets;
    var found := CheckedIs(registry, fields, custom, mapped, es);
    forall other | Gets(registry, fields, custom, mapped, es, other) ensures other == found {
      GetsOnce(registry, fields, custom, mapped, es, other, found, |es|);
      assert other[..|es|] == other && found[..|es|] == found;
    }
  }
}
