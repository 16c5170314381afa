/** The matcher as a greedy choice: it makes, one after another, the first match that is still open
    in the order of priority, until none is. */
module MatcherGreedy {
  import opened Mapping
  import opened FieldMapping
  import opened Matcher
  import opened KindFit
  import opened Texts
  import opened Wrappers

  /** What the matcher is given. */
  datatype Task = Task(
    catalog: Catalog, fields: seq<SourceField>, norm: string -> string, synonyms: map<string, string>)
  {
    ghost predicate Valid() {
      forall a :: a in catalog.order ==> a in catalog.attributes
    }

    /** The registry attribute of a name: the last one with that normalization. */
    ghost predicate Named(name: string, attr: string) {
      exists i :: 0 <= i < |catalog.order| && catalog.order[i] == attr && norm(attr) == norm(name)
        && forall j :: i < j < |catalog.order| ==> norm(catalog.order[j]) != norm(name)
    }

    ghost predicate Synonym(name: string, attr: string) {
      norm(name) in synonyms && synonyms[norm(name)] == attr
    }
  }

  /** A possible match: a field by name or by synonym, or sub-field `k` of a field, with a whole
      attribute of its name or with sub-field `b` of attribute `a` of its name. */
  datatype Candidate =
    | ByName(i: nat)
    | BySynonym(i: nat)
    | SubWhole(i: nat, k: nat)
    | SubField(i: nat, k: nat, a: nat, b: nat)

  /** The order of priority. */
  predicate Ahead(c: Candidate, d: Candidate) {
    match (c, d)
    case (ByName(i), ByName(j)) => i < j
    case (ByName(_), _) => true
    case (BySynonym(_), ByName(_)) => false
    case (BySynonym(i), BySynonym(j)) => i < j
    case (BySynonym(_), _) => true
    case (SubWhole(_, _), ByName(_)) => false
    case (SubWhole(_, _), BySynonym(_)) => false
    case (SubWhole(i, k), SubWhole(j, l)) => i < j || (i == j && k < l)
    case (SubWhole(i, k), SubField(j, l, _, _)) => i < j || (i == j && k <= l)
    case (SubField(_, _, _, _), ByName(_)) => false
    case (SubField(_, _, _, _), BySynonym(_)) => false
    case (SubField(i, k, _, _), SubWhole(j, l)) => i < j || (i == j && k < l)
    case (SubField(i, k, a, b), SubField(j, l, a', b')) =>
      i < j || (i == j && (k < l || (k == l && (a < a' || (a == a' && b < b')))))
  }

  // ----- Which matches are open -----

  /** No entry has the source or the target. */
  ghost predicate Unused(es: seq<Entry>, source: string, target: string) {
    forall e :: e in es ==> e.source != source && e.target != target
  }

  ghost predicate Under(path: string, head: string) {
    exists sub :: path == head + "." + sub
  }

  /** A field can take a whole attribute: neither they nor their sub-fields are mapped, and every
      value of the one fits the other. */
  ghost predicate WholeOpen(t: Task, es: seq<Entry>, field: SourceField, attr: string) {
    && attr in t.catalog.attributes && Unused(es, field.name, attr)
    && (forall e :: e in es ==> !Under(e.source, field.name) && !Under(e.target, attr))
    && KindFits(field.kind, t.catalog.attributes[attr].kind)
  }

  /** A sub-field of a field that is not mapped itself can take an attribute, or a sub-field. */
  ghost predicate SubOpen(
    t: Task, es: seq<Entry>, field: SourceField, sub: string, attr: string, attrSub: Option<string>)
  {
    && TakesSubFields(field.kind) && attr in t.catalog.attributes
    && Unused(es, field.name + "." + sub, SubTarget(attr, attrSub))
    && (forall e :: e in es ==> e.source != field.name && e.target != attr)
    && if attrSub.None? then SubKindFits(field.kind, t.catalog.attributes[attr].kind)
       else TakesSubFields(t.catalog.attributes[attr].kind) && attrSub.value in t.catalog.attributes[attr].subs
  }

  /** The match is for a pair of the same name, or for a synonym, and is open. */
  ghost predicate Open(t: Task, es: seq<Entry>, c: Candidate, e: Entry) {
    c.i < |t.fields| &&
    var f := t.fields[c.i];
    match c
    case ByName(_) => t.Named(f.name, e.target) && WholeOpen(t, es, f, e.target) && e.source == f.name
    case BySynonym(_) => t.Synonym(f.name, e.target) && WholeOpen(t, es, f, e.target) && e.source == f.name
    case SubWhole(_, k) =>
      k < |f.subs| && t.Named(f.subs[k], e.target) && SubOpen(t, es, f, f.subs[k], e.target, None)
      && e.source == f.name + "." + f.subs[k]
    case SubField(_, k, a, b) =>
      k < |f.subs| && a < |t.catalog.order| && t.catalog.order[a] in t.catalog.attributes &&
      var attr := t.catalog.order[a];
      b < |t.catalog.attributes[attr].subs| &&
      var s := t.catalog.attributes[attr].subs[b];
      t.norm(s) == t.norm(f.subs[k]) && SubOpen(t, es, f, f.subs[k], attr, Some(s))
      && e == Entry(f.name + "." + f.subs[k], attr + "." + s)
  }

  /** Every entry after the first `n` was, when it was made, the first open match. */
  ghost predicate Greedy(t: Task, n: nat, es: seq<Entry>) {
    forall i :: n <= i < |es| ==> FirstOpen(t, es[..i], es[i])
  }

  ghost predicate FirstOpen(t: Task, es: seq<Entry>, e: Entry) {
    exists c :: Open(t, es, c, e) && forall d, o :: Ahead(d, c) ==> !Open(t, es, d, o)
  }

  // ----- The claims of the matcher are these -----

  lemma StartsWithIff(s: string, head: string)
    ensures StartsWith(s, head + ".") <==> Under(s, head)
  {
    if StartsWith(s, head + ".") { assert s == head + "." + s[|head| + 1..]; }
    if sub :| s == head + "." + sub { assert s[..|head| + 1] == head + "."; }
  }

  lemma ClaimIff(t: Task, es: seq<Entry>, field: SourceField, attr: string)
    ensures CanClaim(t.catalog, es, field, attr) && !HasSubMapping(es, field) <==> WholeOpen(t, es, field, attr)
  {
    hide KindFits, Compatible, Under, StartsWith;
    forall e: Entry ensures StartsWith(e.source, field.name + ".") <==> Under(e.source, field.name) {
      StartsWithIff(e.source, field.name);
    }
    forall e: Entry
      ensures StartsWith(e.target, attr + ".") <==> Under(e.target, attr) { StartsWithIff(e.target, attr); }
    if attr in t.catalog.attributes { CompatibleIff(field.kind, t.catalog.attributes[attr].kind); }
    UnusedIff(es, field.name, attr);
    if WholeOpen(t, es, field, attr) {
      forall i | 0 <= i < |es| ensures !StartsWith(es[i].source, field.name + ".") { assert es[i] in es; }
      forall i | 0 <= i < |es| ensures !StartsWith(es[i].target, attr + ".") { assert es[i] in es; }
    }
  }

  lemma UnusedIff(es: seq<Entry>, source: string, target: string)
    ensures Unused(es, source, target) <==> !HasSource(es, source) && !Claimed(es, target)
  {
    if Unused(es, source, target) {
      forall i | 0 <= i < |es| ensures es[i].source != source && es[i].target != target { assert es[i] in es; }
    }
  }

  lemma SubClaimIff(
    t: Task, es: seq<Entry>, field: SourceField, sub: string, attr: string, attrSub: Option<string>)
    ensures
      && TakesSubFields(field.kind) && !HasSource(es, field.name)
      && CanClaimSub(t.catalog, es, field, sub, attr, attrSub)
      <==> SubOpen(t, es, field, sub, attr, attrSub)
  {
    hide SubKindFits, Compatible, Effective;
    UnusedIff(es, field.name + "." + sub, SubTarget(attr, attrSub));
    UnusedIff(es, field.name, attr);
    if TakesSubFields(field.kind) && attr in t.catalog.attributes {
      CompatibleSubIff(field.kind, t.catalog.attributes[attr].kind);
    }
  }

  lemma {:induction false} NamedIff(t: Task, order: seq<string>, name: string, attr: string)
    ensures At(ByNormalized(order, t.norm), t.norm(name)) == Some(attr) <==>
      Task(t.catalog.(order := order), t.fields, t.norm, t.synonyms).Named(name, attr)
  {
    var u := Task(t.catalog.(order := order), t.fields, t.norm, t.synonyms);
    if order != [] {
      var rest, last := order[..|order| - 1], order[|order| - 1];
      assert order == rest + [last];
      var v := Task(t.catalog.(order := rest), t.fields, t.norm, t.synonyms);
      NamedIff(t, rest, name, attr);
      if t.norm(last) == t.norm(name) {
        if attr == last { assert order[|rest|] == attr && u.Named(name, attr); }
        if u.Named(name, attr) { assert attr == last; }
      } else {
        NamedOneMore(u, v, rest, last, name, attr);
      }
    }
  }

  lemma NamedOneMore(u: Task, v: Task, rest: seq<string>, last: string, name: string, attr: string)
    requires v.catalog.order == rest && u.catalog.order == rest + [last] && u.norm == v.norm
    requires u.norm(last) != u.norm(name)
    ensures u.Named(name, attr) <==> v.Named(name, attr)
  {
    var order := rest + [last];
    assert order[|rest|] == last && forall i :: 0 <= i < |rest| ==> order[i] == rest[i];
    if u.Named(name, attr) {
      var i :| 0 <= i < |order| && order[i] == attr && u.norm(attr) == u.norm(name)
        && forall j :: i < j < |order| ==> u.norm(order[j]) != u.norm(name);
      assert i < |rest| && rest[i] == attr;
    }
    if v.Named(name, attr) {
      var i :| 0 <= i < |rest| && rest[i] == attr && u.norm(attr) == u.norm(name)
        && forall j :: i < j < |rest| ==> u.norm(rest[j]) != u.norm(name);
      assert order[i] == attr;
    }
  }

  // ----- More entries leave fewer matches open -----

  lemma StaysClosed(t: Task, es: seq<Entry>, e: Entry)
    ensures forall c, o :: Open(t, es + [e], c, o) ==> Open(t, es, c, o)
  {
    hide KindFits, SubKindFits, Under;
    assert forall x :: x in es ==> x in es + [e];
  }

  ghost predicate Exhausted(t: Task, es: seq<Entry>, c: Candidate) {
    forall d, o :: Ahead(d, c) ==> !Open(t, es, d, o)
  }

  lemma MadeGreedily(t: Task, n: nat, es: seq<Entry>, c: Candidate, e: Entry)
    requires Greedy(t, n, es) && n <= |es| && Exhausted(t, es, c) && Open(t, es, c, e)
    ensures Greedy(t, n, es + [e]) && Exhausted(t, es + [e], c)
  {
    hide Open, Ahead;
    StaysClosed(t, es, e);
    var longer := es + [e];
    assert longer[..|es|] == es && longer[|es|] == e;
    forall i | n <= i < |longer| ensures FirstOpen(t, longer[..i], longer[i]) {
      if i < |es| { assert longer[..i] == es[..i] && longer[i] == es[i]; }
    }
  }

  // ----- The passes -----

  function NextWhole(c: Candidate): Candidate {
    match c
    case ByName(i) => ByName(i + 1)
    case BySynonym(i) => BySynonym(i + 1)
    case _ => c
  }

  lemma AheadOfNext(c: Candidate)
    ensures forall i: nat :: Ahead(c, ByName(i + 1)) <==> Ahead(c, ByName(i)) || c == ByName(i)
    ensures forall i: nat :: Ahead(c, BySynonym(i + 1)) <==> Ahead(c, BySynonym(i)) || c == BySynonym(i)
  {
  }

  lemma WholeStepIs(t: Task, n: nat, es: seq<Entry>, i: nat, c: Candidate, names: map<string, string>)
    requires Greedy(t, n, es) && n <= |es| && i < |t.fields| && (c == ByName(i) || c == BySynonym(i))
    requires Exhausted(t, es, c)
    requires forall attr :: At(names, t.norm(t.fields[i].name)) == Some(attr) <==>
      if c.ByName? then t.Named(t.fields[i].name, attr) else t.Synonym(t.fields[i].name, attr)
    ensures
      var after := WholeStep(t.catalog, t.norm, names, es, t.fields[i]);
      es <= after && Greedy(t, n, after) && Exhausted(t, after, NextWhole(c))
  {
    var f := t.fields[i];
    var after := WholeStep(t.catalog, t.norm, names, es, f);
    forall attr ensures CanClaim(t.catalog, es, f, attr) && !HasSubMapping(es, f) <==> WholeOpen(t, es, f, attr) {
      ClaimIff(t, es, f, attr);
    }
    hide CanClaim, HasSubMapping, WholeOpen, Greedy, Exhausted, Ahead, t.Named, t.Synonym;
    if after != es {
      var e := Entry(f.name, names[t.norm(f.name)]);
      assert Open(t, es, c, e);
      MadeGreedily(t, n, es, c, e);
    }
    forall o ensures !Open(t, after, c, o) { WholeClosed(t, es, after, c, o, names); }
    NextCandidate(t, after, c);
  }

  lemma WholeClosed(t: Task, es: seq<Entry>, after: seq<Entry>, c: Candidate, o: Entry, names: map<string, string>)
    requires c.i < |t.fields| && (c.ByName? || c.BySynonym?)
    requires forall attr :: At(names, t.norm(t.fields[c.i].name)) == Some(attr) <==>
      if c.ByName? then t.Named(t.fields[c.i].name, attr) else t.Synonym(t.fields[c.i].name, attr)
    requires after == WholeStep(t.catalog, t.norm, names, es, t.fields[c.i])
    ensures !Open(t, after, c, o)
  {
    var f := t.fields[c.i];
    if after != es {
      assert after[|es|].source == f.name && after[|es|] in after;
    } else if Open(t, after, c, o) {
      ClaimIff(t, es, f, o.target);
    }
  }

  lemma NextCandidate(t: Task, es: seq<Entry>, c: Candidate)
    requires (c.ByName? || c.BySynonym?) && Exhausted(t, es, c) && forall o :: !Open(t, es, c, o)
    ensures Exhausted(t, es, NextWhole(c))
  {
    hide Open;
    forall d ensures Ahead(d, NextWhole(c)) <==> Ahead(d, c) || d == c { AheadOfNext(d); }
  }

  lemma {:induction false} WholePassIs(
    t: Task, n: nat, start: seq<Entry>, k: nat, first: Candidate, names: map<string, string>)
    requires Greedy(t, n, start) && n <= |start| && k <= |t.fields| && (first == ByName(0) || first == BySynonym(0))
    requires Exhausted(t, start, first)
    requires forall name, attr :: At(names, t.norm(name)) == Some(attr) <==>
      if first.ByName? then t.Named(name, attr) else t.Synonym(name, attr)
    ensures
      var after := WholeMatched(t.catalog, t.norm, names, t.fields[..k], start);
      start <= after && Greedy(t, n, after) && Exhausted(t, after, if first.ByName? then ByName(k) else BySynonym(k))
  {
    hide Greedy, Exhausted, WholeStep, t.Named, t.Synonym;
    if k > 0 {
      WholePassIs(t, n, start, k - 1, first, names);
      assert t.fields[..k][..k - 1] == t.fields[..k - 1];
      var before := WholeMatched(t.catalog, t.norm, names, t.fields[..k - 1], start);
      WholeStepIs(t, n, before, k - 1, if first.ByName? then ByName(k - 1) else BySynonym(k - 1), names);
    }
  }

  /** Sub-field `b` of attribute `a` has the name, and may be claimed. */
  ghost predicate Fitting(t: Task, es: seq<Entry>, f: SourceField, sub: string, a: nat, b: nat)
    requires t.Valid()
  {
    a < |t.catalog.order| &&
    var attr := t.catalog.order[a];
    assert attr in t.catalog.order;
    TakesSubFields(t.catalog.attributes[attr].kind) &&
    var subs := t.catalog.attributes[attr].subs;
    b < |subs| && t.norm(subs[b]) == t.norm(sub) && CanClaimSub(t.catalog, es, f, sub, attr, Some(subs[b]))
  }

  ghost predicate FirstSubFitting(
    t: Task, es: seq<Entry>, f: SourceField, sub: string, a: nat, from: nat, j: nat, found: string)
    requires t.Valid()
  {
    && from <= j && Fitting(t, es, f, sub, a, j) && t.catalog.attributes[t.catalog.order[a]].subs[j] == found
    && forall j': nat :: from <= j' < j ==> !Fitting(t, es, f, sub, a, j')
  }

  lemma {:induction false} FirstSubIs(t: Task, es: seq<Entry>, f: SourceField, sub: string, a: nat, b: nat)
    requires t.Valid() && a < |t.catalog.order|
    requires t.catalog.order[a] in t.catalog.attributes
    requires TakesSubFields(t.catalog.attributes[t.catalog.order[a]].kind)
    requires b <= |t.catalog.attributes[t.catalog.order[a]].subs|
    ensures
      var attr := t.catalog.order[a];
      var found := FirstSub(t.catalog, t.norm, es, f, sub, attr, b);
      if found.None? then forall j: nat :: j >= b ==> !Fitting(t, es, f, sub, a, j)
      else exists j: nat :: FirstSubFitting(t, es, f, sub, a, b, j, found.value)
    decreases |t.catalog.attributes[t.catalog.order[a]].subs| - b
  {
    hide CanClaimSub;
    var subs := t.catalog.attributes[t.catalog.order[a]].subs;
    if b < |subs| {
      FirstSubIs(t, es, f, sub, a, b + 1);
      if Fitting(t, es, f, sub, a, b) {
        assert FirstSubFitting(t, es, f, sub, a, b, b, subs[b]);
      } else {
        var later := FirstSub(t.catalog, t.norm, es, f, sub, t.catalog.order[a], b + 1);
        if later.Some? {
          var j: nat :| FirstSubFitting(t, es, f, sub, a, b + 1, j, later.value);
          assert FirstSubFitting(t, es, f, sub, a, b, j, later.value);
        }
      }
    }
  }

  lemma {:induction false} FirstAttrIs(t: Task, es: seq<Entry>, f: SourceField, sub: string, a: nat)
    requires t.Valid() && a <= |t.catalog.order|
    ensures
      var found := FirstAttr(t.catalog, t.norm, es, f, sub, a);
      if found.None? then forall i: nat, j: nat :: i >= a ==> !Fitting(t, es, f, sub, i, j)
      else exists i: nat, j: nat :: FirstFitting(t, es, f, sub, a, i, j, found.value)
    decreases |t.catalog.order| - a
  {
    hide CanClaimSub, FirstSub;
    if a < |t.catalog.order| {
      var attr := t.catalog.order[a];
      assert attr in t.catalog.order;
      FirstAttrIs(t, es, f, sub, a + 1);
      if TakesSubFields(t.catalog.attributes[attr].kind) {
        FirstSubIs(t, es, f, sub, a, 0);
        var own := FirstSub(t.catalog, t.norm, es, f, sub, attr, 0);
        if own.Some? {
          var j: nat :| FirstSubFitting(t, es, f, sub, a, 0, j, own.value);
          assert FirstFitting(t, es, f, sub, a, a, j, (attr, own.value));
        }
      }
      var later := FirstAttr(t.catalog, t.norm, es, f, sub, a + 1);
      if later.Some? && FirstAttr(t.catalog, t.norm, es, f, sub, a) == later
        && (forall j: nat :: !Fitting(t, es, f, sub, a, j)) {
        var i: nat, j: nat :| FirstFitting(t, es, f, sub, a + 1, i, j, later.value);
        assert FirstFitting(t, es, f, sub, a, i, j, later.value);
      }
    }
  }

  ghost predicate FirstFitting(
    t: Task, es: seq<Entry>, f: SourceField, sub: string, from: nat, i: nat, j: nat, found: (string, string))
    requires t.Valid()
  {
    && from <= i && Fitting(t, es, f, sub, i, j)
    && t.catalog.order[i] == found.0 && t.catalog.attributes[found.0].subs[j] == found.1
    && (forall i': nat, j': nat :: from <= i' < i ==> !Fitting(t, es, f, sub, i', j'))
    && (forall j': nat :: j' < j ==> !Fitting(t, es, f, sub, i, j'))
  }

  lemma FittingIff(t: Task, es: seq<Entry>, i: nat, k: nat, a: nat, b: nat)
    requires t.Valid() && i < |t.fields| && k < |t.fields[i].subs|
    requires TakesSubFields(t.fields[i].kind) && !HasSource(es, t.fields[i].name)
    ensures
      var f := t.fields[i];
      Fitting(t, es, f, f.subs[k], a, b) <==> exists o :: Open(t, es, SubField(i, k, a, b), o)
    ensures
      var f := t.fields[i];
      Fitting(t, es, f, f.subs[k], a, b) ==>
        var attr := t.catalog.order[a];
        Open(
          t, es, SubField(i, k, a, b),
          Entry(f.name + "." + f.subs[k], attr + "." + t.catalog.attributes[attr].subs[b]))
  {
    hide SubOpen, CanClaimSub;
    var f := t.fields[i];
    if a < |t.catalog.order| {
      var attr := t.catalog.order[a];
      assert attr in t.catalog.order;
      var subs := t.catalog.attributes[attr].subs;
      if b < |subs| {
        SubClaimIff(t, es, f, f.subs[k], attr, Some(subs[b]));
        SubTaken(t, es, f, f.subs[k], attr, subs[b]);
        if Fitting(t, es, f, f.subs[k], a, b) {
          assert Open(t, es, SubField(i, k, a, b), Entry(f.name + "." + f.subs[k], attr + "." + subs[b]));
        }
      }
    }
  }

  lemma SubTaken(t: Task, es: seq<Entry>, f: SourceField, sub: string, attr: string, s: string)
    ensures SubOpen(t, es, f, sub, attr, Some(s)) ==> TakesSubFields(t.catalog.attributes[attr].kind)
  {
  }

  lemma NextSub(t: Task, es: seq<Entry>, i: nat, k: nat)
    requires Exhausted(t, es, SubWhole(i, k)) && forall o :: !Open(t, es, SubWhole(i, k), o)
    requires forall a, b, o :: !Open(t, es, SubField(i, k, a, b), o)
    ensures Exhausted(t, es, SubWhole(i, k + 1))
  {
    hide Open;
    forall d, o | Ahead(d, SubWhole(i, k + 1)) ensures !Open(t, es, d, o) {
      if !Ahead(d, SubWhole(i, k)) { assert d == SubWhole(i, k) || d == SubField(i, k, d.a, d.b); }
    }
  }

  lemma OpenSource(t: Task, es: seq<Entry>, c: Candidate, i: nat, k: nat, e: Entry)
    requires Open(t, es, c, e) && (c == SubWhole(i, k) || (c.SubField? && c.i == i && c.k == k))
    ensures i < |t.fields| && k < |t.fields[i].subs| && e.source == t.fields[i].name + "." + t.fields[i].subs[k]
  {
    hide SubOpen;
  }

  lemma SubUsed(t: Task, es: seq<Entry>, i: nat, k: nat, e: Entry)
    requires i < |t.fields| && k < |t.fields[i].subs| && e in es
    requires e.source == t.fields[i].name + "." + t.fields[i].subs[k]
    ensures forall o :: !Open(t, es, SubWhole(i, k), o)
    ensures forall a, b, o :: !Open(t, es, SubField(i, k, a, b), o)
  {
    hide SubKindFits;
  }

  lemma SubClaimed(t: Task, n: nat, es: seq<Entry>, i: nat, k: nat, c: Candidate, e: Entry)
    requires Greedy(t, n, es) && n <= |es| && Open(t, es, c, e) && Exhausted(t, es, c)
    requires c == SubWhole(i, k) || (c.SubField? && c.i == i && c.k == k)
    ensures Greedy(t, n, es + [e]) && Exhausted(t, es + [e], SubWhole(i, k + 1))
    ensures i < |t.fields| && (!HasSource(es, t.fields[i].name) ==> !HasSource(es + [e], t.fields[i].name))
  {
    hide Open, Greedy, HasSource;
    MadeGreedily(t, n, es, c, e);
    OpenSource(t, es, c, i, k, e);
    var after := es + [e];
    assert after[|es|] == e;
    LongerSource(es, e, t.fields[i].name);
    SubUsed(t, after, i, k, e);
    AheadOfSub(c, i, k);
    hide Ahead;
    NextSub(t, after, i, k);
  }

  lemma LongerSource(es: seq<Entry>, e: Entry, name: string)
    requires |e.source| > |name|
    ensures HasSource(es + [e], name) <==> HasSource(es, name)
  {
    var after := es + [e];
    assert after[|es|] == e && forall j :: 0 <= j < |es| ==> after[j] == es[j];
  }

  lemma AheadOfSub(c: Candidate, i: nat, k: nat)
    requires c == SubWhole(i, k) || (c.SubField? && c.i == i && c.k == k)
    ensures forall d :: Ahead(d, SubWhole(i, k)) ==> Ahead(d, c)
  {
  }

  lemma FieldExhausted(t: Task, es: seq<Entry>, i: nat, k: nat, a: nat, b: nat)
    requires Exhausted(t, es, SubWhole(i, k)) && forall o :: !Open(t, es, SubWhole(i, k), o)
    requires forall a': nat, b': nat, o :: a' < a || (a' == a && b' < b) ==> !Open(t, es, SubField(i, k, a', b'), o)
    ensures Exhausted(t, es, SubField(i, k, a, b))
  {
    hide Open;
    forall d, o | Ahead(d, SubField(i, k, a, b)) ensures !Open(t, es, d, o) {
      if !Ahead(d, SubWhole(i, k)) { assert d == SubWhole(i, k) || d == SubField(i, k, d.a, d.b); }
    }
  }

  lemma SubStepIs(t: Task, n: nat, es: seq<Entry>, i: nat, k: nat, names: map<string, string>)
    requires t.Valid() && Greedy(t, n, es) && n <= |es| && i < |t.fields| && k < |t.fields[i].subs|
    requires TakesSubFields(t.fields[i].kind) && !HasSource(es, t.fields[i].name)
    requires Exhausted(t, es, SubWhole(i, k))
    requires forall name, attr :: At(names, t.norm(name)) == Some(attr) <==> t.Named(name, attr)
    ensures
      var after := SubStep(t.catalog, t.norm, names, es, t.fields[i], t.fields[i].subs[k]);
      && es <= after && Greedy(t, n, after) && !HasSource(after, t.fields[i].name)
      && Exhausted(t, after, SubWhole(i, k + 1))
  {
    var f, key := t.fields[i], t.fields[i].name + "." + t.fields[i].subs[k];
    var sub, named := f.subs[k], At(names, t.norm(f.subs[k]));
    SubWholeIff(t, es, i, k, names);
    FirstAttrIs(t, es, f, sub, 0);
    forall a: nat, b: nat
      ensures Fitting(t, es, f, sub, a, b) <==> exists o :: Open(t, es, SubField(i, k, a, b), o)
      ensures Fitting(t, es, f, sub, a, b) ==>
        Open(
          t, es, SubField(i, k, a, b),
          Entry(key, t.catalog.order[a] + "." + t.catalog.attributes[t.catalog.order[a]].subs[b]))
    {
      FittingIff(t, es, i, k, a, b);
    }
    hide Open, CanClaimSub, FirstAttr, Fitting, Greedy, Exhausted, Ahead, t.Named;
    if named.Some? && CanClaimSub(t.catalog, es, f, sub, named.value, None) {
      SubClaimed(t, n, es, i, k, SubWhole(i, k), Entry(key, named.value));
    } else {
      var found := FirstAttr(t.catalog, t.norm, es, f, sub, 0);
      if found.Some? {
        var a: nat, b: nat :| FirstFitting(t, es, f, sub, 0, a, b, found.value);
        FieldExhausted(t, es, i, k, a, b);
        SubClaimed(t, n, es, i, k, SubField(i, k, a, b), Entry(key, found.value.0 + "." + found.value.1));
      } else {
        NextSub(t, es, i, k);
      }
    }
  }

  lemma SubWholeIff(t: Task, es: seq<Entry>, i: nat, k: nat, names: map<string, string>)
    requires i < |t.fields| && k < |t.fields[i].subs|
    requires TakesSubFields(t.fields[i].kind) && !HasSource(es, t.fields[i].name)
    requires forall name, attr :: At(names, t.norm(name)) == Some(attr) <==> t.Named(name, attr)
    ensures
      var f, named := t.fields[i], At(names, t.norm(t.fields[i].subs[k]));
      if named.Some? && CanClaimSub(t.catalog, es, f, f.subs[k], named.value, None)
      then Open(t, es, SubWhole(i, k), Entry(f.name + "." + f.subs[k], named.value))
      else forall o :: !Open(t, es, SubWhole(i, k), o)
  {
    var f := t.fields[i];
    forall attr
      ensures CanClaimSub(t.catalog, es, f, f.subs[k], attr, None) <==> SubOpen(t, es, f, f.subs[k], attr, None)
    {
      SubClaimIff(t, es, f, f.subs[k], attr, None);
    }
    hide CanClaimSub, SubOpen, t.Named;
  }

  lemma {:induction false} FieldSubsAre(
    t: Task, n: nat, es: seq<Entry>, i: nat, k: nat, names: map<string, string>)
    requires t.Valid() && Greedy(t, n, es) && n <= |es| && i < |t.fields| && k <= |t.fields[i].subs|
    requires TakesSubFields(t.fields[i].kind) && !HasSource(es, t.fields[i].name)
    requires Exhausted(t, es, SubWhole(i, 0))
    requires forall name, attr :: At(names, t.norm(name)) == Some(attr) <==> t.Named(name, attr)
    ensures
      var after := SubsMatched(t.catalog, t.norm, names, es, t.fields[i], t.fields[i].subs[..k]);
      && es <= after && Greedy(t, n, after) && !HasSource(after, t.fields[i].name)
      && Exhausted(t, after, SubWhole(i, k))
  {
    hide Greedy, Exhausted, HasSource, SubStep, t.Named;
    if k > 0 {
      var subs := t.fields[i].subs;
      FieldSubsAre(t, n, es, i, k - 1, names);
      assert subs[..k][..k - 1] == subs[..k - 1] && subs[..k][k - 1] == subs[k - 1];
      SubStepIs(t, n, SubsMatched(t.catalog, t.norm, names, es, t.fields[i], subs[..k - 1]), i, k - 1, names);
    }
  }

  lemma NextField(t: Task, es: seq<Entry>, i: nat, k: nat)
    requires Exhausted(t, es, SubWhole(i, k))
    requires i < |t.fields| ==>
      k >= |t.fields[i].subs| || !TakesSubFields(t.fields[i].kind) || HasSource(es, t.fields[i].name)
    ensures Exhausted(t, es, SubWhole(i + 1, 0))
  {
    hide SubKindFits, KindFits, Under;
    forall d, o | Ahead(d, SubWhole(i + 1, 0)) ensures !Open(t, es, d, o) {
      if !Ahead(d, SubWhole(i, k)) {
        assert d.i == i && d.k >= k;
        if i < |t.fields| && HasSource(es, t.fields[i].name) { UnusedIff(es, t.fields[i].name, ""); }
      }
    }
  }

  lemma {:induction false} SubPassIs(t: Task, n: nat, start: seq<Entry>, m: nat, names: map<string, string>)
    requires t.Valid() && Greedy(t, n, start) && n <= |start| && m <= |t.fields|
    requires Exhausted(t, start, SubWhole(0, 0))
    requires forall name, attr :: At(names, t.norm(name)) == Some(attr) <==> t.Named(name, attr)
    ensures
      var after := SubMatched(t.catalog, t.norm, names, t.fields[..m], start);
      start <= after && Greedy(t, n, after) && Exhausted(t, after, SubWhole(m, 0))
  {
    hide Greedy, Exhausted, HasSource, SubsMatched, t.Named;
    if m > 0 {
      var i := m - 1;
      SubPassIs(t, n, start, i, names);
      assert t.fields[..m][..i] == t.fields[..i] && t.fields[..m][i] == t.fields[i];
      var before, f := SubMatched(t.catalog, t.norm, names, t.fields[..i], start), t.fields[i];
      if !TakesSubFields(f.kind) || HasSource(before, f.name) {
        NextField(t, before, i, 0);
      } else {
        FieldSubsAre(t, n, before, i, |f.subs|, names);
        assert f.subs[..|f.subs|] == f.subs;
        NextField(t, SubsMatched(t.catalog, t.norm, names, before, f, f.subs), i, |f.subs|);
      }
    }
  }

  // ----- The whole match -----

  /** Nothing at all is open any more. */
  ghost predicate Complete(t: Task, es: seq<Entry>) {
    forall c, e :: !Open(t, es, c, e)
  }

  lemma PassEnds(t: Task, es: seq<Entry>)
    ensures Exhausted(t, es, ByName(|t.fields|)) ==> Exhausted(t, es, BySynonym(0))
    ensures Exhausted(t, es, BySynonym(|t.fields|)) ==> Exhausted(t, es, SubWhole(0, 0))
    ensures Exhausted(t, es, SubWhole(|t.fields|, 0)) ==> Complete(t, es)
  {
    hide WholeOpen, SubOpen, t.Named, t.Synonym;
    forall d | Ahead(d, BySynonym(0)) ensures Ahead(d, ByName(|t.fields|)) || d.i >= |t.fields| {}
    forall d | Ahead(d, SubWhole(0, 0)) ensures Ahead(d, BySynonym(|t.fields|)) || d.i >= |t.fields| {}
    forall d ensures Ahead(d, SubWhole(|t.fields|, 0)) || d.i >= |t.fields| {}
  }

  /** On top of any existing entries the matcher makes, one after another, the first match that is
      open, and stops when none is. */
  lemma AutoMatchIsGreedy(t: Task, existing: seq<Entry>)
    requires t.Valid()
    ensures
      var es := AutoMatched(t.fields, t.catalog, t.norm, t.synonyms, existing);
      existing <= es && Greedy(t, |existing|, es) && Complete(t, es)
  {
    var n, names := |existing|, ByNormalized(t.catalog.order, t.norm);
    forall name, attr ensures At(names, t.norm(name)) == Some(attr) <==> t.Named(name, attr) {
      NamedIff(t, t.catalog.order, name, attr);
    }
    assert t.fields[..|t.fields|] == t.fields;
    assert Exhausted(t, existing, ByName(0));
    WholePassIs(t, n, existing, |t.fields|, ByName(0), names);
    var first := WholeMatched(t.catalog, t.norm, names, t.fields, existing);
    PassEnds(t, first);
    WholePassIs(t, n, first, |t.fields|, BySynonym(0), t.synonyms);
    var second := WholeMatched(t.catalog, t.norm, t.synonyms, t.fields, first);
    PassEnds(t, second);
    SubPassIs(t, n, second, |t.fields|, names);
    PassEnds(t, SubMatched(t.catalog, t.norm, names, t.fields, second));
  }

  lemma AheadIsTotal(c: Candidate, d: Candidate)
    ensures c == d || Ahead(c, d) || Ahead(d, c)
  {
  }

  lemma OneEntry(t: Task, es: seq<Entry>, c: Candidate, e: Entry, o: Entry)
    requires Open(t, es, c, e) && Open(t, es, c, o)
    ensures e == o
  {
    hide WholeOpen, SubOpen;
    if c.ByName? { OneName(t, t.fields[c.i].name, e.target, o.target); }
    if c.SubWhole? { OneName(t, t.fields[c.i].subs[c.k], e.target, o.target); }
  }

  lemma OneName(t: Task, name: string, a: string, b: string)
    requires t.Named(name, a) && t.Named(name, b)
    ensures a == b
  {
  }

  lemma FirstOpenIsUnique(t: Task, es: seq<Entry>, e: Entry, o: Entry)
    requires FirstOpen(t, es, e) && FirstOpen(t, es, o)
    ensures e == o
  {
    hide Open, Ahead;
    var c :| Open(t, es, c, e) && forall d, x :: Ahead(d, c) ==> !Open(t, es, d, x);
    var d :| Open(t, es, d, o) && forall c, x :: Ahead(c, d) ==> !Open(t, es, c, x);
    AheadIsTotal(c, d);
    OneEntry(t, es, c, e, o);
  }

  lemma {:induction false} PrefixIsUnique(t: Task, n: nat, es: seq<Entry>, os: seq<Entry>, k: nat)
    requires n <= k <= |es| && k <= |os| && es[..n] == os[..n] && Greedy(t, n, es) && Greedy(t, n, os)
    ensures es[..k] == os[..k]
    decreases k
  {
    hide FirstOpen;
    if k > n {
      var m := k - 1;
      PrefixIsUnique(t, n, es, os, m);
      assert FirstOpen(t, es[..m], es[m]) && FirstOpen(t, os[..m], os[m]);
      FirstOpenIsUnique(t, es[..m], es[m], os[m]);
      assert es[..k] == es[..m] + [es[m]] && os[..k] == os[..m] + [os[m]];
    }
  }

  lemma CompleteIsLast(t: Task, n: nat, es: seq<Entry>, k: nat)
    requires n <= k < |es| && Greedy(t, n, es)
    ensures !Complete(t, es[..k])
  {
    assert FirstOpen(t, es[..k], es[k]);
  }

  /** Only one mapping is made in that way. */
  lemma GreedyIsUnique(t: Task, existing: seq<Entry>, es: seq<Entry>)
    requires t.Valid() && existing <= es && Greedy(t, |existing|, es) && Complete(t, es)
    ensures es == AutoMatched(t.fields, t.catalog, t.norm, t.synonyms, existing)
  {
    hide Greedy, Complete;
    AutoMatchIsGreedy(t, existing);
    var n, os := |existing|, AutoMatched(t.fields, t.catalog, t.norm, t.synonyms, existing);
    var k := if |es| < |os| then |es| else |os|;
    PrefixIsUnique(t, n, es, os, k);
    assert es[..|es|] == es && os[..|os|] == os;
    if k < |es| { CompleteIsLast(t, n, es, k); }
    if k < |os| { CompleteIsLast(t, n, os, k); }
  }

  /** The first field, in order, that fits an attribute by name gets it, if it may on top of the
      existing entries. */
  lemma NameWins(t: Task, existing: seq<Entry>, i: nat, attr: string)
    requires t.Valid() && WellNamed(t.catalog, t.fields) && i < |t.fields|
    requires t.Named(t.fields[i].name, attr) && WholeOpen(t, existing, t.fields[i], attr)
    requires forall j :: 0 <= j < i ==>
      !t.Named(t.fields[j].name, attr) || !KindFits(t.fields[j].kind, t.catalog.attributes[attr].kind)
    ensures Entry(t.fields[i].name, attr) in AutoMatched(t.fields, t.catalog, t.norm, t.synonyms, existing)
  {
    var names := ByNormalized(t.catalog.order, t.norm);
    forall name ensures At(names, t.norm(name)) == Some(attr) <==> t.Named(name, attr) {
      NamedIff(t, t.catalog.order, name, attr);
    }
    ClaimIff(t, existing, t.fields[i], attr);
    forall j | 0 <= j <= i
      ensures Wants(t.catalog, t.norm, names, t.fields[j], attr) <==>
        t.Named(t.fields[j].name, attr) && KindFits(t.fields[j].kind, t.catalog.attributes[attr].kind)
    {
      CompatibleIff(t.fields[j].kind, t.catalog.attributes[attr].kind);
    }
    hide Compatible, KindFits, WellNamed;
    FirstMatchWins(t.catalog, t.norm, names, t.fields, existing, i, attr);
    LaterPassesGrow(t, existing);
  }

  lemma LaterPassesGrow(t: Task, existing: seq<Entry>)
    requires t.Valid()
    ensures
      WholeMatched(t.catalog, t.norm, ByNormalized(t.catalog.order, t.norm), t.fields, existing) <=
        AutoMatched(t.fields, t.catalog, t.norm, t.synonyms, existing)
  {
    var names := ByNormalized(t.catalog.order, t.norm);
    var first := WholeMatched(t.catalog, t.norm, names, t.fields, existing);
    MatchesStay(t.catalog, t.norm, t.synonyms, t.fields, 0, first);
    assert t.fields[..0] == [];
    NothingMatched(t.catalog, t.norm, t.synonyms, first);
    SubMatchedGrows(t.catalog, t.norm, names, t.fields, WholeMatched(t.catalog, t.norm, t.synonyms, t.fields, first));
  }
}
