/** Flat tables: the plan a header row gives, and the rows read under it. */
module FlatNotation {
  import opened AttributeKinds

  type Registry = map<string, Kind>

  /** A header cell: `name(sub:sub)`, or any other text. */
  datatype Header = Annotated(name: string, subs: seq<string>) | Plain(name: string)

  datatype ColumnKind = StructuredColumn | RepeatedStructuredColumn | RepeatedScalarColumn | TextColumn

  datatype Column = Column(name: string, kind: ColumnKind, subs: seq<string>, arity: nat)

  datatype HeaderError = NotStructured(name: string) | NotAdjacent(name: string) | Duplicate(name: string)

  datatype Plan = Accepted(columns: seq<Column>) | Rejected(error: HeaderError)

  predicate IsStructured(k: Kind) {
    k.Structured? || k.RepeatedStructured?
  }

  // ----- The plan -----

  function Mentions(headers: seq<Header>, name: string): nat {
    if headers == [] then 0
    else Mentions(headers[..|headers| - 1], name) + (if headers[|headers| - 1].name == name then 1 else 0)
  }

  function PlainKind(registry: Registry, name: string): ColumnKind {
    if name in registry && registry[name].RepeatedScalar? then RepeatedScalarColumn else TextColumn
  }

  /** One more header cell; `known` counts the earlier cells with its name. */
  function Extend(registry: Registry, columns: seq<Column>, known: nat, h: Header): Plan {
    if h.Annotated? then
      if h.name in registry && !IsStructured(registry[h.name]) then Rejected(NotStructured(h.name))
      else if known == 0 || columns == [] then Accepted(columns + [Column(h.name, StructuredColumn, h.subs, 1)])
      else
        var last := columns[|columns| - 1];
        if last.name != h.name then Rejected(NotAdjacent(h.name))
        else Accepted(columns[..|columns| - 1] + [Column(last.name, RepeatedStructuredColumn, last.subs, known + 1)])
    else if known > 0 then Rejected(Duplicate(h.name))
    else Accepted(columns + [Column(h.name, PlainKind(registry, h.name), [], 1)])
  }

  function PlanOf(registry: Registry, headers: seq<Header>): Plan {
    if headers == [] then Accepted([])
    else
      var rest, h := headers[..|headers| - 1], headers[|headers| - 1];
      var before := PlanOf(registry, rest);
      if before.Rejected? then before else Extend(registry, before.columns, Mentions(rest, h.name), h)
  }

  method ParseHeader(registry: Registry, headers: seq<Header>) returns (plan: Plan)
    ensures plan == PlanOf(registry, headers)
  {
    var columns: seq<Column>, seen: map<string, nat> := [], map[];
    assert PlanOf(registry, headers[..0]) == Accepted([]) && forall name :: Mentions(headers[..0], name) == 0;
    hide PlanOf, Mentions;
    for i := 0 to |headers|
      invariant PlanOf(registry, headers[..i]) == Accepted(columns)
      invariant Counts(seen, headers[..i])
      invariant seen != map[] ==> columns != []
    {
      var h := headers[i];
      PlanOneMore(registry, headers, i);
      var prev := if h.name in seen then seen[h.name] else 0;
      CountsOneMore(seen, headers, i);
      hide Counts;
      if h.Annotated? {
        if h.name in registry && !IsStructured(registry[h.name]) {
          StaysRejected(registry, headers, i + 1);
          return Rejected(NotStructured(h.name));
        }
        if prev == 0 {
          columns := columns + [Column(h.name, StructuredColumn, h.subs, 1)];
        } else {
          var existing := columns[|columns| - 1];
          if existing.name != h.name {
            StaysRejected(registry, headers, i + 1);
            return Rejected(NotAdjacent(h.name));
          }
          columns :=
            columns[..|columns| - 1] + [Column(existing.name, RepeatedStructuredColumn, existing.subs, prev + 1)];
        }
      } else {
        if prev >= 1 {
          StaysRejected(registry, headers, i + 1);
          return Rejected(Duplicate(h.name));
        }
        columns := columns + [Column(h.name, PlainKind(registry, h.name), [], 1)];
      }
      seen := seen[h.name := prev + 1];
    }
    assert headers[..|headers|] == headers;
    plan := Accepted(columns);
  }

  /** How often each name has been met. */
  ghost predicate Counts(seen: map<string, nat>, headers: seq<Header>) {
    forall name :: (if name in seen then seen[name] else 0) == Mentions(headers, name)
  }

  lemma CountsOneMore(seen: map<string, nat>, headers: seq<Header>, i: nat)
    requires i < |headers| && Counts(seen, headers[..i])
    ensures
      var name := headers[i].name;
      var prev := if name in seen then seen[name] else 0;
      prev == Mentions(headers[..i], name) && Counts(seen[name := prev + 1], headers[..i + 1])
  {
    assert headers[..i + 1][..i] == headers[..i];
  }

  lemma PlanOneMore(registry: Registry, headers: seq<Header>, i: nat)
    requires i < |headers|
    ensures
      var before := PlanOf(registry, headers[..i]);
      PlanOf(registry, headers[..i + 1]) ==
        if before.Rejected? then before
        else Extend(registry, before.columns, Mentions(headers[..i], headers[i].name), headers[i])
  {
    assert headers[..i + 1][..i] == headers[..i];
  }

  lemma {:induction false} StaysRejected(registry: Registry, headers: seq<Header>, n: nat)
    requires n <= |headers| && PlanOf(registry, headers[..n]).Rejected?
    ensures PlanOf(registry, headers) == PlanOf(registry, headers[..n])
    decreases |headers| - n
  {
    if n < |headers| {
      assert headers[..n + 1][..n] == headers[..n];
      StaysRejected(registry, headers, n + 1);
    } else {
      assert headers[..n] == headers;
    }
  }

  /** The header names the columns cover, in order, each as often as its column is wide. */
  function Covered(columns: seq<Column>): seq<string> {
    if columns == [] then []
    else
      var last := columns[|columns| - 1];
      Covered(columns[..|columns| - 1]) + seq(last.arity, _ => last.name)
  }

  function Names(headers: seq<Header>): seq<string> {
    seq(|headers|, i requires 0 <= i < |headers| => headers[i].name)
  }

  lemma CoveredOneMore(columns: seq<Column>, c: Column)
    ensures Covered(columns + [c]) == Covered(columns) + seq(c.arity, _ => c.name)
  {
    assert (columns + [c])[..|columns|] == columns;
  }

  lemma NamesOneMore(headers: seq<Header>, h: Header)
    ensures Names(headers + [h]) == Names(headers) + [h.name]
  {
  }

  lemma {:induction false} MentionsIffName(headers: seq<Header>, name: string)
    ensures Mentions(headers, name) > 0 <==> name in Names(headers)
  {
    if headers != [] {
      var rest, h := headers[..|headers| - 1], headers[|headers| - 1];
      assert headers == rest + [h];
      MentionsIffName(rest, name);
      NamesOneMore(rest, h);
    }
  }

  /** Column names differ, and each column is as wide as its name has header cells. */
  ghost predicate Fits(columns: seq<Column>, headers: seq<Header>) {
    && Covered(columns) == Names(headers)
    && (forall i, j :: 0 <= i < j < |columns| ==> columns[i].name != columns[j].name)
    && (forall i :: 0 <= i < |columns| ==> columns[i].arity == Mentions(headers, columns[i].name) >= 1)
  }

  /** Every accepted plan gives each header cell to the column of its own name, in order. */
  lemma {:induction false} PlanCoversHeaders(registry: Registry, headers: seq<Header>)
    requires PlanOf(registry, headers).Accepted?
    ensures Fits(PlanOf(registry, headers).columns, headers)
  {
    hide Fits, Mentions, Extend;
    if headers == [] {
      NothingFits();
    } else {
      var rest, h := headers[..|headers| - 1], headers[|headers| - 1];
      assert headers == rest + [h];
      PlanCoversHeaders(registry, rest);
      ExtendFits(registry, PlanOf(registry, rest).columns, rest, h);
    }
  }

  lemma ExtendFits(registry: Registry, columns: seq<Column>, headers: seq<Header>, h: Header)
    requires Fits(columns, headers) && Extend(registry, columns, Mentions(headers, h.name), h).Accepted?
    ensures Fits(Extend(registry, columns, Mentions(headers, h.name), h).columns, headers + [h])
  {
    hide Fits, Mentions, PlainKind;
    var after := Extend(registry, columns, Mentions(headers, h.name), h).columns;
    if Mentions(headers, h.name) == 0 {
      NewColumnFits(columns, headers, h, after[|columns|]);
    } else {
      FittingColumnsExist(columns, headers, h.name);
      WiderColumnFits(columns, headers, h, after);
    }
  }

  lemma {:induction false} CoveredNames(columns: seq<Column>, name: string)
    ensures name in Covered(columns) ==> exists i :: 0 <= i < |columns| && columns[i].name == name
  {
    if columns != [] {
      var rest, last := columns[..|columns| - 1], columns[|columns| - 1];
      CoveredNames(rest, name);
      if name in Covered(rest) {
        var i :| 0 <= i < |rest| && rest[i].name == name;
        assert columns[i].name == name;
      }
    }
  }

  lemma ColumnsExist(columns: seq<Column>, headers: seq<Header>, name: string)
    requires Covered(columns) == Names(headers) && Mentions(headers, name) > 0
    ensures columns != []
  {
    MentionsIffName(headers, name);
    CoveredNames(columns, name);
  }

  lemma FittingColumnsExist(columns: seq<Column>, headers: seq<Header>, name: string)
    requires Fits(columns, headers) && Mentions(headers, name) > 0
    ensures columns != []
  {
    hide Mentions, Covered, Names;
    ColumnsExist(columns, headers, name);
  }

  lemma NothingFits()
    ensures Fits([], [])
  {
  }

  lemma MentionsOneMore(headers: seq<Header>, h: Header, name: string)
    ensures Mentions(headers + [h], name) == Mentions(headers, name) + (if h.name == name then 1 else 0)
  {
    assert (headers + [h])[..|headers|] == headers;
  }

  lemma NewColumnFits(columns: seq<Column>, headers: seq<Header>, h: Header, c: Column)
    requires Fits(columns, headers) && Mentions(headers, h.name) == 0 && c.name == h.name && c.arity == 1
    ensures Fits(columns + [c], headers + [h])
  {
    hide Mentions;
    CoveredOneMore(columns, c);
    NamesOneMore(headers, h);
    assert seq(1, _ => c.name) == [h.name];
    forall i | 0 <= i < |columns| ensures columns[i].name != h.name {
      assert columns[i].arity == Mentions(headers, columns[i].name) >= 1;
    }
    forall i | 0 <= i < |columns| + 1
      ensures (columns + [c])[i].arity == Mentions(headers + [h], (columns + [c])[i].name) >= 1
    {
      MentionsOneMore(headers, h, (columns + [c])[i].name);
      if i < |columns| { assert (columns + [c])[i] == columns[i]; }
    }
  }

  lemma WiderColumnFits(columns: seq<Column>, headers: seq<Header>, h: Header, after: seq<Column>)
    requires Fits(columns, headers) && columns != [] && columns[|columns| - 1].name == h.name
    requires
      var last := columns[|columns| - 1];
      after == columns[..|columns| - 1]
        + [Column(last.name, RepeatedStructuredColumn, last.subs, Mentions(headers, h.name) + 1)]
    ensures Fits(after, headers + [h])
  {
    hide Mentions;
    var rest, last := columns[..|columns| - 1], columns[|columns| - 1];
    var n := Mentions(headers, h.name);
    assert last.arity == n;
    CoveredOneMore(rest, after[|rest|]);
    assert seq(n + 1, _ => h.name) == seq(n, _ => h.name) + [h.name];
    assert Covered(rest) + (seq(n, _ => h.name) + [h.name]) == Covered(rest) + seq(n, _ => h.name) + [h.name];
    NamesOneMore(headers, h);
    forall i | 0 <= i < |after| ensures after[i].arity == Mentions(headers + [h], after[i].name) >= 1 {
      MentionsOneMore(headers, h, after[i].name);
      if i < |rest| { assert after[i] == columns[i]; }
    }
    forall i, j | 0 <= i < j < |after| ensures after[i].name != after[j].name {
      assert after[i].name == columns[i].name && after[j].name == columns[j].name;
    }
  }

  ghost predicate AnnotationsFit(registry: Registry, headers: seq<Header>) {
    forall i :: 0 <= i < |headers| && headers[i].Annotated? && headers[i].name in registry ==>
      IsStructured(registry[headers[i].name])
  }

  /** When header cells share a name, the later one is annotated and follows one of that name. */
  ghost predicate RepeatsFit(headers: seq<Header>) {
    forall i, j :: 0 <= i < j < |headers| ==> PairFits(headers, i, j)
  }

  predicate PairFits(headers: seq<Header>, i: nat, j: nat)
    requires i < j < |headers|
  {
    headers[i].name == headers[j].name ==> headers[j].Annotated? && headers[j - 1].name == headers[j].name
  }

  ghost predicate WellFormed(registry: Registry, headers: seq<Header>) {
    AnnotationsFit(registry, headers) && RepeatsFit(headers)
  }

  lemma {:induction false} CoveredLast(columns: seq<Column>)
    requires columns != [] && columns[|columns| - 1].arity >= 1
    ensures Covered(columns) != [] && Covered(columns)[|Covered(columns)| - 1] == columns[|columns| - 1].name
  {
  }

  /** Exactly the well-formed header rows are accepted. */
  lemma {:induction false} AcceptedIff(registry: Registry, headers: seq<Header>)
    ensures PlanOf(registry, headers).Accepted? <==> WellFormed(registry, headers)
  {
    hide Fits, Names, Covered;
    if headers != [] {
      var rest, h := headers[..|headers| - 1], headers[|headers| - 1];
      assert headers == rest + [h];
      AcceptedIff(registry, rest);
      WellFormedOneMore(registry, rest, h);
      if PlanOf(registry, rest).Accepted? {
        PlanCoversHeaders(registry, rest);
        LastColumnName(PlanOf(registry, rest).columns, rest, h.name);
      }
    }
  }

  lemma LastColumnName(columns: seq<Column>, headers: seq<Header>, name: string)
    requires Fits(columns, headers)
    ensures Mentions(headers, name) > 0 ==>
      columns != [] && headers != [] && columns[|columns| - 1].name == headers[|headers| - 1].name
  {
    hide Covered, Mentions;
    if Mentions(headers, name) > 0 {
      ColumnsExist(columns, headers, name);
      CoveredLast(columns);
    }
  }

  lemma WellFormedOneMore(registry: Registry, rest: seq<Header>, h: Header)
    ensures WellFormed(registry, rest + [h]) <==>
      && WellFormed(registry, rest)
      && (h.Annotated? && h.name in registry ==> IsStructured(registry[h.name]))
      && (Mentions(rest, h.name) > 0 ==> rest != [] && h.Annotated? && rest[|rest| - 1].name == h.name)
  {
    hide RepeatsFit, Mentions;
    var headers := rest + [h];
    assert headers[|rest|] == h && forall i :: 0 <= i < |rest| ==> headers[i] == rest[i];
    RepeatsOneMore(rest, h);
  }

  lemma RepeatsOneMore(rest: seq<Header>, h: Header)
    ensures RepeatsFit(rest + [h]) <==>
      RepeatsFit(rest) && (Mentions(rest, h.name) > 0 ==> rest != [] && h.Annotated? && rest[|rest| - 1].name == h.name)
  {
    hide Mentions, PairFits;
    var headers, n := rest + [h], |rest|;
    forall i, j | 0 <= i < j < n ensures PairFits(headers, i, j) <==> PairFits(rest, i, j) { SamePair(rest, h, i, j); }
    LastPairs(rest, h);
    if RepeatsFit(headers) {
      forall i, j | 0 <= i < j < n ensures PairFits(rest, i, j) { assert PairFits(headers, i, j); }
      forall i | 0 <= i < n ensures PairFits(headers, i, n) {}
    }
  }

  lemma SamePair(rest: seq<Header>, h: Header, i: nat, j: nat)
    requires i < j < |rest|
    ensures PairFits(rest + [h], i, j) <==> PairFits(rest, i, j)
  {
    var headers := rest + [h];
    assert headers[i] == rest[i] && headers[j] == rest[j] && headers[j - 1] == rest[j - 1];
  }

  lemma LastPairs(rest: seq<Header>, h: Header)
    ensures (forall i :: 0 <= i < |rest| ==> PairFits(rest + [h], i, |rest|)) <==>
      (Mentions(rest, h.name) > 0 ==> rest != [] && h.Annotated? && rest[|rest| - 1].name == h.name)
  {
    hide Mentions;
    MentionsIffName(rest, h.name);
    var headers, n := rest + [h], |rest|;
    assert headers[n] == h && forall i :: 0 <= i < n ==> headers[i] == rest[i];
    if h.name in Names(rest) {
      var k :| 0 <= k < n && Names(rest)[k] == h.name;
      assert PairFits(headers, k, n) <==> h.Annotated? && rest[n - 1].name == h.name;
    } else {
      forall i | 0 <= i < n ensures PairFits(headers, i, n) { assert Names(rest)[i] in Names(rest); }
    }
  }
}
