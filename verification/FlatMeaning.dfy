/** What a header row means: the kind and sub-fields of each column, and the first error. */
module FlatMeaning {
  import opened AttributeKinds
  import opened FlatNotation
  import opened FlatRows
  import opened Splitting
  import opened Wrappers

  ghost predicate FirstNamed(headers: seq<Header>, name: string, i: nat) {
    i < |headers| && headers[i].name == name && forall j: nat | j < i :: headers[j].name != name
  }

  /** A name of several header cells makes a column of items; otherwise the only cell tells what the
      column holds. The sub-fields are always those of the first cell. */
  ghost predicate Described(registry: Registry, headers: seq<Header>, c: Column) {
    exists i: nat :: FirstNamed(headers, c.name, i) &&
      var h := headers[i];
      && c.subs == (if h.Annotated? then h.subs else [])
      && if c.arity > 1 then c.kind == RepeatedStructuredColumn
         else if h.Annotated? then c.kind == StructuredColumn
         else if c.name in registry && registry[c.name] == RepeatedScalar then c.kind == RepeatedScalarColumn
         else c.kind == TextColumn
  }

  lemma {:induction false} ColumnsAreDescribed(registry: Registry, headers: seq<Header>)
    requires PlanOf(registry, headers).Accepted?
    ensures forall c :: c in PlanOf(registry, headers).columns ==> Described(registry, headers, c)
  {
    hide Described, Mentions, Extend, Fits;
    if headers != [] {
      var rest, h := headers[..|headers| - 1], headers[|headers| - 1];
      ColumnsAreDescribed(registry, rest);
      PlanCoversHeaders(registry, rest);
      var before, after := PlanOf(registry, rest).columns, PlanOf(registry, headers).columns;
      assert headers == rest + [h];
      ExtendDescribes(registry, before, rest, h, after);
    }
  }

  lemma StaysDescribed(registry: Registry, headers: seq<Header>, h: Header, c: Column)
    requires Described(registry, headers, c)
    ensures Described(registry, headers + [h], c)
  {
    var i: nat :| FirstNamed(headers, c.name, i) &&
      var first := headers[i];
      && c.subs == (if first.Annotated? then first.subs else [])
      && if c.arity > 1 then c.kind == RepeatedStructuredColumn
         else if first.Annotated? then c.kind == StructuredColumn
         else if c.name in registry && registry[c.name] == RepeatedScalar then c.kind == RepeatedScalarColumn
         else c.kind == TextColumn;
    assert FirstNamed(headers + [h], c.name, i);
  }

  lemma ExtendDescribes(registry: Registry, before: seq<Column>, rest: seq<Header>, h: Header, after: seq<Column>)
    requires forall c :: c in before ==> Described(registry, rest, c)
    requires Fits(before, rest) && Extend(registry, before, Mentions(rest, h.name), h) == Accepted(after)
    ensures forall c :: c in after ==> Described(registry, rest + [h], c)
  {
    hide Described, Mentions, Fits;
    forall c | c in before ensures Described(registry, rest + [h], c) { StaysDescribed(registry, rest, h, c); }
    if Mentions(rest, h.name) == 0 {
      NewIsDescribed(registry, rest, h);
    } else {
      FittingColumnsExist(before, rest, h.name);
      WiderIsDescribed(registry, rest, h, before[|before| - 1], Mentions(rest, h.name));
    }
  }

  lemma NewIsDescribed(registry: Registry, rest: seq<Header>, h: Header)
    requires Mentions(rest, h.name) == 0
    ensures Described(registry, rest + [h],
      if h.Annotated? then Column(h.name, StructuredColumn, h.subs, 1)
      else Column(h.name, PlainKind(registry, h.name), [], 1))
  {
    hide Mentions;
    MentionsIffName(rest, h.name);
    var headers := rest + [h];
    forall j: nat | j < |rest| ensures headers[j].name != h.name {
      assert Names(rest)[j] == headers[j].name;
    }
    assert FirstNamed(headers, h.name, |rest|);
  }

  lemma WiderIsDescribed(registry: Registry, rest: seq<Header>, h: Header, c: Column, known: nat)
    requires known > 0 && Described(registry, rest, c)
    ensures Described(registry, rest + [h], Column(c.name, RepeatedStructuredColumn, c.subs, known + 1))
  {
    StaysDescribed(registry, rest, h, c);
  }

  // ----- Errors -----

  /** The cell at `i` is the first that does not fit those before it. */
  ghost predicate FirstWrong(registry: Registry, headers: seq<Header>, i: nat) {
    i < |headers| && WellFormed(registry, headers[..i]) && !WellFormed(registry, headers[..i + 1])
  }

  /** A row is rejected for the first cell that does not fit: an annotation on an attribute without
      sub-fields, an annotated name that occurred, but not just before, or a plain name that occurred. */
  lemma {:induction false} RejectedIff(registry: Registry, headers: seq<Header>, e: HeaderError)
    ensures PlanOf(registry, headers) == Rejected(e) <==> WrongWith(registry, headers, e)
  {
    hide WellFormed, Mentions, Extend;
    if headers != [] {
      var n := |headers| - 1;
      var rest, h := headers[..n], headers[n];
      RejectedIff(registry, rest, e);
      AcceptedIff(registry, rest);
      AcceptedIff(registry, headers);
      assert headers[..n + 1] == headers;
      forall i: nat | i < n ensures FirstWrong(registry, rest, i) <==> FirstWrong(registry, headers, i) {
        WrongInPrefix(registry, headers, n, i);
      }
      assert FirstWrong(registry, headers, n) <==> WellFormed(registry, rest) && !WellFormed(registry, headers);
      if PlanOf(registry, rest).Accepted? {
        NoneWrong(registry, rest);
        WrongAt(registry, PlanOf(registry, rest).columns, Mentions(rest, h.name), h);
      } else if WrongWith(registry, rest, e) {
        var i: nat :| FirstWrong(registry, rest, i) && e == ErrorAt(registry, rest[i]);
        assert FirstWrong(registry, headers, i);
      }
    }
  }

  ghost predicate WrongWith(registry: Registry, headers: seq<Header>, e: HeaderError) {
    exists i: nat :: FirstWrong(registry, headers, i) && e == ErrorAt(registry, headers[i])
  }

  lemma WrongInPrefix(registry: Registry, headers: seq<Header>, n: nat, i: nat)
    requires i < n <= |headers|
    ensures FirstWrong(registry, headers[..n], i) <==> FirstWrong(registry, headers, i)
  {
    hide WellFormed;
    assert headers[..n][..i] == headers[..i] && headers[..n][..i + 1] == headers[..i + 1];
  }

  ghost function ErrorAt(registry: Registry, h: Header): HeaderError {
    if h.Plain? then Duplicate(h.name)
    else if h.name in registry && registry[h.name] in {Scalar, RepeatedScalar} then NotStructured(h.name)
    else NotAdjacent(h.name)
  }

  lemma WrongAt(registry: Registry, columns: seq<Column>, known: nat, h: Header)
    ensures Extend(registry, columns, known, h).Rejected? ==>
      Extend(registry, columns, known, h).error == ErrorAt(registry, h)
  {
  }

  lemma {:induction false} WellFormedPrefix(registry: Registry, headers: seq<Header>, i: nat)
    requires i <= |headers| && WellFormed(registry, headers)
    ensures WellFormed(registry, headers[..i])
  {
    var part := headers[..i];
    forall j, k | 0 <= j < k < i ensures PairFits(part, j, k) {
      assert PairFits(headers, j, k);
      assert part[j] == headers[j] && part[k] == headers[k] && part[k - 1] == headers[k - 1];
    }
  }

  lemma NoneWrong(registry: Registry, headers: seq<Header>)
    requires WellFormed(registry, headers)
    ensures forall i: nat :: !FirstWrong(registry, headers, i)
  {
    hide WellFormed;
    forall i: nat ensures !FirstWrong(registry, headers, i) {
      if i < |headers| { WellFormedPrefix(registry, headers, i + 1); }
    }
  }

  // ----- Bad cells -----

  ghost predicate Overfull(c: Column, cells: seq<string>, n: nat) {
    n < |cells| && cells[n] != "" && |Parts(cells[n], ':')| > |c.subs|
  }

  /** Some cell of a structured column has more parts than the header names. */
  ghost predicate Spills(c: Column, cells: seq<string>, from: nat) {
    match c.kind
    case RepeatedStructuredColumn => exists n: nat :: from <= n < from + c.arity && Overfull(c, cells, n)
    case StructuredColumn => Overfull(c, cells, from)
    case _ => false
  }

  lemma {:induction false} CellsSpill(c: Column, cells: seq<string>, from: nat, n: nat)
    ensures CellStructs(c.subs, cells, from, n).None? <==>
      exists k: nat :: from <= k < from + n && Overfull(c, cells, k)
  {
    hide Parts, Zip;
    if n > 0 {
      CellsSpill(c, cells, from, n - 1);
      assert CellStructs(c.subs, cells, from, n).None? <==>
        CellStructs(c.subs, cells, from, n - 1).None? || Overfull(c, cells, from + n - 1);
    }
  }

  lemma SpillsIff(c: Column, cells: seq<string>, from: nat)
    ensures ReadColumn(c, cells, from).TooMany? <==> Spills(c, cells, from)
  {
    hide Parts, Zip, CellStructs, CellList;
    CellsSpill(c, cells, from, c.arity);
  }

  ghost predicate FirstBad(columns: seq<Column>, cells: seq<string>, i: nat) {
    && i < |columns| && Spills(columns[i], cells, Offset(columns[..i]))
    && forall j: nat | j < i :: !Spills(columns[j], cells, Offset(columns[..j]))
  }

  ghost predicate BadColumn(columns: seq<Column>, cells: seq<string>, name: string) {
    exists i: nat :: FirstBad(columns, cells, i) && columns[i].name == name
  }

  lemma BadInPrefix(columns: seq<Column>, cells: seq<string>, n: nat, i: nat)
    requires i < n <= |columns|
    ensures FirstBad(columns[..n], cells, i) <==> FirstBad(columns, cells, i)
  {
    hide Spills, Offset;
    forall j: nat | j <= i ensures columns[..n][..j] == columns[..j] && columns[..n][j] == columns[j] {}
  }

  /** Reading a row stops at the first column with an overfull cell, and reports its name. */
  lemma {:induction false} BadIff(columns: seq<Column>, cells: seq<string>, name: string)
    ensures ReadRow(columns, cells).bad == Some(name) <==> BadColumn(columns, cells, name)
    ensures ReadRow(columns, cells).bad.None? <==>
      forall i: nat | i < |columns| :: !Spills(columns[i], cells, Offset(columns[..i]))
  {
    hide Spills, Offset, ReadColumn;
    if columns != [] {
      var n := |columns| - 1;
      BadIff(columns[..n], cells, name);
      SpillsIff(columns[n], cells, Offset(columns[..n]));
      forall i: nat | i < n ensures FirstBad(columns[..n], cells, i) <==> FirstBad(columns, cells, i) {
        BadInPrefix(columns, cells, n, i);
      }
      forall i: nat | i < n ensures columns[..n][..i] == columns[..i] && columns[..n][i] == columns[i] {}
    }
  }
}
