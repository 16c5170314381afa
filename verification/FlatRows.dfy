/** Reading the cells of a flat table row under a header plan, and writing them. */
module FlatRows {
  import opened Splitting
  import opened FlatNotation
  import opened Wrappers

  datatype Value =
    | Text(text: string)
    | Texts(texts: seq<string>)
    | Struct(fields: map<string, string>)
    | Structs(items: seq<map<string, string>>)

  type Row = map<string, Value>

  // ----- Lists in one cell -----

  /** Commas split outside quotes; quote characters are dropped wherever they stand. */
  function CsvParts(s: string, buffer: string, quoted: bool): (parts: seq<string>)
    ensures parts != []
  {
    if s == "" then [buffer]
    else if s[0] == '"' then CsvParts(s[1..], buffer, !quoted)
    else if s[0] == ',' && !quoted then [buffer] + CsvParts(s[1..], "", quoted)
    else CsvParts(s[1..], buffer + [s[0]], quoted)
  }

  predicate Quoted(cell: string) {
    cell != "" && cell[0] == '"' && cell[|cell| - 1] == '"'
  }

  function CellList(cell: string): Value {
    var parts := CsvParts(cell, "", false);
    if |parts| == 1 && !Quoted(cell) then Text(parts[0]) else Texts(parts)
  }

  method SplitCsvCell(cell: string) returns (value: Value)
    ensures value == CellList(cell)
  {
    var parts: seq<string>, buffer, quoted := [], "", false;
    assert cell[0..] == cell;
    for i := 0 to |cell|
      invariant parts + CsvParts(cell[i..], buffer, quoted) == CsvParts(cell, "", false)
    {
      var c := cell[i];
      assert cell[i..][1..] == cell[i + 1..];
      if c == '"' {
        quoted := !quoted;
        continue;
      }
      if c == ',' && !quoted {
        parts := parts + [buffer];
        buffer := "";
        continue;
      }
      buffer := buffer + [c];
    }
    parts := parts + [buffer];
    value := if |parts| == 1 && !Quoted(cell) then Text(parts[0]) else Texts(parts);
  }

  /** Quotes doubled, as section 2 of RFC 4180 writes them. */
  function Doubled(v: string): string {
    if v == "" then "" else (if v[0] == '"' then "\"\"" else [v[0]]) + Doubled(v[1..])
  }

  function QuotedCell(v: string): string {
    "\"" + Doubled(v) + "\""
  }

  function QuotedCells(vs: seq<string>): seq<string> {
    seq(|vs|, i requires 0 <= i < |vs| => QuotedCell(vs[i]))
  }

  function WriteList(vs: seq<string>): string
    requires vs != []
  {
    Joined(QuotedCells(vs), ',')
  }

  function Unquoted(v: string): string {
    if v == "" then "" else (if v[0] == '"' then "" else [v[0]]) + Unquoted(v[1..])
  }

  predicate QuoteFree(v: string) {
    Without(v, '"')
  }

  lemma {:induction false} UnquotedIsQuoteFree(v: string)
    ensures QuoteFree(Unquoted(v)) && (Unquoted(v) == v <==> QuoteFree(v))
    ensures |Unquoted(v)| <= |v|
  {
    if v != "" {
      UnquotedIsQuoteFree(v[1..]);
      assert v == [v[0]] + v[1..];
      if QuoteFree(v) { assert QuoteFree(v[1..]); }
    }
  }

  lemma {:induction false} InsideQuotes(v: string, rest: string, buffer: string)
    ensures CsvParts(Doubled(v) + rest, buffer, true) == CsvParts(rest, buffer + Unquoted(v), true)
  {
    hide CsvParts;
    if v == "" {
      assert Doubled(v) + rest == rest && buffer + Unquoted(v) == buffer;
    } else {
      var tail := Doubled(v[1..]) + rest;
      if v[0] == '"' {
        assert Doubled(v) + rest == "\"\"" + tail;
        TwoQuotes(tail, buffer);
        InsideQuotes(v[1..], rest, buffer);
        assert Unquoted(v) == "" + Unquoted(v[1..]) == Unquoted(v[1..]);
      } else {
        assert Doubled(v) + rest == [v[0]] + tail;
        OneChar(v[0], tail, buffer);
        InsideQuotes(v[1..], rest, buffer + [v[0]]);
        assert buffer + [v[0]] + Unquoted(v[1..]) == buffer + Unquoted(v);
      }
    }
  }

  lemma TwoQuotes(tail: string, buffer: string)
    ensures CsvParts("\"\"" + tail, buffer, true) == CsvParts(tail, buffer, true)
  {
    var s := "\"\"" + tail;
    assert s[1..] == "\"" + tail && s[1..][1..] == tail;
  }

  lemma OneChar(c: char, tail: string, buffer: string)
    requires c != '"'
    ensures CsvParts([c] + tail, buffer, true) == CsvParts(tail, buffer + [c], true)
  {
    assert ([c] + tail)[1..] == tail;
  }

  lemma OneQuotedCell(v: string, rest: string)
    ensures CsvParts(QuotedCell(v) + rest, "", false) == CsvParts(rest, Unquoted(v), false)
  {
    var s := QuotedCell(v) + rest;
    assert s[0] == '"' && s[1..] == Doubled(v) + ("\"" + rest);
    InsideQuotes(v, "\"" + rest, "");
    assert "" + Unquoted(v) == Unquoted(v) && ("\"" + rest)[1..] == rest;
  }

  function UnquotedAll(vs: seq<string>): seq<string> {
    seq(|vs|, i requires 0 <= i < |vs| => Unquoted(vs[i]))
  }

  lemma {:induction false} ListReadsBack(vs: seq<string>)
    requires vs != []
    ensures CsvParts(WriteList(vs), "", false) == UnquotedAll(vs) && Quoted(WriteList(vs))
  {
    var cell := WriteList(vs);
    if |vs| == 1 {
      assert cell == QuotedCell(vs[0]) + "";
      OneQuotedCell(vs[0], "");
      assert cell[0] == '"' && cell[|cell| - 1] == '"';
    } else {
      ListReadsBack(vs[1..]);
      var more := WriteList(vs[1..]);
      assert QuotedCells(vs)[1..] == QuotedCells(vs[1..]);
      assert cell == QuotedCell(vs[0]) + ("," + more);
      OneQuotedCell(vs[0], "," + more);
      assert ("," + more)[1..] == more;
      assert UnquotedAll(vs) == [Unquoted(vs[0])] + UnquotedAll(vs[1..]);
      assert cell[|cell| - 1] == more[|more| - 1];
    }
  }

  /** A written list reads back exactly when no value holds a quote: doubled ones are not decoded. */
  lemma ListRoundTripIff(vs: seq<string>)
    requires vs != []
    ensures CellList(WriteList(vs)) == Texts(vs) <==> forall i :: 0 <= i < |vs| ==> QuoteFree(vs[i])
  {
    ListReadsBack(vs);
    forall i | 0 <= i < |vs| ensures Unquoted(vs[i]) == vs[i] <==> QuoteFree(vs[i]) { UnquotedIsQuoteFree(vs[i]); }
    if UnquotedAll(vs) == vs {
      forall i | 0 <= i < |vs| ensures QuoteFree(vs[i]) { assert UnquotedAll(vs)[i] == vs[i]; }
    }
  }

  lemma {:induction false} BareParts(v: string, buffer: string)
    requires QuoteFree(v) && Without(v, ',')
    ensures CsvParts(v, buffer, false) == [buffer + v]
  {
    if v == "" {
      assert buffer + v == buffer;
    } else {
      assert QuoteFree(v[1..]) && Without(v[1..], ',');
      BareParts(v[1..], buffer + [v[0]]);
      assert buffer + [v[0]] + v[1..] == buffer + v;
    }
  }

  lemma {:induction false} OnlyPart(s: string, buffer: string, quoted: bool)
    requires |CsvParts(s, buffer, quoted)| == 1
    ensures |CsvParts(s, buffer, quoted)[0]| <= |buffer| + |s|
    ensures |CsvParts(s, buffer, quoted)[0]| == |buffer| + |s| ==> QuoteFree(s) && (quoted || Without(s, ','))
  {
    if s != "" {
      assert s == [s[0]] + s[1..];
      if s[0] == '"' {
        OnlyPart(s[1..], buffer, !quoted);
      } else if s[0] != ',' || quoted {
        OnlyPart(s[1..], buffer + [s[0]], quoted);
      }
    }
  }

  lemma BareReadsBackIff(v: string)
    requires v != ""
    ensures CellList(v) == Text(v) <==> QuoteFree(v) && Without(v, ',')
  {
    if QuoteFree(v) && Without(v, ',') {
      BareParts(v, "");
      assert "" + v == v;
    } else if |CsvParts(v, "", false)| == 1 {
      OnlyPart(v, "", false);
    }
  }

  // ----- Structures in one cell -----

  function Zip(subs: seq<string>, parts: seq<string>): map<string, string>
    requires |subs| == |parts|
  {
    if subs == [] then map[]
    else Zip(subs[..|subs| - 1], parts[..|parts| - 1])[subs[|subs| - 1] := parts[|parts| - 1]]
  }

  function Padded(parts: seq<string>, n: nat): (padded: seq<string>)
    requires |parts| <= n
    ensures |padded| == n
  {
    parts + seq(n - |parts|, _ => "")
  }

  /** None when the cell has more parts than the header names. */
  function CellStruct(subs: seq<string>, cell: string): Option<map<string, string>> {
    var parts := Parts(cell, ':');
    if |parts| > |subs| then None else Some(Zip(subs, Padded(parts, |subs|)))
  }

  function Fields(subs: seq<string>, m: map<string, string>): seq<string>
    requires forall s :: s in subs ==> s in m
  {
    seq(|subs|, i requires 0 <= i < |subs| => m[subs[i]])
  }

  /** A structure a cell can hold: exactly the sub-fields, no colons, and not blank altogether. */
  ghost predicate Writable(subs: seq<string>, m: map<string, string>) {
    && subs != []
    && (forall s :: s in m <==> s in subs)
    && (forall s :: s in m ==> Without(m[s], ':'))
    && (|subs| == 1 ==> m[subs[0]] != "")
  }

  function WriteStruct(subs: seq<string>, m: map<string, string>): string
    requires subs != [] && forall s :: s in subs ==> s in m
  {
    Joined(Fields(subs, m), ':')
  }

  lemma ZipOneMore(subs: seq<string>, last: string, m: map<string, string>)
    requires last in m && forall s :: s in subs ==> s in m
    ensures Zip(subs + [last], Fields(subs + [last], m)) == Zip(subs, Fields(subs, m))[last := m[last]]
  {
    var longer := subs + [last];
    assert longer[..|subs|] == subs;
    assert Fields(longer, m)[..|subs|] == Fields(subs, m);
  }

  lemma {:induction false} ZipFields(subs: seq<string>, m: map<string, string>)
    requires forall s :: s in subs ==> s in m
    ensures forall k :: k in Zip(subs, Fields(subs, m)) <==> k in subs
    ensures forall k :: k in subs ==> Zip(subs, Fields(subs, m))[k] == m[k]
  {
    if subs != [] {
      var rest, last := subs[..|subs| - 1], subs[|subs| - 1];
      assert subs == rest + [last];
      ZipFields(rest, m);
      ZipOneMore(rest, last, m);
    }
  }

  lemma StructReadsBackIff(subs: seq<string>, m: map<string, string>)
    requires subs != [] && forall s :: s in subs ==> s in m
    ensures WriteStruct(subs, m) != "" && CellStruct(subs, WriteStruct(subs, m)) == Some(m) <==> Writable(subs, m)
  {
    var parts, cell := Fields(subs, m), WriteStruct(subs, m);
    JoinedPartsIff(parts, ':');
    JoinedLength(parts, ':');
    if forall i :: 0 <= i < |parts| ==> Without(parts[i], ':') {
      PartsOfJoined(parts, ':');
      assert Padded(parts, |subs|) == parts;
      ZipFields(subs, m);
      assert Zip(subs, parts) == m <==> forall s :: s in m <==> s in subs;
      forall s | s in subs ensures Without(m[s], ':') {
        var i :| 0 <= i < |subs| && subs[i] == s;
        assert parts[i] == m[s];
      }
      assert |subs| == 1 ==> cell == parts[0] == m[subs[0]];
    } else {
      var i :| 0 <= i < |parts| && !Without(parts[i], ':');
      assert subs[i] in m && parts[i] == m[subs[i]];
    }
  }

  // ----- Columns -----

  function CellAt(cells: seq<string>, i: nat): string {
    if i < |cells| then cells[i] else ""
  }

  datatype Read = Absent | Found(value: Value) | TooMany

  /** The structures of `n` cells, empty cells left out; None when one has too many parts. */
  function CellStructs(subs: seq<string>, cells: seq<string>, from: nat, n: nat): Option<seq<map<string, string>>> {
    if n == 0 then Some([])
    else
      var before, cell := CellStructs(subs, cells, from, n - 1), CellAt(cells, from + n - 1);
      if before.None? || cell == "" then before
      else
        var m := CellStruct(subs, cell);
        if m.None? then None else Some(before.value + [m.value])
  }

  function ReadColumn(c: Column, cells: seq<string>, from: nat): Read {
    match c.kind
    case RepeatedStructuredColumn =>
      var items := CellStructs(c.subs, cells, from, c.arity);
      if items.None? then TooMany else if items.value == [] then Absent else Found(Structs(items.value))
    case StructuredColumn =>
      if CellAt(cells, from) == "" then Absent
      else
        var m := CellStruct(c.subs, CellAt(cells, from));
        if m.None? then TooMany else Found(Struct(m.value))
    case RepeatedScalarColumn =>
      if CellAt(cells, from) == "" then Absent else Found(CellList(CellAt(cells, from)))
    case TextColumn =>
      if CellAt(cells, from) == "" then Absent else Found(Text(CellAt(cells, from)))
  }

  /** How many cells reading a column moves on. */
  function Width(c: Column): nat {
    if c.kind.RepeatedStructuredColumn? then c.arity else 1
  }

  /** The first cell after some columns. */
  function Offset(columns: seq<Column>): nat {
    if columns == [] then 0 else Offset(columns[..|columns| - 1]) + Width(columns[|columns| - 1])
  }

  datatype RowRead = RowRead(row: Row, bad: Option<string>)

  /** The row, or what was read before the first column with a bad cell. */
  function ReadRow(columns: seq<Column>, cells: seq<string>): RowRead {
    if columns == [] then RowRead(map[], None)
    else
      var rest, c := columns[..|columns| - 1], columns[|columns| - 1];
      var before := ReadRow(rest, cells);
      if before.bad.Some? then before
      else
        match ReadColumn(c, cells, Offset(rest))
        case Absent => before
        case Found(v) => RowRead(before.row[c.name := v], None)
        case TooMany => RowRead(before.row, Some(c.name))
  }

  method ReadStructs(subs: seq<string>, cells: seq<string>, from: nat, n: nat)
    returns (items: Option<seq<map<string, string>>>)
    ensures items == CellStructs(subs, cells, from, n)
  {
    hide Zip, Parts;
    var structs: seq<map<string, string>> := [];
    for i := 0 to n
      invariant CellStructs(subs, cells, from, i) == Some(structs)
    {
      var cell := if from + i < |cells| then cells[from + i] else "";
      if cell == "" { continue; }
      var parts := Parts(cell, ':');
      if |parts| > |subs| {
        StaysBad(subs, cells, from, i + 1, n);
        return None;
      }
      if |parts| < |subs| { parts := parts + seq(|subs| - |parts|, _ => ""); }
      assert parts == Padded(Parts(cell, ':'), |subs|);
      structs := structs + [Zip(subs, parts)];
    }
    items := Some(structs);
  }

  lemma {:induction false} StaysBad(subs: seq<string>, cells: seq<string>, from: nat, i: nat, n: nat)
    requires i <= n && CellStructs(subs, cells, from, i).None?
    ensures CellStructs(subs, cells, from, n).None?
    decreases n - i
  {
    if i < n { StaysBad(subs, cells, from, i + 1, n); }
  }

  method SplitRow(columns: seq<Column>, cells: seq<string>) returns (row: Row, bad: Option<string>)
    ensures RowRead(row, bad) == ReadRow(columns, cells)
  {
    row, bad := map[], None;
    var at := 0;
    for i := 0 to |columns|
      invariant at == Offset(columns[..i]) && bad.None?
      invariant ReadRow(columns[..i], cells) == RowRead(row, None)
    {
      var c := columns[i];
      assert columns[..i + 1][..i] == columns[..i];
      if c.kind.RepeatedStructuredColumn? {
        var items := ReadStructs(c.subs, cells, at, c.arity);
        if items.None? {
          bad := Some(c.name);
          RowStaysBad(columns, cells, i + 1);
          return;
        }
        if items.value != [] { row := row[c.name := Structs(items.value)]; }
        at := at + c.arity;
      } else {
        var cell := if at < |cells| then cells[at] else "";
        at := at + 1;
        if cell == "" { continue; }
        if c.kind.StructuredColumn? {
          var m := CellStruct(c.subs, cell);
          if m.None? {
            bad := Some(c.name);
            RowStaysBad(columns, cells, i + 1);
            return;
          }
          row := row[c.name := Struct(m.value)];
        } else if c.kind.RepeatedScalarColumn? {
          var value := SplitCsvCell(cell);
          row := row[c.name := value];
        } else {
          row := row[c.name := Text(cell)];
        }
      }
    }
    assert columns[..|columns|] == columns;
  }

  lemma {:induction false} RowStaysBad(columns: seq<Column>, cells: seq<string>, n: nat)
    requires n <= |columns| && ReadRow(columns[..n], cells).bad.Some?
    ensures ReadRow(columns, cells) == ReadRow(columns[..n], cells)
    decreases |columns| - n
  {
    if n < |columns| {
      assert columns[..n + 1][..n] == columns[..n];
      RowStaysBad(columns, cells, n + 1);
    } else {
      assert columns[..n] == columns;
    }
  }

  // ----- Each cell under its own header -----

  /** Only columns met twice are wider than one cell. */
  ghost predicate Narrow(columns: seq<Column>) {
    forall i :: 0 <= i < |columns| ==> columns[i].kind.RepeatedStructuredColumn? || columns[i].arity == 1
  }

  lemma {:induction false} PlansAreNarrow(registry: Registry, headers: seq<Header>)
    requires PlanOf(registry, headers).Accepted?
    ensures Narrow(PlanOf(registry, headers).columns)
  {
    if headers != [] { PlansAreNarrow(registry, headers[..|headers| - 1]); }
  }

  lemma {:induction false} CoveredAt(columns: seq<Column>, j: nat, k: nat)
    requires Narrow(columns) && j < |columns| && k < columns[j].arity
    ensures Offset(columns[..j]) + k < |Covered(columns)| == Offset(columns)
    ensures Covered(columns)[Offset(columns[..j]) + k] == columns[j].name
    decreases |columns|
  {
    var rest, n := columns[..|columns| - 1], |columns| - 1;
    CoveredLength(rest);
    CoveredLength(columns);
    if j < n {
      assert rest[..j] == columns[..j];
      CoveredAt(rest, j, k);
    }
  }

  lemma {:induction false} CoveredLength(columns: seq<Column>)
    requires Narrow(columns)
    ensures |Covered(columns)| == Offset(columns)
  {
    if columns != [] { CoveredLength(columns[..|columns| - 1]); }
  }

  lemma {:induction false} ReadAt(columns: seq<Column>, cells: seq<string>, j: nat)
    requires j < |columns| && ReadRow(columns, cells).bad.None?
    requires forall i, k :: 0 <= i < k < |columns| ==> columns[i].name != columns[k].name
    ensures
      var read, row := ReadColumn(columns[j], cells, Offset(columns[..j])), ReadRow(columns, cells).row;
      && !read.TooMany?
      && (read.Found? ==> columns[j].name in row && row[columns[j].name] == read.value)
      && (read.Absent? ==> columns[j].name !in row)
    ensures forall name :: name in ReadRow(columns, cells).row ==>
      exists i :: 0 <= i < |columns| && columns[i].name == name
    decreases |columns|
  {
    hide ReadColumn, Offset;
    var rest, n := columns[..|columns| - 1], |columns| - 1;
    RowNames(columns, cells);
    RowNames(rest, cells);
    if j < n {
      assert rest[..j] == columns[..j] && rest[j] == columns[j];
      ReadAt(rest, cells, j);
    }
  }

  lemma {:induction false} RowNames(columns: seq<Column>, cells: seq<string>)
    ensures forall name :: name in ReadRow(columns, cells).row ==>
      exists i :: 0 <= i < |columns| && columns[i].name == name
  {
    hide ReadColumn;
    if columns != [] {
      var rest, n := columns[..|columns| - 1], |columns| - 1;
      RowNames(rest, cells);
      forall name | name in ReadRow(columns, cells).row
        ensures exists i :: 0 <= i < |columns| && columns[i].name == name
      {
        if name in ReadRow(rest, cells).row {
          var i :| 0 <= i < |rest| && rest[i].name == name;
          assert columns[i].name == name;
        } else {
          assert columns[n].name == name;
        }
      }
    }
  }

  /** Under an accepted plan the cells a column reads are exactly those whose header has its name,
      and the columns take up all header cells. */
  lemma ReadsUnderOwnHeader(registry: Registry, headers: seq<Header>, cells: seq<string>, j: nat)
    requires PlanOf(registry, headers).Accepted? && j < |PlanOf(registry, headers).columns|
    requires ReadRow(PlanOf(registry, headers).columns, cells).bad.None?
    ensures
      var columns := PlanOf(registry, headers).columns;
      var c, from, row := columns[j], Offset(columns[..j]), ReadRow(columns, cells).row;
      && Offset(columns) == |headers| && Width(c) == c.arity >= 1
      && from + c.arity <= |headers| && (forall k :: from <= k < from + c.arity ==> headers[k].name == c.name)
      && c.arity == Mentions(headers, c.name)
      && ReadColumn(c, cells, from) == if c.name in row then Found(row[c.name]) else Absent
  {
    hide ReadColumn, Mentions;
    var columns := PlanOf(registry, headers).columns;
    PlanCoversHeaders(registry, headers);
    PlansAreNarrow(registry, headers);
    CoveredLength(columns);
    ReadAt(columns, cells, j);
    var from := Offset(columns[..j]);
    CoveredAt(columns, j, columns[j].arity - 1);
    forall k | from <= k < from + columns[j].arity ensures headers[k].name == columns[j].name {
      CoveredAt(columns, j, k - from);
      assert Names(headers)[k] == columns[j].name;
    }
  }

  // ----- Writing a row -----

  /** The values the cells of a column can hold. */
  ghost predicate Holds(c: Column, v: Value) {
    match c.kind
    case RepeatedStructuredColumn =>
      v.Structs? && 1 <= |v.items| <= c.arity && forall i :: 0 <= i < |v.items| ==> Writable(c.subs, v.items[i])
    case StructuredColumn => v.Struct? && Writable(c.subs, v.fields)
    case RepeatedScalarColumn =>
      || (v.Texts? && v.texts != [] && forall i :: 0 <= i < |v.texts| ==> QuoteFree(v.texts[i]))
      || (v.Text? && v.text != "" && QuoteFree(v.text) && Without(v.text, ','))
    case TextColumn => v.Text? && v.text != ""
  }

  function StructCell(subs: seq<string>, m: map<string, string>): string {
    if subs != [] && forall s :: s in subs ==> s in m then WriteStruct(subs, m) else ""
  }

  /** The cells of one value, empty ones at the end. */
  function WriteValue(c: Column, v: Value): (cells: seq<string>)
    ensures |cells| == Width(c)
  {
    if c.kind.RepeatedStructuredColumn? then
      seq(c.arity, k requires 0 <= k < c.arity =>
        if v.Structs? && k < |v.items| then StructCell(c.subs, v.items[k]) else "")
    else
      match v
      case Text(text) => [text]
      case Texts(texts) => [if texts == [] then "" else WriteList(texts)]
      case Struct(fields) => [StructCell(c.subs, fields)]
      case Structs(_) => [""]
  }

  function WriteColumn(c: Column, row: Row): (cells: seq<string>)
    ensures |cells| == Width(c)
  {
    if c.name in row then WriteValue(c, row[c.name]) else seq(Width(c), _ => "")
  }

  function WriteRow(columns: seq<Column>, row: Row): seq<string> {
    if columns == [] then []
    else WriteRow(columns[..|columns| - 1], row) + WriteColumn(columns[|columns| - 1], row)
  }

  lemma {:induction false} WriteRowLength(columns: seq<Column>, row: Row)
    ensures |WriteRow(columns, row)| == Offset(columns)
  {
    if columns != [] { WriteRowLength(columns[..|columns| - 1], row); }
  }

  ghost predicate CellsFrom(cells: seq<string>, from: nat, own: seq<string>) {
    forall k :: from <= k < from + |own| ==> CellAt(cells, k) == own[k - from]
  }

  lemma StructCellReadsBackIff(subs: seq<string>, m: map<string, string>)
    ensures StructCell(subs, m) != "" && CellStruct(subs, StructCell(subs, m)) == Some(m) <==> Writable(subs, m)
  {
    hide CellStruct, WriteStruct;
    if subs != [] && forall s :: s in subs ==> s in m { StructReadsBackIff(subs, m); }
  }

  /** The first structures are found exactly when a cell can hold each of them. */
  lemma {:induction false} StructsReadBackIff(
    subs: seq<string>, cells: seq<string>, from: nat, items: seq<map<string, string>>, n: nat)
    requires forall k :: from <= k < from + n ==>
      CellAt(cells, k) == if k - from < |items| then StructCell(subs, items[k - from]) else ""
    ensures
      var shown, found := items[..if n < |items| then n else |items|], CellStructs(subs, cells, from, n);
      && (found.Some? ==> |found.value| <= |shown|)
      && (found == Some(shown) <==> forall i :: 0 <= i < |shown| ==> Writable(subs, shown[i]))
    decreases n
  {
    hide CellStruct, Writable, StructCell, CellAt;
    if n > 0 {
      StructsReadBackIff(subs, cells, from, items, n - 1);
      assert CellAt(cells, from + n - 1) == if n - 1 < |items| then StructCell(subs, items[n - 1]) else "";
      if n <= |items| {
        StructCellReadsBackIff(subs, items[n - 1]);
        assert items[..n] == items[..n - 1] + [items[n - 1]];
        LastOneMore(subs, items[..n - 1], items[n - 1]);
        var found := CellStructs(subs, cells, from, n);
        if found == Some(items[..n]) {
          assert found.value[..n - 1] == items[..n - 1] && found.value[n - 1] == items[n - 1];
        }
      }
    }
  }

  lemma LastOneMore(subs: seq<string>, items: seq<map<string, string>>, item: map<string, string>)
    ensures
      (forall i :: 0 <= i < |items + [item]| ==> Writable(subs, (items + [item])[i])) <==>
        (forall i :: 0 <= i < |items| ==> Writable(subs, items[i])) && Writable(subs, item)
  {
    hide Writable;
    var longer := items + [item];
    assert longer[|items|] == item && forall i :: 0 <= i < |items| ==> longer[i] == items[i];
  }

  lemma EmptyCellsHoldNothing(subs: seq<string>, cells: seq<string>, from: nat, n: nat)
    requires forall k :: from <= k < from + n ==> CellAt(cells, k) == ""
    ensures CellStructs(subs, cells, from, n) == Some([])
  {
    StructsReadBackIff(subs, cells, from, [], n);
  }

  lemma ValueReadsBackIff(c: Column, v: Value, cells: seq<string>, from: nat)
    requires CellsFrom(cells, from, WriteValue(c, v))
    ensures ReadColumn(c, cells, from) == Found(v) <==> Holds(c, v)
  {
    hide Parts, CsvParts, Zip, CellStruct, StructCell, Quoted, WriteList, Writable;
    var own := WriteValue(c, v);
    match c.kind
    case RepeatedStructuredColumn =>
      StructCellsReadBackIff(c, v, cells, from);
    case StructuredColumn =>
      assert CellAt(cells, from) == own[0];
      if v.Struct? { StructCellReadsBackIff(c.subs, v.fields); }
    case RepeatedScalarColumn =>
      assert CellAt(cells, from) == own[0];
      if v.Texts? && v.texts != [] {
        ListRoundTripIff(v.texts);
        ListIsNotEmpty(v.texts);
      } else if v.Text? && v.text != "" {
        BareReadsBackIff(v.text);
      }
    case TextColumn =>
      assert CellAt(cells, from) == own[0];
  }

  lemma StructCellsReadBackIff(c: Column, v: Value, cells: seq<string>, from: nat)
    requires c.kind.RepeatedStructuredColumn? && CellsFrom(cells, from, WriteValue(c, v))
    ensures ReadColumn(c, cells, from) == Found(v) <==> Holds(c, v)
  {
    hide StructCell, Writable, CellAt, CellStruct;
    if v.Structs? {
      var items, own := v.items, WriteValue(c, v);
      forall k | from <= k < from + c.arity
        ensures CellAt(cells, k) == if k - from < |items| then StructCell(c.subs, items[k - from]) else ""
      {
        assert CellAt(cells, k) == own[k - from];
      }
      StructsReadBackIff(c.subs, cells, from, items, c.arity);
      if |items| <= c.arity { assert items[..|items|] == items; }
    }
  }

  lemma ListIsNotEmpty(vs: seq<string>)
    requires vs != []
    ensures WriteList(vs) != ""
  {
    ListReadsBack(vs);
  }

  lemma NothingReadsBack(c: Column, cells: seq<string>, from: nat)
    requires CellsFrom(cells, from, seq(Width(c), _ => ""))
    ensures ReadColumn(c, cells, from) == Absent
  {
    hide CellStruct, CellList;
    var own := seq(Width(c), _ => "");
    if c.kind.RepeatedStructuredColumn? {
      EmptyCellsHoldNothing(c.subs, cells, from, c.arity);
    } else {
      assert CellAt(cells, from) == own[0];
    }
  }

  /** The part of a row that belongs to some columns. */
  function Under(row: Row, columns: seq<Column>): Row {
    map name | name in row && (exists i :: 0 <= i < |columns| && columns[i].name == name) :: row[name]
  }

  lemma UnderOneMore(row: Row, columns: seq<Column>, c: Column)
    ensures Under(row, columns + [c]) ==
      if c.name in row then Under(row, columns)[c.name := row[c.name]] else Under(row, columns)
  {
    var longer := columns + [c];
    assert longer[|columns|] == c && forall i :: 0 <= i < |columns| ==> longer[i] == columns[i];
    forall name | name in row
      ensures name in Under(row, longer) <==> name in Under(row, columns) || name == c.name
    {
      if name in Under(row, columns) {
        var i :| 0 <= i < |columns| && columns[i].name == name;
        assert longer[i].name == name;
      }
    }
  }

  /** Each column finds the cells written for it. */
  lemma {:induction false} CellsOfColumn(columns: seq<Column>, row: Row, cells: seq<string>, j: nat)
    requires j < |columns|
    requires |WriteRow(columns, row)| <= |cells| && cells[..|WriteRow(columns, row)|] == WriteRow(columns, row)
    ensures CellsFrom(cells, Offset(columns[..j]), WriteColumn(columns[j], row))
    decreases |columns|
  {
    hide WriteColumn;
    var rest, c := columns[..|columns| - 1], columns[|columns| - 1];
    var before, own := WriteRow(rest, row), WriteColumn(c, row);
    WriteRowLength(rest, row);
    var written := WriteRow(columns, row);
    assert written == before + own;
    if j < |rest| {
      assert cells[..|before|] == written[..|before|] == before;
      assert rest[..j] == columns[..j] && rest[j] == columns[j];
      CellsOfColumn(rest, row, cells, j);
    } else {
      forall k | |before| <= k < |before| + |own| ensures CellAt(cells, k) == own[k - |before|] {
        assert cells[k] == cells[..|written|][k] == (before + own)[k];
      }
    }
  }

  ghost predicate ColumnReadsBack(c: Column, row: Row, cells: seq<string>, from: nat) {
    ReadColumn(c, cells, from) == if c.name in row then Found(row[c.name]) else Absent
  }

  lemma ColumnReadsBackIff(c: Column, row: Row, cells: seq<string>, from: nat)
    requires CellsFrom(cells, from, WriteColumn(c, row))
    ensures ColumnReadsBack(c, row, cells, from) <==> (c.name in row ==> Holds(c, row[c.name]))
  {
    hide ReadColumn, Holds;
    if c.name in row { ValueReadsBackIff(c, row[c.name], cells, from); } else { NothingReadsBack(c, cells, from); }
  }

  lemma {:induction false} ColumnsReadBack(columns: seq<Column>, row: Row, cells: seq<string>)
    requires forall j :: 0 <= j < |columns| ==> ColumnReadsBack(columns[j], row, cells, Offset(columns[..j]))
    ensures ReadRow(columns, cells) == RowRead(Under(row, columns), None)
  {
    hide ReadColumn;
    if columns != [] {
      var rest, c := columns[..|columns| - 1], columns[|columns| - 1];
      assert columns == rest + [c];
      forall j | 0 <= j < |rest| ensures ColumnReadsBack(rest[j], row, cells, Offset(rest[..j])) {
        assert rest[..j] == columns[..j] && rest[j] == columns[j];
      }
      ColumnsReadBack(rest, row, cells);
      assert ColumnReadsBack(c, row, cells, Offset(columns[..|rest|]));
      UnderOneMore(row, rest, c);
    }
  }

  /** Writing a row and reading it under the same plan gives the row back exactly when every name
      has a column and every value fits the cells of its column. */
  lemma RowRoundTripIff(columns: seq<Column>, row: Row)
    requires forall i, k :: 0 <= i < k < |columns| ==> columns[i].name != columns[k].name
    ensures ReadRow(columns, WriteRow(columns, row)) == RowRead(row, None) <==>
      && (forall name :: name in row ==> exists i :: 0 <= i < |columns| && columns[i].name == name)
      && (forall i :: 0 <= i < |columns| ==> columns[i].name in row ==> Holds(columns[i], row[columns[i].name]))
  {
    hide ReadRow, WriteRow, WriteColumn, ReadColumn, Holds, Offset;
    var cells := WriteRow(columns, row);
    assert cells[..|cells|] == cells;
    forall j | 0 <= j < |columns|
      ensures ColumnReadsBack(columns[j], row, cells, Offset(columns[..j])) <==>
        (columns[j].name in row ==> Holds(columns[j], row[columns[j].name]))
    {
      CellsOfColumn(columns, row, cells, j);
      ColumnReadsBackIff(columns[j], row, cells, Offset(columns[..j]));
    }
    RowNames(columns, cells);
    if ReadRow(columns, cells) == RowRead(row, None) {
      forall j | 0 <= j < |columns| ensures ColumnReadsBack(columns[j], row, cells, Offset(columns[..j])) {
        ReadAt(columns, cells, j);
      }
    }
    if
      && (forall name :: name in row ==> exists i :: 0 <= i < |columns| && columns[i].name == name)
      && (forall i :: 0 <= i < |columns| ==> columns[i].name in row ==> Holds(columns[i], row[columns[i].name]))
    {
      ColumnsReadBack(columns, row, cells);
      assert Under(row, columns) == row;
    }
  }
}
