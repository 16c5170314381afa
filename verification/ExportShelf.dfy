/** The stored state of one feed source's exports: version rows, version files and the
    published file, with the elementary operations on them. */
module ExportShelf {
  import opened Wrappers

  type Content = string

  /** The digest of a file. It carries the content: equal digests mean equal files. */
  datatype FileHash = FileHash(content: Content)

  function Digest(data: Content): FileHash {
    FileHash(data)
  }

  /** `issued` lists every version number ever committed, oldest first. */
  datatype Shelf = Shelf(
    rows: map<nat, FileHash>,
    files: map<nat, Content>,
    published: Option<Content>,
    issued: seq<nat>)

  const EMPTY := Shelf(map[], map[], None, [])

  // ----- Version numbers -----

  lemma {:induction false} GreatestExists(s: set<nat>) returns (m: nat)
    requires s != {}
    ensures m in s && forall n :: n in s ==> n <= m
  {
    var some :| some in s;
    if s == {some} { m := some; }
    else {
      var rest := s - {some};
      m := GreatestExists(rest);
      assert forall n :: n in s ==> n == some || n in rest;
      if some > m { m := some; }
    }
  }

  function Greatest(s: set<nat>): (m: nat)
    requires s != {}
    ensures m in s && forall n :: n in s ==> n <= m
  {
    assert exists m :: m in s && forall n :: n in s ==> n <= m by { var _ := GreatestExists(s); }
    var m :| m in s && forall n :: n in s ==> n <= m;
    m
  }

  /** The number the next version gets. */
  function NextNumber(rows: map<nat, FileHash>): nat {
    if rows == map[] then 1 else Greatest(rows.Keys) + 1
  }

  function Latest(rows: map<nat, FileHash>): Option<nat> {
    if rows == map[] then None else Some(Greatest(rows.Keys))
  }

  function Keep(retention: int): nat {
    if retention < 1 then 1 else retention
  }

  /** `ORDER BY version_number DESC` */
  function Descending(numbers: set<nat>): seq<nat> {
    if numbers == {} then [] else [Greatest(numbers)] + Descending(numbers - {Greatest(numbers)})
  }

  /** `... OFFSET max(retention, 1)` */
  function StaleNumbers(rows: map<nat, FileHash>, retention: int): seq<nat> {
    var all := Descending(rows.Keys);
    if |all| <= Keep(retention) then [] else all[Keep(retention)..]
  }

  function ToSet(s: seq<nat>): set<nat> {
    set n | n in s
  }

  lemma {:induction false} DescendingExactly(numbers: set<nat>)
    ensures |Descending(numbers)| == |numbers|
    ensures forall n :: n in Descending(numbers) <==> n in numbers
    ensures forall i, j :: 0 <= i < j < |numbers| ==> Descending(numbers)[i] > Descending(numbers)[j]
    decreases |numbers|
  {
    if numbers != {} {
      var top := Greatest(numbers);
      var rest := Descending(numbers - {top});
      DescendingExactly(numbers - {top});
      forall j | 0 <= j < |rest| ensures rest[j] < top { assert rest[j] in rest; }
    }
  }

  /** How many stored numbers are above `n`. */
  function Above(numbers: set<nat>, n: nat): set<nat> {
    set m | m in numbers && m > n
  }

  lemma {:induction false} PositionCountsAbove(numbers: set<nat>, i: nat)
    requires i < |numbers|
    ensures |Descending(numbers)| == |numbers|
    ensures |Above(numbers, Descending(numbers)[i])| == i
    decreases |numbers|
  {
    hide Above;
    DescendingExactly(numbers);
    var top := Greatest(numbers);
    DescendingExactly(numbers - {top});
    if i > 0 { PositionCountsAbove(numbers - {top}, i - 1); }
    AboveAndTop(numbers, Descending(numbers)[i]);
  }

  lemma AboveAndTop(numbers: set<nat>, n: nat)
    requires n in numbers
    ensures
      var top := Greatest(numbers);
      |Above(numbers, n)| == if n == top then 0 else |Above(numbers - {top}, n)| + 1
  {
    var top := Greatest(numbers);
    if n == top {
      assert Above(numbers, top) == {};
    } else {
      assert Above(numbers, n) == Above(numbers - {top}, n) + {top};
    }
  }

  lemma StaleByPosition(rows: map<nat, FileHash>, retention: int, i: nat)
    requires i < |rows|
    ensures |Descending(rows.Keys)| == |rows|
    ensures Descending(rows.Keys)[i] in StaleNumbers(rows, retention) <==> i >= Keep(retention)
  {
    hide Descending;
    var all, keep := Descending(rows.Keys), Keep(retention);
    DescendingExactly(rows.Keys);
    assert |rows| == |rows.Keys|;
    if i >= keep { assert all[keep..][i - keep] == all[i]; }
    if all[i] in StaleNumbers(rows, retention) {
      var j :| 0 <= j < |all| - keep && all[keep..][j] == all[i];
      assert all[j + keep] == all[i];
    }
  }

  /** A version is stale exactly when at least `retention` versions are newer, or any one is if
      `retention` is less than 1. */
  lemma StaleExactly(rows: map<nat, FileHash>, retention: int, n: nat)
    requires n in rows
    ensures retention >= 1 ==> (n in StaleNumbers(rows, retention) <==> |Above(rows.Keys, n)| >= retention)
    ensures retention < 1 ==> (n in StaleNumbers(rows, retention) <==> Above(rows.Keys, n) != {})
  {
    hide StaleNumbers;
    DescendingExactly(rows.Keys);
    var i :| 0 <= i < |Descending(rows.Keys)| && Descending(rows.Keys)[i] == n;
    PositionCountsAbove(rows.Keys, i);
    StaleByPosition(rows, retention, i);
  }

  /** Of the rows exactly those with fewer than `retention` newer ones are left, or the newest if
      `retention` is less than 1. */
  ghost predicate NewestLeft(rows: map<nat, FileHash>, left: map<nat, FileHash>, retention: int) {
    && (forall n :: n in left ==> n in rows && left[n] == rows[n])
    && (forall n :: n in rows ==>
      (n in left <==> if retention >= 1 then |Above(rows.Keys, n)| < retention else Above(rows.Keys, n) == {}))
  }

  lemma StaleAreRows(rows: map<nat, FileHash>, retention: int)
    ensures forall n :: n in StaleNumbers(rows, retention) ==> n in rows
  {
    hide Descending;
    var all := Descending(rows.Keys);
    DescendingExactly(rows.Keys);
    forall n | n in StaleNumbers(rows, retention) ensures n in all {
      var j :| 0 <= j < |all| - Keep(retention) && all[Keep(retention)..][j] == n;
      assert all[j + Keep(retention)] == n;
    }
  }

  lemma NewestAreLeft(rows: map<nat, FileHash>, retention: int)
    ensures NewestLeft(rows, rows - ToSet(StaleNumbers(rows, retention)), retention)
  {
    hide StaleNumbers, Above;
    forall n | n in rows
      ensures n !in StaleNumbers(rows, retention) <==>
        if retention >= 1 then |Above(rows.Keys, n)| < retention else Above(rows.Keys, n) == {}
    {
      StaleExactly(rows, retention, n);
    }
  }

  /** A sequence without repetitions holds a value in its first `k` places as its position says. */
  lemma InPrefix(s: seq<nat>, i: nat, k: nat)
    requires i < |s| && k <= |s| && forall a, b :: 0 <= a < b < |s| ==> s[a] > s[b]
    ensures s[i] in s[..k] <==> i < k
  {
    if i < k { assert s[..k][i] == s[i]; }
    if s[i] in s[..k] {
      var j :| 0 <= j < k && s[..k][j] == s[i];
      assert s[j] == s[i];
    }
  }

  lemma StalePlace(rows: map<nat, FileHash>, retention: int, i: nat)
    requires i < |StaleNumbers(rows, retention)|
    ensures |Above(rows.Keys, StaleNumbers(rows, retention)[i])| == i + if retention >= 1 then retention else 1
  {
    hide Descending, Above;
    DescendingExactly(rows.Keys);
    PositionCountsAbove(rows.Keys, i + Keep(retention));
  }

  lemma StaleDescend(rows: map<nat, FileHash>, retention: int)
    ensures
      var stale := StaleNumbers(rows, retention);
      forall a, b :: 0 <= a < b < |stale| ==> stale[a] > stale[b]
  {
    hide Descending;
    DescendingExactly(rows.Keys);
  }

  /** Stale numbers come newest first: a place in the list counts the newer versions. */
  lemma StaleInOrder(rows: map<nat, FileHash>, retention: int, n: nat, k: nat)
    requires n in StaleNumbers(rows, retention) && k <= |StaleNumbers(rows, retention)|
    ensures n in StaleNumbers(rows, retention)[..k] <==>
      |Above(rows.Keys, n)| < (if retention >= 1 then retention else 1) + k
  {
    StaleDescend(rows, retention);
    hide StaleNumbers, Above;
    var stale := StaleNumbers(rows, retention);
    var i :| 0 <= i < |stale| && stale[i] == n;
    StalePlace(rows, retention, i);
    InPrefix(stale, i, k);
  }

  lemma LatestIsNotStale(rows: map<nat, FileHash>, retention: int)
    requires rows != map[]
    ensures Greatest(rows.Keys) !in StaleNumbers(rows, retention)
    ensures forall n :: n in StaleNumbers(rows, retention) ==> n in rows && n < Greatest(rows.Keys)
  {
    hide StaleNumbers;
    var top := Greatest(rows.Keys);
    StaleAreRows(rows, retention);
    StaleExactly(rows, retention, top);
    assert Above(rows.Keys, top) == {};
  }

  // ----- Elementary operations -----

  function WriteVersion(s: Shelf, n: nat, data: Content): Shelf {
    s.(files := s.files[n := data])
  }

  function DeleteVersionFile(s: Shelf, n: nat): Shelf {
    s.(files := s.files - {n})
  }

  function CommitVersion(s: Shelf, n: nat, data: Content): Shelf {
    s.(rows := s.rows[n := Digest(data)], issued := s.issued + [n])
  }

  function Publish(s: Shelf, data: Content): Shelf {
    s.(published := Some(data))
  }

  function DeleteRows(s: Shelf, numbers: seq<nat>): Shelf {
    s.(rows := s.rows - ToSet(numbers))
  }

  function DeleteFiles(s: Shelf, numbers: seq<nat>): Shelf {
    s.(files := s.files - ToSet(numbers))
  }

  function Pruned(s: Shelf, retention: int): Shelf {
    DeleteFiles(DeleteRows(s, StaleNumbers(s.rows, retention)), StaleNumbers(s.rows, retention))
  }

  // ----- What must hold of a stored state -----

  /** Every committed version has its file, with the content its row vouches for. */
  ghost predicate FilesMatch(s: Shelf) {
    forall n :: n in s.rows ==> n in s.files && Digest(s.files[n]) == s.rows[n]
  }

  /** Numbers were committed in strictly increasing order, so none was ever reused; the rows
      still stored are among them and include the newest. */
  ghost predicate NumbersGrow(s: Shelf) {
    && (forall i, j :: 0 <= i < j < |s.issued| ==> s.issued[i] < s.issued[j])
    && (forall n :: n in s.rows ==> n in s.issued)
    && (s.issued != [] ==> s.issued[|s.issued| - 1] in s.rows)
  }

  ghost predicate ShelfInv(s: Shelf) {
    FilesMatch(s) && NumbersGrow(s)
  }

  lemma NextIsUnused(s: Shelf)
    requires NumbersGrow(s)
    ensures forall n :: n in s.issued ==> n < NextNumber(s.rows)
    ensures s.rows == map[] <==> s.issued == []
    ensures s.issued != [] ==> Greatest(s.rows.Keys) == s.issued[|s.issued| - 1]
  {
    if s.issued != [] {
      var last := s.issued[|s.issued| - 1];
      forall n | n in s.issued ensures n <= last {}
      assert Greatest(s.rows.Keys) in s.issued;
    } else {
      assert s.rows.Keys == {};
    }
  }

  lemma CommitKeepsInv(s: Shelf, n: nat, data: Content)
    requires ShelfInv(s) && n == NextNumber(s.rows) && n in s.files && s.files[n] == data
    ensures ShelfInv(CommitVersion(s, n, data))
    ensures NextNumber(CommitVersion(s, n, data).rows) == n + 1
  {
    hide NextNumber;
    NextIsUnused(s);
    GreatestCommitted(s.rows, n, Digest(data));
  }

  lemma GreatestCommitted(rows: map<nat, FileHash>, n: nat, hash: FileHash)
    requires n == NextNumber(rows)
    ensures n in rows[n := hash] && Greatest(rows[n := hash].Keys) == n && NextNumber(rows[n := hash]) == n + 1
  {
    assert forall m :: m in rows[n := hash].Keys ==> m in rows || m == n;
  }

  lemma DeleteRowsKeepsInv(s: Shelf, retention: int)
    requires ShelfInv(s)
    ensures ShelfInv(DeleteRows(s, StaleNumbers(s.rows, retention)))
    ensures NextNumber(DeleteRows(s, StaleNumbers(s.rows, retention)).rows) == NextNumber(s.rows)
    ensures Latest(DeleteRows(s, StaleNumbers(s.rows, retention)).rows) == Latest(s.rows)
  {
    NextIsUnused(s);
    if s.rows != map[] {
      LatestIsNotStale(s.rows, retention);
      var kept := DeleteRows(s, StaleNumbers(s.rows, retention)).rows;
      assert Greatest(s.rows.Keys) in kept;
      assert Greatest(kept.Keys) == Greatest(s.rows.Keys);
    }
  }

  /** After a prune the survivors are exactly the `retention` highest numbers, or the highest one if
      `retention` is less than 1. */
  lemma PruneKeepsHighest(s: Shelf, retention: int)
    requires ShelfInv(s)
    ensures
      var kept := Pruned(s, retention).rows;
      && kept.Keys <= s.rows.Keys && (forall n :: n in kept ==> kept[n] == s.rows[n])
      && (retention >= 1 ==> |kept| == if |s.rows| <= retention then |s.rows| else retention)
      && (retention < 1 && s.rows != map[] ==> kept.Keys == {Greatest(s.rows.Keys)})
      && (forall n, m :: n in kept && m in s.rows && m !in kept ==> m < n)
    ensures ShelfInv(Pruned(s, retention))
  {
    hide ShelfInv, Descending, StaleNumbers;
    var stale := StaleNumbers(s.rows, retention);
    var kept := Pruned(s, retention).rows;
    DeleteRowsKeepsInv(s, retention);
    FilesOfDeletedRows(DeleteRows(s, stale), stale);
    forall n, m | n in kept && m in s.rows && m !in kept ensures m < n {
      StaleBelowKept(s.rows, retention, n, m);
    }
    StaleCount(s.rows, retention);
    StaleAreRows(s.rows, retention);
    assert kept.Keys == s.rows.Keys - ToSet(stale);
    assert ToSet(stale) <= s.rows.Keys;
    assert |kept| == |kept.Keys|;
    if retention < 1 && s.rows != map[] { NewestAlone(s.rows, retention, kept.Keys); }
  }

  lemma NewestAlone(rows: map<nat, FileHash>, retention: int, kept: set<nat>)
    requires retention < 1 && rows != map[] && kept == rows.Keys - ToSet(StaleNumbers(rows, retention))
    ensures kept == {Greatest(rows.Keys)}
  {
    hide StaleNumbers;
    var top := Greatest(rows.Keys);
    forall n ensures n in kept <==> n == top {
      if n in rows {
        StaleExactly(rows, retention, n);
        if n != top { assert top in Above(rows.Keys, n); }
      }
    }
  }

  /** Deleting files of rows that are gone keeps every committed file. */
  lemma FilesOfDeletedRows(s: Shelf, numbers: seq<nat>)
    requires ShelfInv(s) && forall n :: n in numbers ==> n !in s.rows
    ensures ShelfInv(DeleteFiles(s, numbers))
  {
  }

  lemma StaleBelowKept(rows: map<nat, FileHash>, retention: int, n: nat, m: nat)
    requires n in rows && n !in StaleNumbers(rows, retention)
    requires m in rows && m in StaleNumbers(rows, retention)
    ensures m < n
  {
    hide StaleNumbers;
    DescendingExactly(rows.Keys);
    var all := Descending(rows.Keys);
    var i :| 0 <= i < |all| && all[i] == n;
    var j :| 0 <= j < |all| && all[j] == m;
    StaleByPosition(rows, retention, i);
    StaleByPosition(rows, retention, j);
  }

  lemma StaleCount(rows: map<nat, FileHash>, retention: int)
    ensures |ToSet(StaleNumbers(rows, retention))| ==
      if |rows| <= Keep(retention) then 0 else |rows| - Keep(retention)
  {
    var all := Descending(rows.Keys);
    DescendingExactly(rows.Keys);
    assert |rows| == |rows.Keys|;
    DistinctSize(StaleNumbers(rows, retention));
  }

  lemma {:induction false} DistinctSize(s: seq<nat>)
    requires forall i, j :: 0 <= i < j < |s| ==> s[i] != s[j]
    ensures |ToSet(s)| == |s|
  {
    if s != [] {
      var rest, last := s[..|s| - 1], s[|s| - 1];
      DistinctSize(rest);
      assert ToSet(s) == ToSet(rest) + {last};
    }
  }
}
