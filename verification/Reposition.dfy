/** Saving a pipeline: kept rows are first moved to temporary positions and then to their final
    ones, under a constraint that no two rows share a position after any single row write. */
module Reposition {
  import opened Wrappers

  /** Row ids and their positions. */
  type Positions = map<int, nat>

  ghost predicate Distinct(rows: Positions) {
    forall a, b :: a in rows && b in rows && a != b ==> rows[a] != rows[b]
  }

  /** No position taken twice and none beyond the number of rows: positions are 0, 1, and so on. */
  ghost predicate Tidy(rows: Positions) {
    Distinct(rows) && forall id :: id in rows ==> rows[id] < |rows|
  }

  /** Every row sits at a position that is assigned to it. */
  ghost predicate Owned(rows: Positions, owner: map<nat, int>) {
    forall id :: id in rows ==> rows[id] in owner && owner[rows[id]] == id
  }

  lemma OwnedIsDistinct(rows: Positions, owner: map<nat, int>)
    requires Owned(rows, owner)
    ensures Distinct(rows)
  {
  }

  ghost function Owners(rows: Positions): map<nat, int>
    requires Distinct(rows)
  {
    map id | id in rows :: rows[id] := id
  }

  /** An order in which a flush may emit its writes. */
  ghost predicate Enumerates(order: seq<int>, ids: set<int>) {
    (forall id :: id in order <==> id in ids) && forall i, j :: 0 <= i < j < |order| ==> order[i] != order[j]
  }

  type Item = Option<int>

  predicate Unknown(items: seq<Item>, rows: Positions) {
    exists i :: 0 <= i < |items| && items[i].Some? && items[i].value !in rows
  }

  function Kept(items: seq<Item>): set<int> {
    set i | 0 <= i < |items| && items[i].Some? :: items[i].value
  }

  /** The temporary positions; the last mention of an id counts. */
  function Temporary(items: seq<Item>, base: nat): Positions {
    if items == [] then map[]
    else
      var rest, last := Temporary(items[..|items| - 1], base), items[|items| - 1];
      if last.Some? then rest[last.value := base + |items| - 1] else rest
  }

  /** The position of each id in the payload, its last one if it is repeated. */
  function Final(ids: seq<int>): Positions {
    if ids == [] then map[] else Final(ids[..|ids| - 1])[ids[|ids| - 1] := |ids| - 1]
  }

  lemma {:induction false} TemporaryFacts(items: seq<Item>, base: nat)
    ensures Temporary(items, base).Keys == Kept(items)
    ensures Distinct(Temporary(items, base))
    ensures forall id :: id in Temporary(items, base) ==>
      var p := Temporary(items, base)[id]; base <= p < base + |items| && items[p - base] == Some(id)
  {
    if items != [] {
      var rest, last := items[..|items| - 1], items[|items| - 1];
      TemporaryFacts(rest, base);
      assert Kept(items) == Kept(rest) + (if last.Some? then {last.value} else {});
    }
  }

  lemma {:induction false} FinalFacts(ids: seq<int>)
    ensures forall id :: id in Final(ids) <==> id in ids
    ensures forall id :: id in Final(ids) ==> Final(ids)[id] < |ids| && ids[Final(ids)[id]] == id
  {
    if ids != [] {
      var rest, last := ids[..|ids| - 1], ids[|ids| - 1];
      FinalFacts(rest);
      assert ids == rest + [last];
    }
  }

  /** No row starts out at the temporary position of another one. */
  ghost predicate Apart(rows: Positions, temp: Positions) {
    forall a, b :: a in rows && b in temp && a != b ==> rows[a] != temp[b]
  }

  ghost function OldOrTemporary(rows: Positions, temp: Positions): map<nat, int>
    requires Distinct(rows) && Distinct(temp)
  {
    Owners(rows) + Owners(temp)
  }

  function ItemAt(items: seq<Item>, base: nat, p: nat): Item {
    if base <= p < base + |items| then items[p - base] else None
  }

  ghost function TemporaryOwners(items: seq<Item>, base: nat): map<nat, int> {
    map p: nat | p < base + |items| && ItemAt(items, base, p).Some? :: ItemAt(items, base, p).value
  }

  ghost function FinalOwners(ids: seq<int>): map<nat, int> {
    map p: nat | p < |ids| :: ids[p]
  }

  /** The first temporary position. */
  function TempBase(items: seq<Item>, rows: Positions): nat {
    |items| + |rows| + 1
  }

  ghost function Restrict(rows: Positions, ids: set<int>): Positions {
    map id | id in rows && id in ids :: rows[id]
  }

  class Instances {
    var rows: Positions
    var nextId: int
    /** The rows after every single row write so far. */
    ghost var trace: seq<Positions>

    ghost predicate Valid()
      reads this
    {
      forall id :: id in rows ==> id < nextId
    }

    /** Emits pending writes one row at a time, in any order. */
    method Flush(pending: Positions, order: seq<int>, ghost owner: map<nat, int>)
      requires Enumerates(order, pending.Keys) && Owned(rows, owner) && Owned(pending, owner)
      modifies this`rows, this`trace
      ensures rows == old(rows) + pending && Owned(rows, owner)
      ensures Extends(old(trace), trace)
    {
      ghost var written: Positions := map[];
      for i := 0 to |order|
        invariant rows == old(rows) + written && Owned(rows, owner)
        invariant forall id :: id in written <==> id in order[..i]
        invariant forall id :: id in written ==> id in pending && written[id] == pending[id]
        invariant Extends(old(trace), trace)
      {
        var id := order[i];
        assert id in order;
        rows := rows[id := pending[id]];
        written := written[id := pending[id]];
        OwnedIsDistinct(rows, owner);
        trace := trace + [rows];
      }
      assert order[..|order|] == order;
      assert forall id :: id in written <==> id in order;
      SameKeys(written, pending, order);
    }

    /** The first pass: every kept row to a position no other row has or will get. */
    method MoveAside(items: seq<Item>, base: nat, schedule: (nat, set<int>) -> seq<int>)
      requires Distinct(rows) && rows.Keys == Kept(items) && Apart(rows, Temporary(items, base))
      requires forall n, s :: Enumerates(schedule(n, s), s)
      modifies this`rows, this`trace
      ensures rows == Temporary(items, base)
      ensures Extends(old(trace), trace)
    {
      var pending := Temporary(items, base);
      TemporaryFacts(items, base);
      OwnedAside(rows, pending);
      Flush(pending, schedule(0, pending.Keys), OldOrTemporary(rows, pending));
      assert rows == Temporary(items, base);
    }

    /** The second pass: the positions in payload order, new rows inserted and flushed on the way. */
    method Place(items: seq<Item>, base: nat, schedule: (nat, set<int>) -> seq<int>) returns (out: seq<int>)
      requires |items| < base && rows == Temporary(items, base)
      requires forall id :: id in Kept(items) ==> id < nextId
      requires forall n, s :: Enumerates(schedule(n, s), s)
      modifies this
      ensures rows == Final(out) && (forall id :: id in rows ==> id < nextId)
      ensures Names(items, out, old(nextId)) && old(nextId) <= nextId
      ensures Extends(old(trace), trace)
    {
      hide Enumerates, Owned, Distinct, Temporary, TemporaryOwners, FinalOwners, Final, Names, Below, Extends;
      NamesAtStart(old(nextId), trace);
      var pending: Positions := map[];
      out := [];
      ghost var temp := rows;
      OwnedAtStart(items, base);
      for i := 0 to |items|
        invariant |out| == i && old(nextId) <= nextId && Below(out, nextId)
        invariant rows + pending == temp + Final(out)
        invariant Owned(rows, TemporaryOwners(items, base) + FinalOwners(out)) && Owned(pending, FinalOwners(out))
        invariant Names(items[..i], out, old(nextId))
        invariant Extends(old(trace), trace)
      {
        var id := if items[i].Some? then items[i].value else nextId;
        StillOwned(rows, pending, items, base, out, id);
        assert items[i].Some? ==> id in Kept(items);
        NamesOneMore(items[..i], out, old(nextId), items[i], id, nextId);
        assert items[..i + 1] == items[..i] + [items[i]];
        FinalOneMore(out, id);
        OneMorePending(rows, pending, temp, Final(out), id, i);
        out := out + [id];
        pending := pending[id := i];
        if items[i].None? {
          nextId := nextId + 1;
          ghost var sofar := trace;
          Flush(pending, schedule(i + 1, pending.Keys), TemporaryOwners(items, base) + FinalOwners(out));
          pending := map[];
          ExtendsFurther(old(trace), sofar, trace);
          NothingOwned(FinalOwners(out));
          assert rows + map[] == rows;
        }
      }
      assert items[..|items|] == items;
      PendingOwned(pending, items, base, out);
      ghost var sofar := trace;
      Flush(pending, schedule(|items| + 1, pending.Keys), TemporaryOwners(items, base) + FinalOwners(out));
      ExtendsFurther(old(trace), sofar, trace);
      AllPlaced(items, base, out, old(nextId));
      FinalBelow(out, nextId);
    }

    /** `schedule` is the order in which each flush emits its writes. None: an id that is not one
        of the rows, and nothing is changed. No tidy start is needed: it is enough that no kept row
        starts out at the temporary position of another one. */
    method Put(items: seq<Item>, schedule: (nat, set<int>) -> seq<int>) returns (ids: Option<seq<int>>)
      requires Valid() && Distinct(rows)
      requires Apart(Restrict(rows, Kept(items)), Temporary(items, TempBase(items, rows)))
      requires forall n, s :: Enumerates(schedule(n, s), s)
      modifies this
      ensures Valid() && Extends(old(trace), trace)
      ensures ids.None? <==> exists i :: 0 <= i < |items| && items[i].Some? && items[i].value !in old(rows)
      ensures ids.None? ==> rows == old(rows)
      ensures ids.Some? ==> rows == Final(ids.value) && Names(items, ids.value, old(nextId))
    {
      hide Distinct, Enumerates, Temporary, Final, Names;
      if Unknown(items, rows) { return None; }
      var kept, base := Kept(items), TempBase(items, rows);
      rows := map id | id in rows && id in kept :: rows[id];
      RestrictedIsDistinct(old(rows), kept);
      assert rows == Restrict(old(rows), kept) && rows.Keys == kept;
      MoveAside(items, base, schedule);
      var out := Place(items, base, schedule);
      ids := Some(out);
    }
  }

  /** More states were added, and in each of them no position is taken twice. */
  ghost predicate Extends(before: seq<Positions>, after: seq<Positions>) {
    before <= after && forall k :: |before| <= k < |after| ==> Distinct(after[k])
  }

  predicate Below(ids: seq<int>, bound: int) {
    forall k :: 0 <= k < |ids| ==> ids[k] < bound
  }

  /** The ids of the saved rows: kept ones as given, new ones from `first` on, each used once. */
  predicate Names(items: seq<Item>, ids: seq<int>, first: int) {
    && |ids| == |items|
    && (forall k :: 0 <= k < |ids| && items[k].Some? ==> ids[k] == items[k].value < first)
    && (forall k :: 0 <= k < |ids| && items[k].None? ==> ids[k] >= first)
    && (forall k, j :: 0 <= j < k < |ids| && items[k].None? ==> ids[k] != ids[j])
  }

  lemma SameKeys(written: Positions, pending: Positions, order: seq<int>)
    requires Enumerates(order, pending.Keys) && forall id :: id in written <==> id in order
    requires forall id :: id in written ==> id in pending && written[id] == pending[id]
    ensures written == pending
  {
    forall id ensures id in written <==> id in pending {
      assert id in order <==> id in pending.Keys;
      assert id in written <==> id in order;
    }
    assert forall id :: id in pending ==> written[id] == pending[id];
    assert written == pending;
  }

  lemma NamesAtStart(first: int, trace: seq<Positions>)
    ensures Names([], [], first) && Below([], first) && Extends(trace, trace) && Final([]) == map[]
  {
  }

  lemma ExtendsFurther(a: seq<Positions>, b: seq<Positions>, c: seq<Positions>)
    requires Extends(a, b) && Extends(b, c)
    ensures Extends(a, c)
  {
    hide Distinct;
    forall k | |a| <= k < |c| ensures Distinct(c[k]) {
      if k < |b| { assert c[k] == b[k]; }
    }
  }

  lemma FinalOneMore(ids: seq<int>, id: int)
    ensures Final(ids + [id]) == Final(ids)[id := |ids|]
  {
    assert (ids + [id])[..|ids|] == ids;
  }

  lemma OneMorePending(rows: Positions, pending: Positions, temp: Positions, final: Positions, id: int, i: nat)
    requires rows + pending == temp + final
    ensures rows + pending[id := i] == temp + final[id := i]
  {
    assert rows + pending[id := i] == (rows + pending)[id := i];
    assert temp + final[id := i] == (temp + final)[id := i];
  }

  lemma FinalBelow(ids: seq<int>, bound: int)
    requires Below(ids, bound)
    ensures forall id :: id in Final(ids) ==> id < bound
  {
    FinalFacts(ids);
  }

  lemma NamesOneMore(items: seq<Item>, ids: seq<int>, first: int, item: Item, id: int, next: int)
    requires Names(items, ids, first) && Below(ids, next) && first <= next
    requires if item.Some? then id == item.value < first else id == next
    ensures Names(items + [item], ids + [id], first)
    ensures Below(ids + [id], if item.Some? then next else next + 1)
  {
  }

  lemma RestrictedIsDistinct(rows: Positions, ids: set<int>)
    requires Distinct(rows)
    ensures Distinct(Restrict(rows, ids))
  {
  }

  lemma OwnedAside(before: Positions, temp: Positions)
    requires Distinct(before) && Distinct(temp) && Apart(before, temp)
    ensures Owned(before, OldOrTemporary(before, temp)) && Owned(temp, OldOrTemporary(before, temp))
  {
    forall id | id in temp ensures temp[id] in Owners(temp) && Owners(temp)[temp[id]] == id {}
    forall id | id in before ensures before[id] in Owners(before) && Owners(before)[before[id]] == id {}
  }

  /** From a tidy start every payload can be saved. */
  lemma TidyIsApart(rows: Positions, items: seq<Item>)
    requires Tidy(rows)
    ensures Apart(Restrict(rows, Kept(items)), Temporary(items, TempBase(items, rows)))
  {
    TemporaryFacts(items, TempBase(items, rows));
  }

  lemma OwnedAtStart(items: seq<Item>, base: nat)
    ensures Owned(Temporary(items, base), TemporaryOwners(items, base) + FinalOwners([]))
    ensures Owned(map[], FinalOwners([]))
  {
    TemporaryFacts(items, base);
    var temp := Temporary(items, base);
    forall id | id in temp
      ensures temp[id] in TemporaryOwners(items, base) && TemporaryOwners(items, base)[temp[id]] == id
    {
      assert ItemAt(items, base, temp[id]) == Some(id);
    }
  }

  lemma NothingOwned(owner: map<nat, int>)
    ensures Owned(map[], owner)
  {
  }

  lemma PendingOwned(pending: Positions, items: seq<Item>, base: nat, out: seq<int>)
    requires Owned(pending, FinalOwners(out))
    ensures Owned(pending, TemporaryOwners(items, base) + FinalOwners(out))
  {
  }

  /** In the end every kept row has left its temporary position. */
  lemma AllPlaced(items: seq<Item>, base: nat, out: seq<int>, first: int)
    requires Names(items, out, first)
    ensures Temporary(items, base) + Final(out) == Final(out)
  {
    TemporaryFacts(items, base);
    FinalFacts(out);
    forall id | id in Temporary(items, base) ensures id in Final(out) {
      var k :| 0 <= k < |items| && items[k].Some? && items[k].value == id;
      assert out[k] == id;
    }
  }

  /** Assigning the next position keeps every row and pending write where it belongs. */
  lemma StillOwned(rows: Positions, pending: Positions, items: seq<Item>, base: nat, out: seq<int>, id: int)
    requires |out| < |items| < base
    requires Owned(rows, TemporaryOwners(items, base) + FinalOwners(out)) && Owned(pending, FinalOwners(out))
    ensures Owned(rows, TemporaryOwners(items, base) + FinalOwners(out + [id]))
    ensures Owned(pending[id := |out|], FinalOwners(out + [id]))
    ensures Owned(pending[id := |out|], TemporaryOwners(items, base) + FinalOwners(out + [id]))
  {
  }

  // ----- One save after another -----

  lemma {:induction false} FinalOfDistinct(ids: seq<int>)
    requires forall i, j :: 0 <= i < j < |ids| ==> ids[i] != ids[j]
    ensures |Final(ids)| == |ids|
    ensures forall i :: 0 <= i < |ids| ==> ids[i] in Final(ids) && Final(ids)[ids[i]] == i
  {
    if ids != [] {
      var rest, last := ids[..|ids| - 1], ids[|ids| - 1];
      FinalOfDistinct(rest);
      FinalFacts(rest);
      assert last !in rest;
      assert Final(ids).Keys == Final(rest).Keys + {last};
    }
  }

  lemma {:induction false} FewerThanMentions(ids: seq<int>)
    ensures |Final(ids)| <= |ids|
    ensures |Final(ids)| == |ids| ==> forall i, j :: 0 <= i < j < |ids| ==> ids[i] != ids[j]
  {
    if ids != [] {
      var rest, last := ids[..|ids| - 1], ids[|ids| - 1];
      FewerThanMentions(rest);
      FinalFacts(rest);
      assert Final(ids).Keys == Final(rest).Keys + {last};
    }
  }

  /** The saved rows are at the positions 0, 1, and so on, in payload order, exactly when the
      payload names no row twice. */
  lemma SavedIsTidyIff(items: seq<Item>, ids: seq<int>, first: int)
    requires Names(items, ids, first)
    ensures Tidy(Final(ids)) <==> forall i, j :: 0 <= i < j < |items| && items[i].Some? ==> items[i] != items[j]
    ensures Tidy(Final(ids)) ==> forall i :: 0 <= i < |ids| ==> ids[i] in Final(ids) && Final(ids)[ids[i]] == i
  {
    FinalFacts(ids);
    FewerThanMentions(ids);
    if forall i, j :: 0 <= i < j < |items| && items[i].Some? ==> items[i] != items[j] {
      forall i, j | 0 <= i < j < |ids| ensures ids[i] != ids[j] {
        if items[i].Some? && items[j].Some? { assert items[i] != items[j]; }
      }
      FinalOfDistinct(ids);
    }
    if Tidy(Final(ids)) && ids != [] {
      var last := ids[|ids| - 1];
      assert Final(ids)[last] == |ids| - 1;
      forall i, j | 0 <= i < j < |items| && items[i].Some? ensures items[i] != items[j] {
        assert ids[i] != ids[j];
      }
      FinalOfDistinct(ids);
    }
  }

  /** The state inside the first pass once the rows in `written` have been moved. */
  ghost function Midway(before: Positions, temp: Positions, written: set<int>): Positions {
    map id | id in before :: if id in written && id in temp then temp[id] else before[id]
  }

  /** The first pass is safe in every write order exactly when no row starts out at the temporary
      position of another one. */
  lemma MoveAsideIsSafeIff(before: Positions, items: seq<Item>, base: nat)
    requires Distinct(before) && before.Keys == Kept(items)
    ensures (forall written: set<int> :: Distinct(Midway(before, Temporary(items, base), written))) <==>
      Apart(before, Temporary(items, base))
  {
    TemporaryFacts(items, base);
    var temp := Temporary(items, base);
    if forall written: set<int> :: Distinct(Midway(before, temp, written)) {
      forall a, b | a in before && b in temp && a != b ensures before[a] != temp[b] {
        var halfway := Midway(before, temp, {b});
        assert Distinct(halfway);
        assert halfway[a] == before[a] && halfway[b] == temp[b];
      }
    }
  }

  /** A payload that names one row five times leaves a gap, and the next plain save moves the first
      row onto the second one. */
  lemma RepeatedIdBreaksNextSave()
    ensures
      var items := [Some(1), Some(1), Some(1), Some(1), Some(1), Some(2)];
      var next := [Some(1), Some(2)];
      var saved := Final([1, 1, 1, 1, 1, 2]);
      && Names(items, [1, 1, 1, 1, 1, 2], 3) && saved == map[1 := 4, 2 := 5] && !Tidy(saved)
      && !Distinct(Midway(saved, Temporary(next, TempBase(next, saved)), {1}))
  {
    hide Final, Temporary, Midway, Tidy, Distinct;
    RepeatedIdLeavesGap();
    BreaksNextSave();
  }

  lemma RepeatedIdLeavesGap()
    ensures Final([1, 1, 1, 1, 1, 2]) == map[1 := 4, 2 := 5]
  {
    hide Final;
    NamesAtStart(0, []);
    FinalOneMore([], 1);
    FinalOneMore([1], 1);
    FinalOneMore([1, 1], 1);
    FinalOneMore([1, 1, 1], 1);
    FinalOneMore([1, 1, 1, 1], 1);
    FinalOneMore([1, 1, 1, 1, 1], 2);
    assert [] + [1] == [1] && [1] + [1] == [1, 1] && [1, 1] + [1] == [1, 1, 1] && [1, 1, 1] + [1] == [1, 1, 1, 1];
    assert [1, 1, 1, 1] + [1] == [1, 1, 1, 1, 1] && [1, 1, 1, 1, 1] + [2] == [1, 1, 1, 1, 1, 2];
  }

  lemma BreaksNextSave()
    ensures
      var next, saved := [Some(1), Some(2)], map[1 := 4, 2 := 5];
      !Tidy(saved) && !Distinct(Midway(saved, Temporary(next, TempBase(next, saved)), {1}))
  {
    var next, saved: Positions := [Some(1), Some(2)], map[1 := 4, 2 := 5];
    assert saved.Keys == {1, 2} && |saved| == 2;
    assert next[..1] == [Some(1)] && [Some(1)][..0] == [];
    assert Temporary([Some(1)], 5) == map[1 := 5];
    assert Temporary(next, 5) == map[1 := 5, 2 := 6];
    var midway := Midway(saved, Temporary(next, 5), {1});
    assert midway[1] == 5 && midway[2] == 5;
  }
}
