/** Writing strings into indexed slots of repeated attributes, and what a set of such writes
    leaves behind. */
module Slots {
  import opened Hashing
  import opened Wrappers

  /** A mapped product under construction: values by attribute. */
  type Result = map<string, Json>

  /** A string for slot `index` (1-based) of a repeated attribute, or for a sub-field of the item there. */
  datatype Write = Write(attr: string, index: nat, sub: Option<string>, text: string)

  function Items(r: Result, attr: string): seq<Json> {
    if attr in r && r[attr].Arr? then r[attr].items else []
  }

  function Padded(items: seq<Json>, n: nat, filler: Json): seq<Json> {
    if |items| >= n then items else items + seq(n - |items|, _ => filler)
  }

  function FieldsOf(item: Json): map<string, Json> {
    if item.Obj? then item.fields else map[]
  }

  /** One indexed write; the flag is false when the slot holds a string where an item is needed. */
  function SetIndexed(r: Result, w: Write): (Result, bool)
    requires w.index >= 1
  {
    var i := w.index - 1;
    match w.sub
    case None =>
      var items := Padded(Items(r, w.attr), w.index, Str(""));
      (r[w.attr := Arr(items[i := Str(w.text)])], true)
    case Some(sub) =>
      var items := Padded(Items(r, w.attr), w.index, Obj(map[]));
      if items[i].Obj? then (r[w.attr := Arr(items[i := Obj(items[i].fields[sub := Str(w.text)])])], true)
      else (r[w.attr := Arr(items)], false)
  }

  function SetAll(r: Result, ws: seq<Write>): Result
    requires forall w :: w in ws ==> w.index >= 1
  {
    if ws == [] then r
    else
      var last := ws[|ws| - 1];
      assert last in ws;
      SetIndexed(SetAll(r, ws[..|ws| - 1]), last).0
  }

  // ----- The reference: each slot by itself -----

  ghost predicate SameSlot(v: Write, w: Write) {
    v.attr == w.attr && v.index == w.index && v.sub == w.sub
  }

  ghost predicate DistinctSlots(ws: seq<Write>) {
    forall i, j :: 0 <= i < j < |ws| ==> !SameSlot(ws[i], ws[j])
  }

  ghost predicate Positive(ws: seq<Write>) {
    forall w :: w in ws ==> w.index >= 1
  }

  ghost predicate Touched(ws: seq<Write>, attr: string) {
    exists w :: w in ws && w.attr == attr
  }

  function Greatest(ws: seq<Write>, attr: string): nat {
    if ws == [] then 0
    else
      var rest, last := Greatest(ws[..|ws| - 1], attr), ws[|ws| - 1];
      if last.attr == attr && last.index > rest then last.index else rest
  }

  ghost predicate SubWritten(ws: seq<Write>, attr: string, n: nat, sub: string) {
    exists w :: w in ws && w.attr == attr && w.index == n && w.sub == Some(sub)
  }

  ghost predicate BareWritten(ws: seq<Write>, attr: string, n: nat) {
    exists w :: w in ws && w.attr == attr && w.index == n && w.sub == None
  }

  function LengthAfter(r: Result, ws: seq<Write>, attr: string): nat {
    if Greatest(ws, attr) > |Items(r, attr)| then Greatest(ws, attr) else |Items(r, attr)|
  }

  /** The first write that reaches a slot: the one that makes it if the list was too short. */
  function FirstReaching(ws: seq<Write>, attr: string, n: nat): Option<Write> {
    if ws == [] then None
    else
      var earlier, last := FirstReaching(ws[..|ws| - 1], attr, n), ws[|ws| - 1];
      if earlier.Some? then earlier else if last.attr == attr && last.index >= n then Some(last) else None
  }

  function Filler(w: Write): Json {
    if w.sub.Some? then Obj(map[]) else Str("")
  }

  /** What slot `n` (1-based) held before any write to it: an item that was there, or the filler
      of the write that made the slot. */
  function Origin(r: Result, ws: seq<Write>, attr: string, n: nat): Json
    requires n >= 1
  {
    if n <= |Items(r, attr)| then Items(r, attr)[n - 1]
    else
      var maker := FirstReaching(ws, attr, n);
      if maker.Some? then Filler(maker.value) else Null
  }

  /** What slot `n` holds after the writes: the bare string written there, or what it was with the
      sub-fields written there. A slot that held no item takes no sub-field. */
  ghost predicate SlotAfter(r: Result, ws: seq<Write>, attr: string, n: nat, item: Json)
    requires n >= 1
  {
    var origin := Origin(r, ws, attr, n);
    if BareWritten(ws, attr, n) then
      forall w :: w in ws && w.attr == attr && w.index == n && w.sub.None? ==> item == Str(w.text)
    else if !origin.Obj? then item == origin
    else
      && item.Obj?
      && (forall sub :: sub in item.fields <==> sub in origin.fields || SubWritten(ws, attr, n, sub))
      && (forall sub :: sub in item.fields && !SubWritten(ws, attr, n, sub) ==> item.fields[sub] == origin.fields[sub])
      && (forall w :: w in ws && w.attr == attr && w.index == n && w.sub.Some? ==>
        w.sub.value in item.fields && item.fields[w.sub.value] == Str(w.text))
  }

  /** The items of an attribute after the writes. */
  ghost predicate ItemsAfter(r: Result, ws: seq<Write>, attr: string, items: seq<Json>) {
    && |items| == LengthAfter(r, ws, attr)
    && forall i :: 0 <= i < |items| ==> SlotAfter(r, ws, attr, i + 1, items[i])
  }

  /** `after` is `r` with every write in its own slot and nothing else changed. */
  ghost predicate SlotsSet(r: Result, ws: seq<Write>, after: Result) {
    && (forall attr :: !Touched(ws, attr) ==> (attr in after <==> attr in r) && (attr in r ==> after[attr] == r[attr]))
    && (forall attr :: Touched(ws, attr) ==>
      attr in after && after[attr].Arr? && ItemsAfter(r, ws, attr, after[attr].items))
  }

  // ----- One write after the others -----

  lemma {:induction false} GreatestBounds(ws: seq<Write>, attr: string)
    ensures forall w :: w in ws && w.attr == attr ==> w.index <= Greatest(ws, attr)
    ensures Greatest(ws, attr) > 0 ==> exists w :: w in ws && w.attr == attr && w.index == Greatest(ws, attr)
  {
    if ws != [] {
      GreatestBounds(ws[..|ws| - 1], attr);
      assert ws == ws[..|ws| - 1] + [ws[|ws| - 1]];
    }
  }

  lemma {:induction false} FirstReachingReaches(ws: seq<Write>, attr: string, n: nat)
    requires n >= 1
    ensures FirstReaching(ws, attr, n).Some? <==> n <= Greatest(ws, attr)
    ensures FirstReaching(ws, attr, n).Some? ==>
      var w := FirstReaching(ws, attr, n).value; w in ws && w.attr == attr && w.index >= n
  {
    if ws != [] {
      FirstReachingReaches(ws[..|ws| - 1], attr, n);
      assert ws == ws[..|ws| - 1] + [ws[|ws| - 1]];
    }
  }

  lemma OneMore(ws: seq<Write>, w: Write, attr: string, n: nat)
    ensures Greatest(ws + [w], attr) ==
      if w.attr == attr && w.index > Greatest(ws, attr) then w.index else Greatest(ws, attr)
    ensures FirstReaching(ws + [w], attr, n) ==
      if FirstReaching(ws, attr, n).Some? then FirstReaching(ws, attr, n)
      else if w.attr == attr && w.index >= n then Some(w) else None
    ensures forall v :: v in ws + [w] <==> v in ws || v == w
    ensures BareWritten(ws + [w], attr, n) <==>
      BareWritten(ws, attr, n) || (w.attr == attr && w.index == n && w.sub.None?)
    ensures forall sub :: SubWritten(ws + [w], attr, n, sub) <==>
      SubWritten(ws, attr, n, sub) || (w.attr == attr && w.index == n && w.sub == Some(sub))
  {
    assert (ws + [w])[..|ws|] == ws;
    assert w in ws + [w];
    forall sub: string
      ensures SubWritten(ws + [w], attr, n, sub) <==>
        SubWritten(ws, attr, n, sub) || (w.attr == attr && w.index == n && w.sub == Some(sub)) {}
  }

  /** What one write makes of the slot it names. */
  function Written(w: Write, item: Json): Json {
    if w.sub.None? then Str(w.text)
    else if item.Obj? then Obj(item.fields[w.sub.value := Str(w.text)])
    else item
  }

  lemma OtherSlotKept(r: Result, ws: seq<Write>, w: Write, attr: string, n: nat, item: Json)
    requires 1 <= n <= LengthAfter(r, ws, attr) && SlotAfter(r, ws, attr, n, item)
    requires w.attr != attr || w.index != n
    ensures SlotAfter(r, ws + [w], attr, n, item)
  {
    hide Greatest, FirstReaching, Items, BareWritten, SubWritten;
    OneMore(ws, w, attr, n);
    FirstReachingReaches(ws, attr, n);
  }

  lemma OwnSlotSet(r: Result, ws: seq<Write>, w: Write, item: Json)
    requires 1 <= w.index <= LengthAfter(r, ws, w.attr) && SlotAfter(r, ws, w.attr, w.index, item)
    requires forall v :: v in ws ==> !SameSlot(v, w)
    ensures SlotAfter(r, ws + [w], w.attr, w.index, Written(w, item))
  {
    hide Greatest, FirstReaching, Items;
    OneMore(ws, w, w.attr, w.index);
    FirstReachingReaches(ws, w.attr, w.index);
  }

  /** A slot that the last write makes. */
  lemma FreshSlot(r: Result, ws: seq<Write>, w: Write, n: nat)
    requires LengthAfter(r, ws, w.attr) < n <= w.index
    ensures SlotAfter(r, ws + [w], w.attr, n, if n == w.index then Written(w, Filler(w)) else Filler(w))
  {
    hide Greatest, FirstReaching, Items;
    OneMore(ws, w, w.attr, n);
    FirstReachingReaches(ws, w.attr, n);
    GreatestBounds(ws, w.attr);
  }

  /** The items of the written attribute, one write later. */
  lemma ItemsOneMore(r: Result, ws: seq<Write>, w: Write, items: seq<Json>)
    requires w.index >= 1 && ItemsAfter(r, ws, w.attr, items)
    requires forall v :: v in ws ==> !SameSlot(v, w)
    ensures
      var padded := Padded(items, w.index, Filler(w));
      ItemsAfter(r, ws + [w], w.attr, padded[w.index - 1 := Written(w, padded[w.index - 1])])
  {
    hide SlotAfter, Greatest, Written, Filler, Items;
    var padded := Padded(items, w.index, Filler(w));
    var after := padded[w.index - 1 := Written(w, padded[w.index - 1])];
    OneMore(ws, w, w.attr, w.index);
    forall i | 0 <= i < |after| ensures SlotAfter(r, ws + [w], w.attr, i + 1, after[i]) {
      if i >= |items| {
        FreshSlot(r, ws, w, i + 1);
      } else if i + 1 == w.index {
        OwnSlotSet(r, ws, w, items[i]);
      } else {
        OtherSlotKept(r, ws, w, w.attr, i + 1, items[i]);
      }
    }
  }

  lemma SetIndexedItems(r: Result, w: Write)
    requires w.index >= 1
    ensures
      var padded := Padded(Items(r, w.attr), w.index, Filler(w));
      && SetIndexed(r, w).0 == r[w.attr := Arr(padded[w.index - 1 := Written(w, padded[w.index - 1])])]
      && SetIndexed(r, w).1 == (w.sub.Some? ==> padded[w.index - 1].Obj?)
  {
    var padded := Padded(Items(r, w.attr), w.index, Filler(w));
    assert padded == padded[w.index - 1 := padded[w.index - 1]];
  }

  lemma UntouchedItems(r: Result, ws: seq<Write>, attr: string)
    requires !Touched(ws, attr)
    ensures ItemsAfter(r, ws, attr, Items(r, attr))
  {
    GreatestBounds(ws, attr);
  }

  lemma OtherAttribute(r: Result, ws: seq<Write>, w: Write, attr: string, items: seq<Json>)
    requires ItemsAfter(r, ws, attr, items) && w.attr != attr
    ensures ItemsAfter(r, ws + [w], attr, items)
  {
    hide SlotAfter, Greatest, Items;
    OneMore(ws, w, attr, 1);
    forall i | 0 <= i < |items| ensures SlotAfter(r, ws + [w], attr, i + 1, items[i]) {
      OtherSlotKept(r, ws, w, attr, i + 1, items[i]);
    }
  }

  lemma SlotsSetOneMore(r: Result, ws: seq<Write>, w: Write, mid: Result)
    requires w.index >= 1 && SlotsSet(r, ws, mid)
    requires forall v :: v in ws ==> !SameSlot(v, w)
    ensures SlotsSet(r, ws + [w], SetIndexed(mid, w).0)
  {
    hide SetIndexed, ItemsAfter, Written, Padded;
    assert w in ws + [w] && forall v :: v in ws + [w] <==> v in ws || v == w;
    var after := SetIndexed(mid, w).0;
    SetIndexedItems(mid, w);
    if !Touched(ws, w.attr) { UntouchedItems(r, ws, w.attr); }
    ItemsOneMore(r, ws, w, Items(mid, w.attr));
    forall attr | attr != w.attr && Touched(ws + [w], attr)
      ensures attr in after && after[attr].Arr? && ItemsAfter(r, ws + [w], attr, after[attr].items)
    {
      OtherAttribute(r, ws, w, attr, mid[attr].items);
    }
  }

  /** Indexed writes to distinct slots, whatever was there before and whatever shapes they mix:
      each slot holds what was written there, as far as it could take it, every other slot and
      attribute keeps its value, and a list is as long as it was or as its greatest index asks. */
  lemma {:induction false} SetAllSetsSlots(r: Result, ws: seq<Write>)
    requires Positive(ws) && DistinctSlots(ws)
    ensures SlotsSet(r, ws, SetAll(r, ws))
  {
    if ws != [] {
      var rest, last := ws[..|ws| - 1], ws[|ws| - 1];
      assert ws == rest + [last];
      SetAllSetsSlots(r, rest);
      SlotsSetOneMore(r, rest, last, SetAll(r, rest));
    }
  }

  // ----- Which strings land -----

  /** The string of a write is found in its slot. */
  predicate Landed(after: Result, w: Write) {
    var items := Items(after, w.attr);
    && 1 <= w.index <= |items|
    && (if w.sub.None? then items[w.index - 1] == Str(w.text)
        else
          && items[w.index - 1].Obj? && w.sub.value in items[w.index - 1].fields
          && items[w.index - 1].fields[w.sub.value] == Str(w.text))
  }

  /** A bare string always lands. A sub-field does exactly when no bare string goes to its slot
      and the slot held an item, or was made by a write that carries a sub-field itself. */
  lemma LandsIff(r: Result, ws: seq<Write>, w: Write)
    requires Positive(ws) && DistinctSlots(ws) && w in ws
    ensures Landed(SetAll(r, ws), w) <==>
      w.sub.Some? ==> !BareWritten(ws, w.attr, w.index) && Origin(r, ws, w.attr, w.index).Obj?
  {
    hide SetAll, Greatest, Origin, FirstReaching;
    SetAllSetsSlots(r, ws);
    GreatestBounds(ws, w.attr);
    var after := SetAll(r, ws);
    assert Touched(ws, w.attr);
    assert SlotAfter(r, ws, w.attr, w.index, after[w.attr].items[w.index - 1]);
    if w.sub.None? { assert BareWritten(ws, w.attr, w.index); }
  }

  ghost predicate SameWrites(us: seq<Write>, ws: seq<Write>) {
    DistinctSlots(us) && forall w :: w in us <==> w in ws
  }

  /** A bare string and a sub-field of one attribute get in each other's way when they share a
      slot, or when filling up for the bare string would make the slot of the sub-field. */
  predicate Clash(r: Result, v: Write, w: Write) {
    && v.attr == w.attr && v.sub.None? && w.sub.Some?
    && (v.index == w.index || (v.index > w.index > |Items(r, w.attr)|))
  }

  /** The slots that sub-fields go to hold items, where they exist. */
  ghost predicate Ready(r: Result, ws: seq<Write>) {
    forall w :: w in ws && w.sub.Some? && 1 <= w.index <= |Items(r, w.attr)| ==> Items(r, w.attr)[w.index - 1].Obj?
  }

  /** One write moved to the front. */
  lemma MovedToFront(ws: seq<Write>, w: Write) returns (us: seq<Write>)
    requires DistinctSlots(ws) && w in ws
    ensures SameWrites(us, ws) && us != [] && us[0] == w
  {
    var i :| 0 <= i < |ws| && ws[i] == w;
    us := [w] + (ws[..i] + ws[i + 1..]);
    assert ws == ws[..i] + [w] + ws[i + 1..];
    forall j, k | 0 <= j < k < |us| ensures !SameSlot(us[j], us[k]) {
      var from := (m: nat) => if m == 0 then i else if m <= i then m - 1 else m;
      assert us[j] == ws[from(j)] && us[k] == ws[from(k)];
      assert from(j) < from(k) ==> !SameSlot(ws[from(j)], ws[from(k)]);
      assert from(k) < from(j) ==> !SameSlot(ws[from(k)], ws[from(j)]);
    }
  }

  lemma {:induction false} FrontReachesFirst(us: seq<Write>, attr: string, n: nat)
    requires us != [] && us[0].attr == attr && us[0].index >= n
    ensures FirstReaching(us, attr, n) == Some(us[0])
  {
    if |us| > 1 { FrontReachesFirst(us[..|us| - 1], attr, n); }
  }

  /** Every string lands in every order of the writes exactly when no two of them clash. */
  lemma LandInEveryOrderIff(r: Result, ws: seq<Write>)
    requires Positive(ws) && DistinctSlots(ws) && Ready(r, ws)
    ensures (forall us, w :: SameWrites(us, ws) && w in us ==> w in ws && Landed(SetAll(r, us), w)) <==>
      forall v, w :: v in ws && w in ws ==> !Clash(r, v, w)
  {
    hide SetAll, Landed;
    if v, w :| v in ws && w in ws && Clash(r, v, w) {
      var us := MovedToFront(ws, v);
      FrontReachesFirst(us, w.attr, w.index);
      assert v.index == w.index ==> BareWritten(us, w.attr, w.index);
      assert w in us;
      LandsIff(r, us, w);
      assert !Landed(SetAll(r, us), w);
    } else {
      forall us, w | SameWrites(us, ws) && w in us ensures w in ws && Landed(SetAll(r, us), w) {
        LandsIff(r, us, w);
        FirstReachingReaches(us, w.attr, w.index);
        GreatestBounds(us, w.attr);
        forall v | v in us ensures !Clash(r, v, w) {}
      }
    }
  }

  // ----- Whether order matters -----

  /** Where a bare string and a sub-field of one attribute both reach a slot that was not there,
      a bare string is written to that slot: whichever comes first, its filler does not stay. */
  ghost predicate OneFiller(r: Result, ws: seq<Write>) {
    forall v, w, n ::
      v in ws && w in ws && v.attr == w.attr && v.sub.None? && w.sub.Some?
      && |Items(r, v.attr)| < n <= v.index && n <= w.index ==>
        BareWritten(ws, v.attr, n)
  }

  lemma SameOrigin(r: Result, ws: seq<Write>, us: seq<Write>, attr: string, n: nat)
    requires SameWrites(us, ws) && OneFiller(r, ws) && n >= 1 && !BareWritten(ws, attr, n)
    ensures Origin(r, us, attr, n) == Origin(r, ws, attr, n)
  {
    FirstReachingReaches(ws, attr, n);
    FirstReachingReaches(us, attr, n);
    GreatestUnique(ws, us, attr);
  }

  lemma SlotUnique(r: Result, ws: seq<Write>, us: seq<Write>, attr: string, n: nat, a: Json, b: Json)
    requires SameWrites(us, ws) && OneFiller(r, ws) && n >= 1
    requires SlotAfter(r, ws, attr, n, a) && SlotAfter(r, us, attr, n, b)
    ensures a == b
  {
    hide Origin, OneFiller;
    forall sub: string ensures SubWritten(ws, attr, n, sub) <==> SubWritten(us, attr, n, sub) {}
    assert BareWritten(ws, attr, n) <==> BareWritten(us, attr, n);
    if BareWritten(ws, attr, n) {
      var w :| w in ws && w.attr == attr && w.index == n && w.sub == None;
      assert w in us;
    } else {
      SameOrigin(r, ws, us, attr, n);
      if Origin(r, ws, attr, n).Obj? {
        forall sub | sub in a.fields ensures sub in b.fields && a.fields[sub] == b.fields[sub] {
          if SubWritten(ws, attr, n, sub) {
            var w :| w in ws && w.attr == attr && w.index == n && w.sub == Some(sub);
            assert w in us;
          }
        }
        assert a.fields.Keys == b.fields.Keys;
        assert a.fields == b.fields;
      }
    }
  }

  lemma GreatestUnique(ws: seq<Write>, us: seq<Write>, attr: string)
    requires forall w :: w in ws <==> w in us
    ensures Greatest(ws, attr) == Greatest(us, attr)
  {
    GreatestBounds(ws, attr);
    GreatestBounds(us, attr);
  }

  lemma ItemsUnique(r: Result, ws: seq<Write>, us: seq<Write>, attr: string, xs: seq<Json>, ys: seq<Json>)
    requires SameWrites(us, ws) && OneFiller(r, ws)
    requires ItemsAfter(r, ws, attr, xs) && ItemsAfter(r, us, attr, ys)
    ensures xs == ys
  {
    SameLength(r, ws, us, attr);
    hide SlotAfter, OneFiller, SameWrites, LengthAfter;
    forall i | 0 <= i < |xs| ensures xs[i] == ys[i] { SlotUnique(r, ws, us, attr, i + 1, xs[i], ys[i]); }
  }

  lemma SameLength(r: Result, ws: seq<Write>, us: seq<Write>, attr: string)
    requires SameWrites(us, ws)
    ensures LengthAfter(r, ws, attr) == LengthAfter(r, us, attr)
  {
    GreatestUnique(ws, us, attr);
  }

  lemma SameTouched(ws: seq<Write>, us: seq<Write>, attr: string)
    requires SameWrites(us, ws)
    ensures Touched(ws, attr) <==> Touched(us, attr)
  {
  }

  lemma ResultUnique(r: Result, ws: seq<Write>, us: seq<Write>, a: Result, b: Result)
    requires SameWrites(us, ws) && OneFiller(r, ws)
    requires SlotsSet(r, ws, a) && SlotsSet(r, us, b)
    ensures a == b
  {
    hide ItemsAfter, OneFiller, SameWrites, Touched;
    forall attr ensures (attr in a <==> attr in b) && (attr in a ==> a[attr] == b[attr]) {
      SameTouched(ws, us, attr);
      if Touched(ws, attr) { ItemsUnique(r, ws, us, attr, a[attr].items, b[attr].items); }
    }
  }

  /** The writes may come in any order: the result is the same. */
  lemma OrderDoesNotMatter(r: Result, ws: seq<Write>, us: seq<Write>)
    requires Positive(ws) && DistinctSlots(ws) && SameWrites(us, ws) && OneFiller(r, ws)
    ensures SetAll(r, ws) == SetAll(r, us)
  {
    SetAllSetsSlots(r, ws);
    SetAllSetsSlots(r, us);
    ResultUnique(r, ws, us, SetAll(r, ws), SetAll(r, us));
  }

  /** The slot that the first write makes keeps its filler's shape. */
  lemma FillerStays(r: Result, us: seq<Write>, n: nat)
    requires Positive(us) && DistinctSlots(us) && us != []
    requires |Items(r, us[0].attr)| < n <= us[0].index && !BareWritten(us, us[0].attr, n)
    ensures
      var items := Items(SetAll(r, us), us[0].attr);
      n <= |items| && items[n - 1].Obj? == us[0].sub.Some?
  {
    hide SetAll, Greatest, BareWritten, SubWritten, FirstReaching;
    var attr := us[0].attr;
    SetAllSetsSlots(r, us);
    FrontReachesFirst(us, attr, n);
    FirstReachingReaches(us, attr, n);
    assert us[0] in us && Touched(us, attr);
    assert SlotAfter(r, us, attr, n, SetAll(r, us)[attr].items[n - 1]);
  }

  /** Every order of the writes gives the same result exactly under that condition. */
  lemma OrderDoesNotMatterIff(r: Result, ws: seq<Write>)
    requires Positive(ws) && DistinctSlots(ws)
    ensures (forall us :: SameWrites(us, ws) ==> Positive(us) && SetAll(r, us) == SetAll(r, ws)) <==> OneFiller(r, ws)
  {
    hide SetAll, Items;
    if OneFiller(r, ws) {
      forall us | SameWrites(us, ws) ensures Positive(us) && SetAll(r, us) == SetAll(r, ws) {
        OrderDoesNotMatter(r, ws, us);
      }
    } else {
      var v, w, n :| v in ws && w in ws && v.attr == w.attr && v.sub.None? && w.sub.Some?
        && |Items(r, v.attr)| < n <= v.index && n <= w.index && !BareWritten(ws, v.attr, n);
      var us := MovedToFront(ws, v);
      var others := MovedToFront(ws, w);
      FillerStays(r, us, n);
      FillerStays(r, others, n);
    }
  }

  lemma SetAllOneMore(r: Result, ws: seq<Write>, w: Write)
    requires forall v :: v in ws + [w] ==> v.index >= 1
    ensures w.index >= 1 && (forall v :: v in ws ==> v.index >= 1)
    ensures SetAll(r, ws + [w]) == SetIndexed(SetAll(r, ws), w).0
  {
    assert w in ws + [w] && forall v :: v in ws ==> v in ws + [w];
    assert (ws + [w])[..|ws|] == ws;
  }

  /** Two slots apart are not enough: sorted by target text, slot 10 is written before slot 2, is
      filled up to with empty strings, and the sub-field of slot 2 is lost. */
  lemma FillerLosesTheSubField(text: string, other: string)
    ensures
      var bare, sub := Write("a", 10, None, text), Write("a", 2, Some("f"), other);
      !Landed(SetAll(map[], [bare, sub]), sub) && Landed(SetAll(map[], [sub, bare]), sub)
  {
    var bare, sub := Write("a", 10, None, text), Write("a", 2, Some("f"), other);
    LandsIff(map[], [bare, sub], sub);
    LandsIff(map[], [sub, bare], sub);
    FrontReachesFirst([bare, sub], "a", 2);
    FrontReachesFirst([sub, bare], "a", 2);
  }

  /** A bare string and a sub-field for one slot: whichever comes first, the sub-field is lost. */
  lemma MixedShapesLoseTheSubField(r: Result, attr: string, n: nat, sub: string, text: string, other: string)
    requires n >= 1
    ensures
      var v, w := Write(attr, n, None, text), Write(attr, n, Some(sub), other);
      && Landed(SetAll(r, [v, w]), v) && !Landed(SetAll(r, [v, w]), w)
      && Landed(SetAll(r, [w, v]), v) && !Landed(SetAll(r, [w, v]), w)
  {
    var v, w := Write(attr, n, None, text), Write(attr, n, Some(sub), other);
    assert v in [v, w] && v in [w, v];
    LandsIff(r, [v, w], v);
    LandsIff(r, [v, w], w);
    LandsIff(r, [w, v], v);
    LandsIff(r, [w, v], w);
  }
}
