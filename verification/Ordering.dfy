/** The order in which product ids are listed: by character code, shorter first. */
module Ordering {

  predicate Before(a: string, b: string) {
    if a == "" then b != ""
    else b != "" && (a[0] < b[0] || (a[0] == b[0] && Before(a[1..], b[1..])))
  }

  lemma {:induction false} BeforeIsTransitive(a: string, b: string, c: string)
    requires Before(a, b) && Before(b, c)
    ensures Before(a, c)
  {
    if a != "" && a[0] == b[0] == c[0] { BeforeIsTransitive(a[1..], b[1..], c[1..]); }
  }

  lemma {:induction false} BeforeIsTotal(a: string, b: string)
    ensures a == b || Before(a, b) || Before(b, a)
    ensures !(Before(a, b) && Before(b, a)) && !Before(a, a)
  {
    if a != "" && b != "" {
      BeforeIsTotal(a[1..], b[1..]);
      if a[0] == b[0] && a[1..] == b[1..] { assert a == [a[0]] + a[1..] && b == [b[0]] + b[1..]; }
      BeforeIsTotal(a[1..], a[1..]);
    } else if a != "" {
      BeforeIsTotal(a[1..], a[1..]);
    }
  }

  ghost predicate Ascending(s: seq<string>) {
    forall i, j :: 0 <= i < j < |s| ==> Before(s[i], s[j])
  }

  lemma NotBeforeIsTransitive(a: string, b: string, c: string)
    requires !Before(b, a) && !Before(c, b)
    ensures !Before(c, a)
  {
    BeforeIsTotal(a, b);
    BeforeIsTotal(b, c);
    BeforeIsTotal(a, c);
    if Before(a, b) && Before(b, c) { BeforeIsTransitive(a, b, c); }
  }

  lemma {:induction false} LeastExists(ids: set<string>) returns (least: string)
    requires ids != {}
    ensures least in ids && forall id :: id in ids && id != least ==> Before(least, id)
  {
    var some :| some in ids;
    if ids == {some} {
      least := some;
    } else {
      var rest := ids - {some};
      var m := LeastExists(rest);
      BeforeIsTotal(some, m);
      least := if Before(some, m) then some else m;
      forall id | id in ids && id != least ensures Before(least, id) {
        if least == some && id != m { BeforeIsTransitive(some, m, id); }
      }
    }
  }

  ghost function Least(ids: set<string>): (least: string)
    requires ids != {}
    ensures least in ids && forall id :: id in ids && id != least ==> Before(least, id)
  {
    assert exists least :: least in ids && forall id :: id in ids && id != least ==> Before(least, id) by {
      var _ := LeastExists(ids);
    }
    var least :| least in ids && forall id :: id in ids && id != least ==> Before(least, id);
    least
  }

  ghost function Sorted(ids: set<string>): seq<string>
    decreases |ids|
  {
    if ids == {} then [] else [Least(ids)] + Sorted(ids - {Least(ids)})
  }

  lemma {:induction false} SortedIsAscending(ids: set<string>)
    ensures |Sorted(ids)| == |ids|
    ensures forall id :: id in Sorted(ids) <==> id in ids
    ensures Ascending(Sorted(ids))
    decreases |ids|
  {
    if ids != {} {
      var rest := Sorted(ids - {Least(ids)});
      SortedIsAscending(ids - {Least(ids)});
      forall j | 0 <= j < |rest| ensures Before(Least(ids), rest[j]) {
        assert rest[j] in rest;
      }
    }
  }
}
