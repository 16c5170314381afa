/** Splitting texts at a separator character, and joining them again. */
module Splitting {

  predicate Without(s: string, sep: char) {
    forall i :: 0 <= i < |s| ==> s[i] != sep
  }

  function Parts(s: string, sep: char): (parts: seq<string>)
    ensures parts != []
  {
    if s == "" then [""]
    else
      var parts := Parts(s[1..], sep);
      if s[0] == sep then [""] + parts else [[s[0]] + parts[0]] + parts[1..]
  }

  function Joined(parts: seq<string>, sep: char): string
    requires parts != []
  {
    if |parts| == 1 then parts[0] else parts[0] + [sep] + Joined(parts[1..], sep)
  }

  lemma {:induction false} PartsAreWithout(s: string, sep: char)
    ensures forall i :: 0 <= i < |Parts(s, sep)| ==> Without(Parts(s, sep)[i], sep)
  {
    if s != "" { PartsAreWithout(s[1..], sep); }
  }

  lemma {:induction false} PartsOfWhole(s: string, sep: char)
    requires Without(s, sep)
    ensures Parts(s, sep) == [s]
  {
    if s != "" {
      PartsOfWhole(s[1..], sep);
      assert s == [s[0]] + s[1..];
    }
  }

  lemma {:induction false} PartsAtSeparator(head: string, tail: string, sep: char)
    requires Without(head, sep)
    ensures Parts(head + [sep] + tail, sep) == [head] + Parts(tail, sep)
    decreases |head|
  {
    var s := head + [sep] + tail;
    if head == "" {
      assert s[1..] == tail;
    } else {
      assert s[1..] == head[1..] + [sep] + tail;
      PartsAtSeparator(head[1..], tail, sep);
      var parts := Parts(s[1..], sep);
      assert parts[1..] == Parts(tail, sep);
      assert s[0] == head[0] && [head[0]] + head[1..] == head;
    }
  }

  /** Joining and splitting are inverse on parts that do not hold the separator. */
  lemma {:induction false} PartsOfJoined(parts: seq<string>, sep: char)
    requires parts != [] && forall i :: 0 <= i < |parts| ==> Without(parts[i], sep)
    ensures Parts(Joined(parts, sep), sep) == parts
  {
    if |parts| == 1 {
      PartsOfWhole(parts[0], sep);
    } else {
      PartsOfJoined(parts[1..], sep);
      PartsAtSeparator(parts[0], Joined(parts[1..], sep), sep);
      assert parts == [parts[0]] + parts[1..];
    }
  }

  lemma {:induction false} JoinedOfParts(s: string, sep: char)
    ensures Joined(Parts(s, sep), sep) == s
  {
    if s != "" {
      JoinedOfParts(s[1..], sep);
      var rest := Parts(s[1..], sep);
      assert s == [s[0]] + s[1..];
      if s[0] == sep {
        assert ([""] + rest)[1..] == rest;
      } else {
        assert ([[s[0]] + rest[0]] + rest[1..])[1..] == rest[1..];
      }
    }
  }

  lemma {:induction false} OnePartIff(s: string, sep: char)
    ensures |Parts(s, sep)| == 1 <==> Without(s, sep)
  {
    if s != "" {
      OnePartIff(s[1..], sep);
      assert Without(s, sep) <==> s[0] != sep && Without(s[1..], sep) by { assert s == [s[0]] + s[1..]; }
    }
  }

  lemma {:induction false} PartsAdd(head: string, tail: string, sep: char)
    ensures |Parts(head + [sep] + tail, sep)| == |Parts(head, sep)| + |Parts(tail, sep)|
    decreases |head|
  {
    var s := head + [sep] + tail;
    if head == "" {
      assert s[1..] == tail;
    } else {
      assert s[0] == head[0] && s[1..] == head[1..] + [sep] + tail;
      PartsAdd(head[1..], tail, sep);
    }
  }

  /** A part that holds the separator gives more parts than were joined. */
  lemma {:induction false} JoinedPartsIff(parts: seq<string>, sep: char)
    requires parts != []
    ensures |Parts(Joined(parts, sep), sep)| >= |parts|
    ensures |Parts(Joined(parts, sep), sep)| == |parts| <==> forall i :: 0 <= i < |parts| ==> Without(parts[i], sep)
  {
    OnePartIff(parts[0], sep);
    if |parts| > 1 {
      var rest := parts[1..];
      JoinedPartsIff(rest, sep);
      PartsAdd(parts[0], Joined(rest, sep), sep);
      assert parts == [parts[0]] + rest;
      if forall i :: 0 <= i < |parts| ==> Without(parts[i], sep) {
        forall i | 0 <= i < |rest| ensures Without(rest[i], sep) { assert rest[i] == parts[i + 1]; }
      }
    }
  }

  lemma {:induction false} JoinedLength(parts: seq<string>, sep: char)
    requires parts != []
    ensures |Joined(parts, sep)| >= |parts| - 1
    ensures forall i :: 0 <= i < |parts| ==> |parts[i]| <= |Joined(parts, sep)|
  {
    if |parts| > 1 {
      JoinedLength(parts[1..], sep);
      forall i | 0 <= i < |parts| ensures |parts[i]| <= |Joined(parts, sep)| {
        if i > 0 { assert parts[i] == parts[1..][i - 1]; }
      }
    }
  }
}
