/** The 1-based indexed path grammar: attr | attr.sub | attr.N | attr.N.sub */
module IndexedPath {
  import opened Splitting
  import opened Wrappers

  datatype Path = Path(attr: string, index: Option<nat>, sub: Option<string>)

  const MAX_INDEX: nat := 10_000

  predicate IsDigit(c: char) {
    '0' <= c <= '9'
  }

  /** Python's `isdigit` on the ASCII digits. */
  predicate AllDigits(s: string) {
    s != "" && forall i :: 0 <= i < |s| ==> IsDigit(s[i])
  }

  function ToNat(s: string): nat
    requires forall i :: 0 <= i < |s| ==> IsDigit(s[i])
  {
    if s == "" then 0
    else
      assert IsDigit(s[|s| - 1]);
      10 * ToNat(s[..|s| - 1]) + (s[|s| - 1] as int - '0' as int)
  }

  function ToText(n: nat): string {
    if n < 10 then [('0' as int + n) as char] else ToText(n / 10) + [('0' as int + n % 10) as char]
  }

  lemma {:induction false} ToTextRoundTrip(n: nat)
    ensures AllDigits(ToText(n)) && ToNat(ToText(n)) == n
  {
    if n >= 10 {
      ToTextRoundTrip(n / 10);
      var s := ToText(n);
      assert s[..|s| - 1] == ToText(n / 10);
    } else {
      assert ToText(n)[..0] == "";
    }
  }

  // ----- Splitting at dots -----

  predicate DotFree(s: string) {
    Without(s, '.')
  }

  function Split(s: string): (parts: seq<string>)
    ensures parts != []
  {
    Parts(s, '.')
  }

  lemma SplitPartsAreDotFree(s: string)
    ensures forall i :: 0 <= i < |Split(s)| ==> DotFree(Split(s)[i])
  {
    PartsAreWithout(s, '.');
  }

  lemma SplitDotFree(s: string)
    requires DotFree(s)
    ensures Split(s) == [s]
  {
    PartsOfWhole(s, '.');
  }

  lemma SplitAtDot(head: string, tail: string)
    requires DotFree(head)
    ensures Split(head + "." + tail) == [head] + Split(tail)
  {
    PartsAtSeparator(head, tail, '.');
  }

  // ----- The grammar -----

  /** None where the parser raises ValueError. */
  function ParseParts(parts: seq<string>): Option<Path> {
    if parts == [] || parts[0] == "" || |parts| > 3 then None
    else if |parts| == 1 then Some(Path(parts[0], None, None))
    else
      var second := parts[1];
      if AllDigits(second) then
        var index := ToNat(second);
        if index < 1 || index > MAX_INDEX then None
        else if |parts| == 3 then
          (if parts[2] == "" then None else Some(Path(parts[0], Some(index), Some(parts[2]))))
        else Some(Path(parts[0], Some(index), None))
      else if |parts| == 3 || second == "" || second[0] == '-' then None
      else Some(Path(parts[0], None, Some(second)))
  }

  function Parse(s: string): Option<Path> {
    ParseParts(Split(s))
  }

  /** The plugins' own reader of the grammar: any second part that is no index is a sub-field, and
      there is no upper bound on the index. */
  function LoosePath(s: string): Option<Path> {
    var parts := Split(s);
    if parts[0] == "" || |parts| > 3 then None
    else if |parts| == 1 then Some(Path(parts[0], None, None))
    else if AllDigits(parts[1]) then
      if ToNat(parts[1]) < 1 || (|parts| == 3 && parts[2] == "") then None
      else Some(Path(parts[0], Some(ToNat(parts[1])), if |parts| == 3 then Some(parts[2]) else None))
    else if |parts| == 3 then None
    else Some(Path(parts[0], None, Some(parts[1])))
  }

  function Print(p: Path): string {
    p.attr
    + (if p.index.Some? then "." + ToText(p.index.value) else "")
    + (if p.sub.Some? then "." + p.sub.value else "")
  }

  /** The paths the grammar names. */
  predicate WellFormed(p: Path) {
    && p.attr != "" && DotFree(p.attr)
    && (p.index.Some? ==> 1 <= p.index.value <= MAX_INDEX)
    && (p.sub.Some? ==> p.sub.value != "" && DotFree(p.sub.value))
    && (p.sub.Some? && p.index.None? ==> !AllDigits(p.sub.value) && p.sub.value[0] != '-')
  }

  lemma DigitsAreDotFree(s: string)
    requires AllDigits(s)
    ensures DotFree(s)
  {
  }

  lemma SplitTwo(a: string, b: string)
    requires DotFree(a) && DotFree(b)
    ensures Split(a + "." + b) == [a, b]
  {
    SplitAtDot(a, b);
    SplitDotFree(b);
  }

  lemma SplitThree(a: string, b: string, c: string)
    requires DotFree(a) && DotFree(b) && DotFree(c)
    ensures Split(a + "." + b + "." + c) == [a, b, c]
  {
    SplitAtDot(a, b + "." + c);
    SplitTwo(b, c);
    assert a + "." + b + "." + c == a + "." + (b + "." + c);
  }

  /** Printing a well-formed path gives a text that parses back; the next lemma is the converse. */
  lemma ParsePrint(p: Path)
    requires WellFormed(p)
    ensures Parse(Print(p)) == Some(p)
  {
    hide Split, ToNat, ToText;
    if p.index.Some? {
      var index := ToText(p.index.value);
      ToTextRoundTrip(p.index.value);
      DigitsAreDotFree(index);
      if p.sub.Some? {
        SplitThree(p.attr, index, p.sub.value);
        assert Print(p) == p.attr + "." + index + "." + p.sub.value;
      } else {
        SplitTwo(p.attr, index);
        assert Print(p) == p.attr + "." + index;
      }
    } else if p.sub.Some? {
      SplitTwo(p.attr, p.sub.value);
      assert Print(p) == p.attr + "." + p.sub.value;
    } else {
      SplitDotFree(p.attr);
      assert Print(p) == p.attr;
    }
  }

  lemma ParsedIsWellFormed(s: string)
    requires Parse(s).Some?
    ensures WellFormed(Parse(s).value)
  {
    hide Split;
    SplitPartsAreDotFree(s);
  }

  /** The texts of a path; an index may have leading zeros. */
  ghost predicate Spells(s: string, p: Path) {
    && DotFree(p.attr) && (p.sub.Some? ==> DotFree(p.sub.value))
    && var tail := if p.sub.Some? then "." + p.sub.value else "";
      if p.index.None? then s == p.attr + tail && (p.sub.Some? ==> !AllDigits(p.sub.value))
      else exists digits ::
        AllDigits(digits) && ToNat(digits) == p.index.value && s == p.attr + "." + digits + tail
  }

  lemma SpelledParts(s: string, p: Path)
    requires Spells(s, p)
    ensures Split(s)[0] == p.attr
    ensures p.index.None? ==> Split(s) == [p.attr] + if p.sub.Some? then [p.sub.value] else []
    ensures p.index.Some? ==>
      && |Split(s)| > 1 && AllDigits(Split(s)[1]) && ToNat(Split(s)[1]) == p.index.value
      && Split(s)[2..] == if p.sub.Some? then [p.sub.value] else []
  {
    hide Split, ToNat;
    if p.index.Some? {
      var tail := if p.sub.Some? then "." + p.sub.value else "";
      var digits :| AllDigits(digits) && ToNat(digits) == p.index.value && s == p.attr + "." + digits + tail;
      DigitsAreDotFree(digits);
      if p.sub.Some? {
        SplitThree(p.attr, digits, p.sub.value);
        assert s == p.attr + "." + digits + "." + p.sub.value;
      } else {
        SplitTwo(p.attr, digits);
        assert s == p.attr + "." + digits;
      }
    } else if p.sub.Some? {
      SplitTwo(p.attr, p.sub.value);
      assert s == p.attr + "." + p.sub.value;
    } else {
      SplitDotFree(p.attr);
      assert s == p.attr;
    }
  }

  lemma PartsSpell(s: string)
    ensures forall i :: 0 <= i < |Split(s)| ==> DotFree(Split(s)[i])
    ensures |Split(s)| == 1 ==> s == Split(s)[0]
    ensures |Split(s)| == 2 ==> s == Split(s)[0] + "." + Split(s)[1]
    ensures |Split(s)| == 3 ==> s == Split(s)[0] + "." + Split(s)[1] + "." + Split(s)[2]
  {
    SplitPartsAreDotFree(s);
    JoinedOfParts(s, '.');
    var parts := Split(s);
    if |parts| == 3 {
      assert Joined(parts[1..], '.') == parts[1] + ['.'] + Joined(parts[1..][1..], '.');
    }
  }

  lemma KeyIsJoined(s: string)
    requires |Split(s)| > 1
    ensures exists tail :: s == Split(s)[0] + "." + tail
  {
    JoinedOfParts(s, '.');
    assert s == Split(s)[0] + "." + Joined(Split(s)[1..], '.');
  }

  /** The paths a text can be parsed to, by either reader, are exactly those it spells. */
  lemma ParseIff(s: string, p: Path)
    ensures Parse(s) == Some(p) <==> Spells(s, p) && WellFormed(p)
  {
    hide Split, ToNat;
    PartsSpell(s);
    if Spells(s, p) { SpelledParts(s, p); }
    if Parse(s) == Some(p) {
      ParsedIsWellFormed(s);
      assert p.index.Some? ==> AllDigits(Split(s)[1]) && ToNat(Split(s)[1]) == p.index.value;
      assert p.index.Some? && p.sub.None? ==> s == p.attr + "." + Split(s)[1] + "";
      assert p.index.Some? && p.sub.Some? ==> s == p.attr + "." + Split(s)[1] + ("." + p.sub.value);
      assert p.index.None? && p.sub.Some? ==> s == p.attr + ("." + p.sub.value);
      assert p.index.None? && p.sub.None? ==> s == p.attr + "";
    }
  }

  lemma LoosePathIff(s: string, p: Path)
    ensures LoosePath(s) == Some(p) <==>
      Spells(s, p) && p.attr != "" && (p.index.Some? ==> p.index.value >= 1 && p.sub != Some(""))
  {
    hide Split, ToNat;
    PartsSpell(s);
    if Spells(s, p) { SpelledParts(s, p); }
    if LoosePath(s) == Some(p) {
      assert p.index.Some? ==> AllDigits(Split(s)[1]) && ToNat(Split(s)[1]) == p.index.value;
      assert p.index.Some? && p.sub.None? ==> s == p.attr + "." + Split(s)[1] + "";
      assert p.index.Some? && p.sub.Some? ==> s == p.attr + "." + Split(s)[1] + ("." + p.sub.value);
      assert p.index.None? && p.sub.Some? ==> s == p.attr + ("." + p.sub.value);
      assert p.index.None? && p.sub.None? ==> s == p.attr + "";
    }
  }
}
