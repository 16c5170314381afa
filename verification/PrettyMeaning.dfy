/** Where markup is cut into lines, and how far each line is indented. */
module PrettyMeaning {
  import opened Counting
  import opened Prettify
  import opened Texts
  import opened Wrappers

  // ----- Tags -----

  /** A character of a tag outside quotes, or a quoted text with its quotes. */
  ghost predicate IsPiece(p: string) {
    || (|p| == 1 && p[0] !in {'"', '\'', '>'})
    || (|p| >= 2 && p[0] in {'"', '\''} && p[|p| - 1] == p[0] && p[0] !in p[1..|p| - 1])
  }

  ghost predicate AllPieces(pieces: seq<string>) {
    forall i :: 0 <= i < |pieces| ==> IsPiece(pieces[i])
  }

  /** The first `n` characters are those of a tag with its closing bracket, the first one outside
      quotes. */
  ghost predicate TagIs(s: string, n: nat) {
    n <= |s| && exists pieces :: AllPieces(pieces) && s[..n] == Concat(pieces) + ">"
  }

  lemma {:induction false} QuoteEnds(s: string, q: char, k: nat)
    requires k < |s| && s[k] == q && q !in s[..k]
    ensures var n := TagEnd(s[k + 1..], None);
      TagEnd(s, Some(q)) == if n.None? then None else Some(n.value + k + 1)
  {
    if k > 0 {
      assert s[..k][0] == s[0] && s[..k][1..] == s[1..][..k - 1];
      assert s[1..][k..] == s[k + 1..];
      QuoteEnds(s[1..], q, k - 1);
    }
  }

  lemma {:induction false} QuoteStaysOpen(s: string, q: char)
    requires q !in s
    ensures TagEnd(s, Some(q)).None?
  {
    if s != "" { QuoteStaysOpen(s[1..], q); }
  }

  lemma {:induction false} FirstPosition(s: string, c: char) returns (k: nat)
    requires c in s
    ensures k < |s| && s[k] == c && c !in s[..k]
  {
    if s[0] == c {
      k := 0;
    } else {
      k := FirstPosition(s[1..], c);
      k := k + 1;
      assert s[..k] == [s[0]] + s[1..][..k - 1];
    }
  }

  lemma PieceIsSkipped(p: string, tail: string)
    requires IsPiece(p)
    ensures var n := TagEnd(tail, None);
      TagEnd(p + tail, None) == if n.None? then None else Some(n.value + |p|)
  {
    var s := p + tail;
    var inner := s[1..];
    assert inner == p[1..] + tail;
    if |p| == 1 {
      assert inner == tail;
    } else {
      var k := |p| - 2;
      assert inner[..k] == p[1..|p| - 1] && inner[k + 1..] == tail;
      QuoteEnds(inner, p[0], k);
    }
  }

  /** A tag that is not over begins with a piece. */
  lemma FirstPiece(s: string) returns (k: nat)
    requires TagEnd(s, None).Some? && s[0] != '>'
    ensures 0 < k <= |s| && IsPiece(s[..k])
  {
    var c, tail := s[0], s[1..];
    if c in {'"', '\''} {
      if c !in tail { QuoteStaysOpen(tail, c); }
      k := FirstPosition(tail, c);
      k := k + 2;
      var piece := s[..k];
      assert piece[1..|piece| - 1] == tail[..k - 2] && piece[k - 1] == tail[k - 2];
    } else {
      k := 1;
    }
  }

  lemma {:induction false} PiecesOfTag(s: string) returns (pieces: seq<string>)
    requires TagEnd(s, None).Some?
    ensures TagEnd(s, None).value <= |s| && AllPieces(pieces)
    ensures s[..TagEnd(s, None).value] == Concat(pieces) + ">"
    decreases |s|
  {
    if s[0] == '>' {
      pieces := [];
    } else {
      var k := FirstPiece(s);
      var piece, rest := s[..k], s[k..];
      assert s == piece + rest;
      PieceIsSkipped(piece, rest);
      hide TagEnd, IsPiece;
      var later := PiecesOfTag(rest);
      var n := TagEnd(rest, None).value;
      pieces := [piece] + later;
      assert pieces[1..] == later;
      assert s[..k + n] == piece + rest[..n];
    }
  }

  lemma {:induction false} TagOfPieces(pieces: seq<string>, rest: string)
    requires AllPieces(pieces)
    ensures TagEnd(Concat(pieces) + ">" + rest, None) == Some(|Concat(pieces)| + 1)
  {
    if pieces == [] {
      assert Concat(pieces) + ">" + rest == ">" + rest;
    } else {
      var tail := Concat(pieces[1..]) + ">" + rest;
      TagOfPieces(pieces[1..], rest);
      hide TagEnd, IsPiece;
      PieceIsSkipped(pieces[0], tail);
      assert Concat(pieces) + ">" + rest == pieces[0] + tail;
    }
  }

  /** A tag ends at its first closing bracket outside quotes. */
  lemma TagEndIff(s: string, n: nat)
    ensures TagEnd(s, None) == Some(n) <==> TagIs(s, n)
  {
    if TagEnd(s, None) == Some(n) {
      var pieces := PiecesOfTag(s);
    }
    if TagIs(s, n) {
      var pieces :| AllPieces(pieces) && s[..n] == Concat(pieces) + ">";
      assert s == s[..n] + s[n..];
      TagOfPieces(pieces, s[n..]);
    }
  }

  // ----- Comments, declarations and the like -----

  ghost predicate OccursAt(s: string, pattern: string, k: nat) {
    k + |pattern| <= |s| && s[k..k + |pattern|] == pattern
  }

  lemma OccursInTail(s: string, pattern: string, j: nat)
    requires s != ""
    ensures OccursAt(s, pattern, j + 1) <==> OccursAt(s[1..], pattern, j)
  {
    if j + 1 + |pattern| <= |s| { assert s[j + 1..j + 1 + |pattern|] == s[1..][j..j + |pattern|]; }
  }

  ghost predicate NotBefore(s: string, pattern: string, k: nat) {
    forall j: nat | j < k :: !OccursAt(s, pattern, j)
  }

  lemma NotBeforeInTail(s: string, pattern: string, k: nat)
    requires s != ""
    ensures NotBefore(s, pattern, k + 1) <==> !OccursAt(s, pattern, 0) && NotBefore(s[1..], pattern, k)
  {
    hide OccursAt;
    forall j: nat ensures OccursAt(s, pattern, j + 1) <==> OccursAt(s[1..], pattern, j) { OccursInTail(s, pattern, j); }
    if !OccursAt(s, pattern, 0) && NotBefore(s[1..], pattern, k) {
      forall j: nat | j < k + 1 ensures !OccursAt(s, pattern, j) {
        if j > 0 { assert !OccursAt(s[1..], pattern, j - 1); }
      }
    }
    if NotBefore(s, pattern, k + 1) {
      forall j: nat | j < k ensures !OccursAt(s[1..], pattern, j) { assert !OccursAt(s, pattern, j + 1); }
    }
  }

  /** A search finds the first place where the pattern occurs. */
  lemma {:induction false} IndexOfIff(s: string, pattern: string, k: nat)
    ensures IndexOf(s, pattern) == Some(k) <==> OccursAt(s, pattern, k) && NotBefore(s, pattern, k)
  {
    assert StartsWith(s, pattern) <==> OccursAt(s, pattern, 0);
    hide OccursAt, NotBefore;
    NothingBefore(s, pattern, k);
    if s != "" && k > 0 {
      IndexOfIff(s[1..], pattern, k - 1);
      OccursInTail(s, pattern, k - 1);
      NotBeforeInTail(s, pattern, k - 1);
    }
    if s == "" { NothingInNothing(pattern, k); }
  }

  lemma NothingBefore(s: string, pattern: string, k: nat)
    ensures NotBefore(s, pattern, 0)
    ensures k > 0 && NotBefore(s, pattern, k) ==> !OccursAt(s, pattern, 0)
  {
  }

  lemma NothingInNothing(pattern: string, k: nat)
    ensures OccursAt("", pattern, k) ==> k == 0
  {
  }

  // ----- Chunks -----

  /** Where a comment, a CDATA section or anything else that starts so is to stop. */
  ghost predicate StopsAt(s: string, n: nat) {
    && n <= |s|
    && if OccursAt(s, "<!--", 0) then n >= 7 && FirstFrom(s, 4, "-->", n - 3)
       else if OccursAt(s, "<![CDATA[", 0) then n >= 12 && FirstFrom(s, 9, "]]>", n - 3)
       else if OccursAt(s, "<?", 0) || OccursAt(s, "<!", 0) then n >= 1 && FirstFrom(s, 0, ">", n - 1)
       else TagIs(s, n)
  }

  ghost predicate FirstFrom(s: string, from: nat, pattern: string, k: nat) {
    from <= k && OccursAt(s, pattern, k) && forall j: nat | from <= j < k :: !OccursAt(s, pattern, j)
  }

  lemma AfterIff(s: string, from: nat, pattern: string, n: nat)
    requires from <= |s|
    ensures After(s, from, pattern) == Some(n) <==> n >= |pattern| && FirstFrom(s, from, pattern, n - |pattern|)
  {
    hide IndexOf, OccursAt;
    var tail := s[from..];
    forall j: nat ensures OccursAt(s, pattern, from + j) <==> OccursAt(tail, pattern, j) {
      OccursFrom(s, from, pattern, j);
    }
    if After(s, from, pattern).Some? { IndexOfIff(tail, pattern, IndexOf(tail, pattern).value); }
    if n >= |pattern| && FirstFrom(s, from, pattern, n - |pattern|) {
      var k := n - |pattern| - from;
      assert OccursAt(s, pattern, from + k);
      forall j: nat | j < k ensures !OccursAt(tail, pattern, j) { assert !OccursAt(s, pattern, from + j); }
      IndexOfIff(tail, pattern, k);
    }
    if After(s, from, pattern) == Some(n) {
      var k := n - |pattern| - from;
      forall j: nat | from <= j < from + k ensures !OccursAt(s, pattern, j) {
        assert !OccursAt(tail, pattern, j - from);
        assert OccursAt(s, pattern, from + (j - from)) <==> OccursAt(tail, pattern, j - from);
      }
      assert OccursAt(s, pattern, from + k);
    }
  }

  lemma OccursFrom(s: string, from: nat, pattern: string, j: nat)
    requires from <= |s|
    ensures OccursAt(s, pattern, from + j) <==> OccursAt(s[from..], pattern, j)
  {
    if from + j + |pattern| <= |s| {
      assert s[from + j..from + j + |pattern|] == s[from..][j..j + |pattern|];
    }
  }

  lemma FrontIs(s: string, prefix: string)
    ensures StartsWith(s, prefix) <==> OccursAt(s, prefix, 0)
  {
  }

  /** Everything that begins with `<` stops exactly there. */
  lemma StopIff(s: string, n: nat)
    requires s != "" && s[0] == '<'
    ensures Stop(s) == Some(n) <==> StopsAt(s, n)
  {
    hide After, TagEnd, TagIs, FirstFrom, StartsWith, OccursAt;
    TagEndIff(s, n);
    FrontIs(s, "<!--");
    FrontIs(s, "<![CDATA[");
    FrontIs(s, "<?");
    FrontIs(s, "<!");
    FrontFits(s);
    if StartsWith(s, "<!--") { AfterFrom(s, 4, "-->", n); }
    if StartsWith(s, "<![CDATA[") { AfterFrom(s, 9, "]]>", n); }
    AfterFrom(s, 0, ">", n);
    TagFits(s, n);
  }

  lemma AfterFrom(s: string, from: nat, pattern: string, n: nat)
    requires from <= |s|
    ensures After(s, from, pattern) == Some(n) <==>
      n >= from + |pattern| && n <= |s| && FirstFrom(s, from, pattern, n - |pattern|)
  {
    hide After;
    AfterIff(s, from, pattern, n);
  }

  lemma FrontFits(s: string)
    ensures StartsWith(s, "<!--") ==> |s| >= 4 && IsVerbatim(s)
    ensures StartsWith(s, "<![CDATA[") ==> |s| >= 9 && IsVerbatim(s)
  {
  }

  lemma TagFits(s: string, n: nat)
    ensures TagIs(s, n) ==> n <= |s|
  {
  }

  /** `s`, after blanks, is read as the chunk, followed by `rest`. */
  ghost predicate IsChunk(c: Chunk, s: string, rest: string) {
    match c
    case Text(t) => s == t + rest && Tight(t) && '<' !in t && NextIsMarkup(rest)
    case Markup(t) => s == t + rest && BeginsMarkup(s) && !IsVerbatim(s) && StopsAt(s, |t|)
    case Verbatim(t) =>
      s == t + rest && IsVerbatim(s) && (StopsAt(s, |t|) || (rest == "" && forall n: nat :: !StopsAt(s, n)))
    case Cut(t) =>
      && s == t + rest && BeginsMarkup(s) && !IsVerbatim(s) && (forall n: nat :: !StopsAt(s, n))
      && Blank(rest) && t != "" && !IsBlank(t[|t| - 1])
  }

  ghost predicate BeginsMarkup(s: string) {
    s != "" && s[0] == '<'
  }

  /** Nothing but blanks stands before the next `<`, or before the end. */
  ghost predicate NextIsMarkup(s: string) {
    exists n: nat :: n <= |s| && Blank(s[..n]) && (n == |s| || s[n] == '<')
  }

  /** The chunks of a text, in order, with nothing but blanks around them. */
  ghost predicate ChunkedAs(s: string, cs: seq<Chunk>)
    decreases |cs|
  {
    if cs == [] then Blank(s)
    else exists gap, rest :: Begins(s, gap, cs[0], rest) && ChunkedAs(rest, cs[1..])
  }

  ghost predicate Begins(s: string, gap: string, c: Chunk, rest: string) {
    |gap| <= |s| && s[..|gap|] == gap && Blank(gap) && IsChunk(c, s[|gap|..], rest)
  }

  lemma BlankFirst(w: string, s: string, cs: seq<Chunk>)
    requires Blank(w) && ChunkedAs(s, cs)
    ensures ChunkedAs(w + s, cs)
  {
    hide IsChunk;
    if cs != [] {
      var gap, rest :| Begins(s, gap, cs[0], rest) && ChunkedAs(rest, cs[1..]);
      assert (w + s)[..|w + gap|] == w + gap && (w + s)[|w + gap|..] == s[|gap|..];
      assert Begins(w + s, w + gap, cs[0], rest);
    }
  }

  lemma OneChunk(c: Chunk, s: string, rest: string, cs: seq<Chunk>)
    requires IsChunk(c, s, rest) && ChunkedAs(rest, cs)
    ensures ChunkedAs(s, [c] + cs)
  {
    hide IsChunk;
    var all := [c] + cs;
    assert all[0] == c && all[1..] == cs && s[|""|..] == s && s[..|""|] == "";
    assert Begins(s, "", all[0], rest) && ChunkedAs(rest, all[1..]);
  }

  lemma {:induction false} TrimStartCuts(s: string) returns (w: string)
    ensures Blank(w) && s == w + TrimStart(s)
  {
    if s != "" && IsBlank(s[0]) {
      var tail := TrimStartCuts(s[1..]);
      w := [s[0]] + tail;
    } else {
      w := "";
    }
  }

  lemma TrimCuts(s: string) returns (w: string, v: string)
    ensures Blank(w) && Blank(v) && s == w + Trim(s) + v
  {
    w := TrimStartCuts(s);
    TrimEndFacts(TrimStart(s));
    v := TrimStart(s)[|Trim(s)|..];
  }

  /** What a text is cut into. */
  lemma {:induction false} ChunksAreCut(s: string)
    ensures ChunkedAs(s, Chunks(s))
    decreases |s|, 1
  {
    hide Trim, ChunkedAs, MarkupChunks;
    if s == "" {
      NothingChunked();
    } else if s[0] == '<' {
      MarkupIsCut(s);
    } else {
      TextEndBounds(s);
      var n := TextEnd(s);
      ChunksAreCut(s[n..]);
      TextIsCut(s, n, Chunks(s[n..]));
    }
  }

  lemma NothingChunked()
    ensures ChunkedAs("", [])
  {
  }

  lemma TextIsCut(s: string, n: nat, cs: seq<Chunk>)
    requires n <= |s| && '<' !in s[..n] && (n == |s| || s[n] == '<') && ChunkedAs(s[n..], cs)
    ensures ChunkedAs(s, TextChunk(s[..n]) + cs)
  {
    hide Trim, ChunkedAs;
    var t := s[..n];
    var w, v := TrimCuts(t);
    TrimFacts(t);
    assert s == t + s[n..];
    BlankFirst(v, s[n..], cs);
    if Trim(t) == "" {
      assert t == w + v;
      BlankFirst(t, s[n..], cs);
      assert TextChunk(t) + cs == cs;
    } else {
      TightIsCut(Trim(t), v, s[n..], cs);
      BlankFirst(w, Trim(t) + (v + s[n..]), [Text(Trim(t))] + cs);
      Regroup(w, Trim(t), v, s[n..]);
    }
  }

  lemma Regroup(w: string, t: string, v: string, tail: string)
    ensures w + (t + (v + tail)) == w + t + v + tail
  {
  }

  lemma TightIsCut(t: string, v: string, tail: string, cs: seq<Chunk>)
    requires Tight(t) && '<' !in t && Blank(v) && (tail == "" || tail[0] == '<') && ChunkedAs(v + tail, cs)
    ensures ChunkedAs(t + (v + tail), [Text(t)] + cs)
  {
    hide ChunkedAs;
    var rest := v + tail;
    assert rest[..|v|] == v && (|v| == |rest| || rest[|v|] == '<');
    assert NextIsMarkup(rest);
    OneChunk(Text(t), t + rest, rest, cs);
  }

  lemma MarkupIsCut(s: string)
    requires s != "" && s[0] == '<'
    ensures ChunkedAs(s, MarkupChunks(s))
    decreases |s|, 0
  {
    hide Trim, ChunkedAs, Stop, StopsAt;
    if Stop(s).Some? {
      var n := Stop(s).value;
      StopBounds(s);
      StopIff(s, n);
      ChunksAreCut(s[n..]);
      StopIsLocal(s, "");
      assert s[..n] + "" == s[..n];
      assert s == s[..n] + s[n..];
      OneChunk(Segment(s[..n]), s, s[n..], Chunks(s[n..]));
    } else {
      forall n: nat ensures !StopsAt(s, n) { StopIff(s, n); }
      NothingChunked();
      if IsVerbatim(s) {
        OneChunk(Verbatim(s), s, "", []);
        assert [Verbatim(s)] + [] == [Verbatim(s)];
      } else {
        CutIsCut(s);
      }
    }
  }

  lemma CutIsCut(s: string)
    requires BeginsMarkup(s) && !IsVerbatim(s) && forall n: nat :: !StopsAt(s, n)
    ensures ChunkedAs(s, [Cut(Trim(s))])
  {
    hide StopsAt;
    TrimStartFacts(s);
    TrimEndFacts(s);
    var t := Trim(s);
    var rest := s[|t|..];
    assert s == t + rest;
    assert ChunkedAs(rest, []);
    OneChunk(Cut(t), s, rest, []);
    assert [Cut(t)] + [] == [Cut(t)];
  }

  // ----- Lines -----

  function Repeated(indent: string, n: nat): string {
    Concat(seq(n, _ => indent))
  }

  lemma {:induction false} PadRepeats(indent: string, depth: nat)
    ensures Pad(indent, depth) == Repeated(indent, depth)
  {
    if depth > 0 {
      PadRepeats(indent, depth - 1);
      assert seq(depth, _ => indent)[1..] == seq(depth - 1, _ => indent);
    }
  }

  ghost predicate Closes(c: Chunk) {
    c.Markup? && exists rest :: c.text == "</" + rest
  }

  ghost predicate ClosedByItself(c: Chunk) {
    exists front, blanks :: Blank(blanks) && c.text == front + "/>" + blanks
  }

  ghost predicate Opens(c: Chunk) {
    c.Markup? && !Closes(c) && !ClosedByItself(c)
  }

  lemma ClosesIff(c: Chunk)
    requires c.Markup?
    ensures StartsWith(c.text, "</") <==> Closes(c)
  {
    if StartsWith(c.text, "</") { assert c.text == "</" + c.text[2..]; }
    if rest :| c.text == "</" + rest { assert c.text[..2] == "</"; }
  }

  lemma ClosedByItselfIff(c: Chunk)
    ensures EndsWith(TrimEnd(c.text), "/>") <==> ClosedByItself(c)
  {
    hide TrimEnd, EndsWith;
    if EndsWith(TrimEnd(c.text), "/>") { EndIsFound(c.text); }
    forall front, blanks | Blank(blanks) && c.text == front + "/>" + blanks ensures EndsWith(TrimEnd(c.text), "/>") {
      FoundIsEnd(front, blanks);
    }
  }

  lemma EndIsFound(s: string)
    requires EndsWith(TrimEnd(s), "/>")
    ensures exists front, blanks :: Blank(blanks) && s == front + "/>" + blanks
  {
    hide TrimEnd, Blank;
    var t := TrimEnd(s);
    TrimEndFacts(s);
    var front, blanks := t[..|t| - 2], s[|t|..];
    assert s == t + blanks && t == front + "/>";
  }

  lemma FoundIsEnd(front: string, blanks: string)
    requires Blank(blanks)
    ensures EndsWith(TrimEnd(front + "/>" + blanks), "/>")
  {
    hide TrimEnd;
    var t := front + "/>";
    TrimEndSkips(t, blanks);
    TrimEndFacts(t);
    assert t[|t| - 1] == '>' && !IsBlank('>') && t[|t| - 2..] == "/>";
  }

  lemma StepIs(c: Chunk)
    ensures Step(c) == if Opens(c) then 1 else if Closes(c) then -1 else 0
  {
    hide TrimEnd, EndsWith, StartsWith, Closes, ClosedByItself;
    if c.Markup? {
      ClosesIff(c);
      ClosedByItselfIff(c);
    } else {
      OnlyTagsClose(c);
    }
  }

  lemma OnlyTagsClose(c: Chunk)
    requires !c.Markup?
    ensures !Closes(c)
  {
  }

  ghost function Opened(cs: seq<Chunk>, i: nat): set<nat>
    requires i <= |cs|
  {
    set j: nat | j < i && Opens(cs[j])
  }

  ghost function Closed(cs: seq<Chunk>, i: nat): set<nat>
    requires i <= |cs|
  {
    set j: nat | j < i && Closes(cs[j])
  }

  lemma OneMoreTag(cs: seq<Chunk>, i: nat)
    requires i < |cs|
    ensures |Opened(cs, i + 1)| == |Opened(cs, i)| + if Opens(cs[i]) then 1 else 0
    ensures |Closed(cs, i + 1)| == |Closed(cs, i)| + if Closes(cs[i]) then 1 else 0
  {
    OneMoreOpened(cs, i);
    OneMoreClosed(cs, i);
  }

  lemma OneMoreOpened(cs: seq<Chunk>, i: nat)
    requires i < |cs|
    ensures |Opened(cs, i + 1)| == |Opened(cs, i)| + if Opens(cs[i]) then 1 else 0
  {
    hide Opens;
    OneMoreCounted(Opened(cs, i), Opened(cs, i + 1), i, Opens(cs[i]));
  }

  lemma OneMoreClosed(cs: seq<Chunk>, i: nat)
    requires i < |cs|
    ensures |Closed(cs, i + 1)| == |Closed(cs, i)| + if Closes(cs[i]) then 1 else 0
  {
    hide Closes;
    OneMoreCounted(Closed(cs, i), Closed(cs, i + 1), i, Closes(cs[i]));
  }

  lemma {:induction false} NetIs(cs: seq<Chunk>, i: nat)
    requires i <= |cs|
    ensures Net(cs[..i]) == |Opened(cs, i)| - |Closed(cs, i)|
  {
    hide Opens, Closes, Step;
    if i > 0 {
      NetIs(cs, i - 1);
      OneMoreTag(cs, i - 1);
      assert cs[..i][..i - 1] == cs[..i - 1];
      StepIs(cs[i - 1]);
      NotBoth(cs[i - 1]);
    }
  }

  lemma NotBoth(c: Chunk)
    ensures !(Opens(c) && Closes(c))
  {
  }

  /** Every chunk has its line: the indent as many times as tags are open before it, one less for a
      closing tag, and then its text. */
  lemma LinesAreIndented(xml: string, indent: string, i: nat)
    requires i < |Chunks(xml)|
    ensures |Lines(Chunks(xml), indent, 0)| == |Chunks(xml)|
    ensures
      var cs := Chunks(xml);
      var depth := |Opened(cs, i)| - |Closed(cs, i)| - if Closes(cs[i]) then 1 else 0;
      Lines(cs, indent, 0)[i] == Repeated(indent, if depth < 0 then 0 else depth) + cs[i].text
  {
    hide Chunks, Lines, Opens, Closes, Step, Net;
    var cs := Chunks(xml);
    LineAt(cs, indent, 0, i);
    NetIs(cs, i);
    StepIs(cs[i]);
    NotBoth(cs[i]);
    var depth := PrintDepth(cs[i], Net(cs[..i]));
    NoPad(indent, depth);
    PadRepeats(indent, if depth < 0 then 0 else depth);
  }

  lemma NoPad(indent: string, depth: int)
    ensures depth <= 0 ==> Pad(indent, depth) == Pad(indent, 0) == ""
  {
  }

  /** Lines are put together with one line end between two of them and none after the last. */
  lemma {:induction false} JoinedAtEnd(lines: seq<string>, line: string)
    ensures Join(lines + [line]) == if lines == [] then line else Join(lines) + "\n" + line
  {
    if lines != [] {
      assert (lines + [line])[1..] == lines[1..] + [line];
      JoinedAtEnd(lines[1..], line);
    }
  }
}
