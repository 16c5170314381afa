/** Laying out markup for display: one line per text, comment, declaration or tag. Works on any
    string, well formed or not. */
module Prettify {
  import opened Texts
  import opened Wrappers

  // ----- Strings -----

  /** What JavaScript's `trim` removes. */
  predicate IsBlank(c: char) {
    var n := c as int;
    9 <= n <= 13 || n == 32 || n == 0xA0 || n == 0x1680 || 0x2000 <= n <= 0x200A
    || n == 0x2028 || n == 0x2029 || n == 0x202F || n == 0x205F || n == 0x3000 || n == 0xFEFF
  }

  predicate Blank(s: string) {
    forall i :: 0 <= i < |s| ==> IsBlank(s[i])
  }

  function TrimStart(s: string): string {
    if s != "" && IsBlank(s[0]) then TrimStart(s[1..]) else s
  }

  function TrimEnd(s: string): string {
    if s != "" && IsBlank(s[|s| - 1]) then TrimEnd(s[..|s| - 1]) else s
  }

  function Trim(s: string): string {
    TrimEnd(TrimStart(s))
  }

  /** Nothing to trim, and not empty. */
  predicate Tight(s: string) {
    s != "" && !IsBlank(s[0]) && !IsBlank(s[|s| - 1])
  }

  function IndexOf(s: string, pattern: string): Option<nat> {
    if StartsWith(s, pattern) then Some(0)
    else if s == "" then None
    else
      var k := IndexOf(s[1..], pattern);
      if k.None? then None else Some(k.value + 1)
  }

  /** The position after the first `pattern` at or after `from`. */
  function After(s: string, from: nat, pattern: string): Option<nat>
    requires from <= |s|
  {
    var k := IndexOf(s[from..], pattern);
    if k.None? then None else Some(from + k.value + |pattern|)
  }

  lemma {:induction false} IndexOfBounds(s: string, pattern: string)
    ensures IndexOf(s, pattern).Some? ==>
      IndexOf(s, pattern).value + |pattern| <= |s| && StartsWith(s[IndexOf(s, pattern).value..], pattern)
  {
    if !StartsWith(s, pattern) && s != "" { IndexOfBounds(s[1..], pattern); }
  }

  /** Finding a pattern does not depend on what follows it. */
  lemma {:induction false} IndexOfIsLocal(s: string, pattern: string, x: string)
    requires IndexOf(s, pattern).Some?
    ensures IndexOf(s, pattern).value + |pattern| <= |s|
    ensures IndexOf(s[..IndexOf(s, pattern).value + |pattern|] + x, pattern) == IndexOf(s, pattern)
  {
    IndexOfBounds(s, pattern);
    var n := IndexOf(s, pattern).value + |pattern|;
    var cut := s[..n] + x;
    assert cut[..|pattern|] == s[..|pattern|];
    if !StartsWith(s, pattern) {
      IndexOfIsLocal(s[1..], pattern, x);
      assert cut[1..] == s[1..][..n - 1] + x;
    }
  }

  lemma AfterIsLocal(s: string, from: nat, pattern: string, x: string)
    requires from <= |s| && After(s, from, pattern).Some?
    ensures from + |pattern| <= After(s, from, pattern).value <= |s|
    ensures After(s[..After(s, from, pattern).value] + x, from, pattern) == After(s, from, pattern)
    ensures s[..After(s, from, pattern).value][After(s, from, pattern).value - |pattern|..] == pattern
  {
    var n := After(s, from, pattern).value;
    IndexOfBounds(s[from..], pattern);
    IndexOfIsLocal(s[from..], pattern, x);
    assert (s[..n] + x)[from..] == s[from..][..n - from] + x;
    assert s[from..][n - from - |pattern|..][..|pattern|] == s[..n][n - |pattern|..];
  }

  // ----- Trimming -----

  lemma {:induction false} TrimStartSkips(w: string, s: string)
    requires Blank(w)
    ensures TrimStart(w + s) == TrimStart(s)
  {
    if w == "" {
      assert w + s == s;
    } else {
      assert (w + s)[1..] == w[1..] + s;
      TrimStartSkips(w[1..], s);
    }
  }

  lemma {:induction false} TrimEndSkips(s: string, w: string)
    requires Blank(w)
    ensures TrimEnd(s + w) == TrimEnd(s)
  {
    if w == "" {
      assert s + w == s;
    } else {
      assert (s + w)[..|s + w| - 1] == s + w[..|w| - 1];
      TrimEndSkips(s, w[..|w| - 1]);
    }
  }

  lemma {:induction false} TrimStartFacts(s: string)
    ensures TrimStart(s) != "" ==> !IsBlank(TrimStart(s)[0])
    ensures forall c :: c in TrimStart(s) ==> c in s
    ensures s != "" && !IsBlank(s[0]) ==> TrimStart(s) == s
  {
    if s != "" && IsBlank(s[0]) { TrimStartFacts(s[1..]); }
  }

  lemma {:induction false} TrimEndFacts(s: string)
    ensures StartsWith(s, TrimEnd(s)) && Blank(s[|TrimEnd(s)|..])
    ensures TrimEnd(s) != "" ==> !IsBlank(TrimEnd(s)[|TrimEnd(s)| - 1])
    ensures s != "" && !IsBlank(s[|s| - 1]) ==> TrimEnd(s) == s
    ensures s != "" && !IsBlank(s[0]) ==> TrimEnd(s) != ""
  {
    if s != "" && IsBlank(s[|s| - 1]) {
      var rest, n := s[..|s| - 1], |TrimEnd(s)|;
      TrimEndFacts(rest);
      assert s[n..] == rest[n..] + [s[|s| - 1]];
    }
  }

  lemma TrimFacts(s: string)
    ensures Trim(s) != "" ==> Tight(Trim(s))
    ensures forall c :: c in Trim(s) ==> c in s
    ensures Tight(s) ==> Trim(s) == s
  {
    TrimStartFacts(s);
    TrimEndFacts(TrimStart(s));
    var t := TrimStart(s);
    forall c | c in Trim(s) ensures c in s { assert c in t[..|Trim(s)|]; }
  }

  /** Spaces on either side do not change what is left. */
  lemma TrimSkips(w: string, s: string, v: string)
    requires Blank(w) && Blank(v)
    ensures Trim(w + s) == Trim(s)
    ensures Tight(s) ==> Trim(s + v) == s
  {
    TrimStartSkips(w, s);
    if Tight(s) {
      TrimStartFacts(s + v);
      TrimEndSkips(s, v);
      TrimEndFacts(s);
    }
  }

  // ----- Chunks -----

  /** What one output line holds. `Cut` is a tag that never ends. */
  datatype Chunk = Text(text: string) | Verbatim(text: string) | Markup(text: string) | Cut(text: string)

  predicate IsVerbatim(s: string) {
    StartsWith(s, "<?") || StartsWith(s, "<!")
  }

  /** Where a comment, CDATA section, declaration or processing instruction stops. */
  function VerbatimEnd(s: string): Option<nat>
    requires IsVerbatim(s)
  {
    if StartsWith(s, "<!--") then After(s, 4, "-->")
    else if StartsWith(s, "<![CDATA[") then After(s, 9, "]]>")
    else After(s, 0, ">")
  }

  /** The open quote, if any, after one more character inside a tag. */
  function Advance(quote: Option<char>, c: char): Option<char> {
    if quote.Some? then (if c == quote.value then None else quote)
    else if c == '"' || c == '\'' then Some(c)
    else None
  }

  /** `findTagEnd`: the position after the first `>` outside quotes. */
  function TagEnd(s: string, quote: Option<char>): Option<nat> {
    if s == "" then None
    else
      var c := s[0];
      if quote.None? && c == '>' then Some(1)
      else
        var next := Advance(quote, c);
        var n := TagEnd(s[1..], next);
        if n.None? then None else Some(n.value + 1)
  }

  function Stop(s: string): Option<nat>
    requires s != "" && s[0] == '<'
  {
    if IsVerbatim(s) then VerbatimEnd(s) else TagEnd(s, None)
  }

  /** The next `<`, or the end. */
  function TextEnd(s: string): nat {
    if s == "" || s[0] == '<' then 0 else 1 + TextEnd(s[1..])
  }

  function TextChunk(s: string): seq<Chunk> {
    if Trim(s) == "" then [] else [Text(Trim(s))]
  }

  lemma {:induction false} TextEndBounds(s: string)
    ensures TextEnd(s) <= |s| && '<' !in s[..TextEnd(s)]
    ensures TextEnd(s) < |s| ==> s[TextEnd(s)] == '<'
  {
    if s != "" && s[0] != '<' {
      TextEndBounds(s[1..]);
      var n := TextEnd(s);
      assert s[..n] == [s[0]] + s[1..][..n - 1];
    }
  }

  lemma {:induction false} TagEndIsLocal(s: string, quote: Option<char>, x: string)
    requires TagEnd(s, quote).Some?
    ensures 1 <= TagEnd(s, quote).value <= |s|
    ensures s[TagEnd(s, quote).value - 1] == '>'
    ensures TagEnd(s[..TagEnd(s, quote).value] + x, quote) == TagEnd(s, quote)
  {
    var c := s[0];
    if !(quote.None? && c == '>') {
      var next := Advance(quote, c);
      TagEndIsLocal(s[1..], next, x);
      var n := TagEnd(s, quote).value;
      assert (s[..n] + x)[1..] == s[1..][..n - 1] + x;
    }
  }

  lemma {:induction false} CutStaysCut(s: string, quote: Option<char>, n: nat)
    requires TagEnd(s, quote).None? && n <= |s|
    ensures TagEnd(s[..n], quote).None?
  {
    if n > 0 {
      var c := s[0];
      var next := Advance(quote, c);
      CutStaysCut(s[1..], next, n - 1);
      assert s[..n][1..] == s[1..][..n - 1];
    }
  }

  /** A prefix without `>` is decided within a segment that ends in `>`. */
  lemma PrefixIsLocal(s: string, n: nat, x: string, prefix: string)
    requires 0 < n <= |s| && s[n - 1] == '>' && '>' !in prefix
    ensures StartsWith(s[..n] + x, prefix) <==> StartsWith(s, prefix)
  {
    var cut := s[..n] + x;
    if n < |prefix| {
      assert prefix[n - 1] != '>';
      if |prefix| <= |cut| { assert cut[..|prefix|][n - 1] == '>'; }
      if |prefix| <= |s| { assert s[..|prefix|][n - 1] == '>'; }
    } else {
      assert cut[..|prefix|] == s[..|prefix|];
    }
  }

  lemma AfterEndsWell(s: string, x: string)
    requires IsVerbatim(s) && VerbatimEnd(s).Some?
    ensures 0 < VerbatimEnd(s).value <= |s| && s[VerbatimEnd(s).value - 1] == '>'
    ensures
      var cut := s[..VerbatimEnd(s).value] + x;
      if StartsWith(s, "<!--") then |cut| >= 4 && After(cut, 4, "-->") == VerbatimEnd(s)
      else if StartsWith(s, "<![CDATA[") then |cut| >= 9 && After(cut, 9, "]]>") == VerbatimEnd(s)
      else After(cut, 0, ">") == VerbatimEnd(s)
  {
    hide After;
    var n := VerbatimEnd(s).value;
    if StartsWith(s, "<!--") {
      AfterIsLocal(s, 4, "-->", x);
      assert s[..n][n - 3..][2] == s[n - 1];
    } else if StartsWith(s, "<![CDATA[") {
      AfterIsLocal(s, 9, "]]>", x);
      assert s[..n][n - 3..][2] == s[n - 1];
    } else {
      AfterIsLocal(s, 0, ">", x);
      assert s[..n][n - 1..][0] == s[n - 1];
    }
  }

  lemma VerbatimEndIsLocal(s: string, x: string)
    requires IsVerbatim(s) && VerbatimEnd(s).Some?
    ensures 0 < VerbatimEnd(s).value <= |s| && s[VerbatimEnd(s).value - 1] == '>'
    ensures IsVerbatim(s[..VerbatimEnd(s).value] + x)
    ensures VerbatimEnd(s[..VerbatimEnd(s).value] + x) == VerbatimEnd(s)
  {
    hide After, StartsWith;
    AfterEndsWell(s, x);
    var n := VerbatimEnd(s).value;
    NoEndInPrefix();
    PrefixIsLocal(s, n, x, "<!--");
    PrefixIsLocal(s, n, x, "<![CDATA[");
    PrefixIsLocal(s, n, x, "<?");
    PrefixIsLocal(s, n, x, "<!");
    assert IsVerbatim(s[..n] + x);
  }

  lemma NoEndInPrefix()
    ensures '>' !in "<!--" && '>' !in "<![CDATA[" && '>' !in "<?" && '>' !in "<!"
  {
  }

  /** A segment stops at the same place whatever follows it. */
  lemma StopIsLocal(s: string, x: string)
    requires s != "" && s[0] == '<' && Stop(s).Some?
    ensures 0 < Stop(s).value <= |s|
    ensures IsVerbatim(s[..Stop(s).value] + x) == IsVerbatim(s)
    ensures Stop(s[..Stop(s).value] + x) == Stop(s)
  {
    if IsVerbatim(s) {
      VerbatimEndIsLocal(s, x);
    } else {
      TagEndIsLocal(s, None, x);
      PrefixIsLocal(s, Stop(s).value, x, "<?");
      PrefixIsLocal(s, Stop(s).value, x, "<!");
    }
  }

  lemma StopBounds(s: string)
    requires s != "" && s[0] == '<' && Stop(s).Some?
    ensures 0 < Stop(s).value <= |s|
  {
    StopIsLocal(s, "");
  }

  function Segment(s: string): Chunk {
    if IsVerbatim(s) then Verbatim(s) else Markup(s)
  }

  function Chunks(s: string): seq<Chunk>
    decreases |s|, 1
  {
    if s == "" then []
    else if s[0] == '<' then MarkupChunks(s)
    else
      TextEndBounds(s);
      TextChunk(s[..TextEnd(s)]) + Chunks(s[TextEnd(s)..])
  }

  function MarkupChunks(s: string): seq<Chunk>
    requires s != "" && s[0] == '<'
    decreases |s|, 0
  {
    if Stop(s).Some? then
      StopBounds(s);
      [Segment(s[..Stop(s).value])] + Chunks(s[Stop(s).value..])
    else if IsVerbatim(s) then [Verbatim(s)]
    else [Cut(Trim(s))]
  }

  // ----- Lines -----

  function Step(c: Chunk): int {
    if !c.Markup? then 0
    else if StartsWith(c.text, "</") then -1
    else if EndsWith(TrimEnd(c.text), "/>") then 0
    else 1
  }

  function Pad(indent: string, depth: int): string {
    if depth <= 0 then "" else indent + Pad(indent, depth - 1)
  }

  /** A closing tag is printed one level out, everything else where it is. */
  function PrintDepth(c: Chunk, depth: int): int {
    if Step(c) < 0 then depth - 1 else depth
  }

  function Lines(cs: seq<Chunk>, indent: string, depth: int): seq<string> {
    if cs == [] then []
    else [Pad(indent, PrintDepth(cs[0], depth)) + cs[0].text] + Lines(cs[1..], indent, depth + Step(cs[0]))
  }

  function Join(lines: seq<string>): string {
    if lines == [] then ""
    else if |lines| == 1 then lines[0]
    else lines[0] + "\n" + Join(lines[1..])
  }

  function Pretty(xml: string, indent: string): string {
    Join(Lines(Chunks(xml), indent, 0))
  }

  // ----- Reading back what was printed -----

  lemma TrimOfBlank(w: string)
    requires Blank(w)
    ensures Trim(w) == ""
  {
    TrimStartSkips(w, "");
    assert w + "" == w;
  }

  lemma {:induction false} TextEndSkips(w: string, s: string)
    requires '<' !in w
    ensures TextEnd(w + s) == |w| + TextEnd(s)
  {
    if w == "" {
      assert w + s == s;
    } else {
      assert (w + s)[1..] == w[1..] + s;
      TextEndSkips(w[1..], s);
    }
  }

  lemma BlankHasNoMarkup(w: string)
    requires Blank(w)
    ensures '<' !in w
  {
  }

  lemma ChunksAtText(s: string)
    ensures TextEnd(s) <= |s| && Chunks(s) == TextChunk(s[..TextEnd(s)]) + Chunks(s[TextEnd(s)..])
  {
    hide Trim, MarkupChunks;
    TextEndBounds(s);
    if TextEnd(s) == 0 {
      TrimOfBlank(s[..0]);
      assert s[0..] == s;
      assert TextChunk(s[..0]) + Chunks(s) == Chunks(s);
    }
  }

  /** Leading blanks never change what is read. */
  lemma ChunksSkipBlanks(w: string, s: string)
    requires Blank(w)
    ensures Chunks(w + s) == Chunks(s)
  {
    hide Trim, Chunks, TextEnd;
    var n := TextEnd(s);
    ChunksAtText(s);
    ChunksAtText(w + s);
    BlankHasNoMarkup(w);
    TextEndSkips(w, s);
    assert (w + s)[..|w| + n] == w + s[..n];
    assert (w + s)[|w| + n..] == s[n..];
    TrimSkips(w, s[..n], "");
  }

  /** A text up to the next markup is read as one chunk, whatever blanks follow it. */
  lemma ChunksOfText(t: string, w: string, s: string)
    requires Tight(t) && '<' !in t && Blank(w) && (s == "" || s[0] == '<')
    ensures Chunks(t + w + s) == [Text(t)] + Chunks(s)
  {
    hide Trim, Tight, MarkupChunks;
    BlankHasNoMarkup(w);
    TightIsNotEmpty(t);
    TextEndSkips(t + w, s);
    var n := |t + w|;
    var whole := t + w + s;
    assert whole[..n] == t + w && whole[n..] == s;
    TrimSkips("", t, w);
    assert whole != "" && whole[0] == t[0] && t[0] in t;
  }

  lemma TightIsNotEmpty(t: string)
    requires Tight(t)
    ensures t != "" && !IsBlank(t[0])
  {
  }

  /** A complete segment. */
  predicate Complete(c: Chunk) {
    && (c.Verbatim? || c.Markup?)
    && c.text != "" && c.text[0] == '<'
    && Stop(c.text) == Some(|c.text|) && Segment(c.text) == c
  }

  lemma SegmentIsComplete(s: string)
    requires s != "" && s[0] == '<' && Stop(s).Some?
    ensures 0 < Stop(s).value <= |s| && Complete(Segment(s[..Stop(s).value]))
  {
    StopIsLocal(s, "");
    var n := Stop(s).value;
    assert s[..n] + "" == s[..n];
    assert s[..n][0] == '<';
  }

  lemma ChunksOfSegment(c: Chunk, s: string)
    requires Complete(c)
    ensures Chunks(c.text + s) == [c] + Chunks(s)
  {
    hide Stop;
    StopIsLocal(c.text, s);
    var whole, n := c.text + s, |c.text|;
    assert c.text[..n] == c.text;
    assert whole[..n] == c.text && whole[n..] == s;
    assert whole[0] == '<';
    assert Chunks(whole) == MarkupChunks(whole);
  }

  /** A chunk that runs to the end of the input. */
  predicate Unfinished(c: Chunk) {
    && (c.Verbatim? || c.Cut?)
    && c.text != "" && c.text[0] == '<' && Stop(c.text).None?
    && (c.Verbatim? <==> IsVerbatim(c.text)) && (c.Cut? ==> Tight(c.text))
  }

  lemma ChunksOfUnfinished(c: Chunk)
    requires Unfinished(c)
    ensures Chunks(c.text) == [c]
  {
    hide Stop;
    TrimFacts(c.text);
  }

  /** What reading yields: texts apart from one another, and nothing after an unfinished chunk. */
  ghost predicate Readable(cs: seq<Chunk>) {
    cs == [] ||
    (Readable(cs[1..]) &&
     ((cs[0].Text? && Tight(cs[0].text) && '<' !in cs[0].text && (cs[1..] == [] || !cs[1].Text?))
      || Complete(cs[0]) || (Unfinished(cs[0]) && cs[1..] == [])))
  }

  lemma CutIsUnfinished(s: string)
    requires s != "" && s[0] == '<' && Stop(s).None? && !IsVerbatim(s)
    ensures Unfinished(Cut(Trim(s)))
  {
    hide TagEnd;
    TrimStartFacts(s);
    TrimEndFacts(s);
    TrimFacts(s);
    var t := Trim(s);
    assert t == s[..|t|];
    CutStaysCut(s, None, |t|);
    assert !IsVerbatim(t) by {
      if |t| >= 2 { assert t[..2] == s[..2]; }
    }
  }

  lemma VerbatimIsUnfinished(s: string)
    requires s != "" && s[0] == '<' && Stop(s).None? && IsVerbatim(s)
    ensures Unfinished(Verbatim(s))
  {
  }

  lemma {:induction false} ChunksAreReadable(s: string)
    ensures Readable(Chunks(s))
    ensures s != "" && s[0] == '<' ==> Chunks(s) != [] && !Chunks(s)[0].Text?
    decreases |s|
  {
    hide Trim, Complete, Unfinished, Tight, Stop;
    if s == "" {
    } else if s[0] == '<' {
      if Stop(s).Some? {
        SegmentIsComplete(s);
        var n := Stop(s).value;
        ChunksAreReadable(s[n..]);
        assert Chunks(s) == [Segment(s[..n])] + Chunks(s[n..]);
        assert Chunks(s)[1..] == Chunks(s[n..]);
      } else if IsVerbatim(s) {
        VerbatimIsUnfinished(s);
        assert Readable([]);
      } else {
        CutIsUnfinished(s);
        assert Readable([]);
      }
    } else {
      var n := TextEnd(s);
      TextEndBounds(s);
      ChunksAreReadable(s[n..]);
      TrimFacts(s[..n]);
      if Trim(s[..n]) == "" {
        assert Chunks(s) == [] + Chunks(s[n..]) == Chunks(s[n..]);
      } else {
        assert Chunks(s)[1..] == Chunks(s[n..]);
      }
    }
  }

  lemma {:induction false} PadIsBlank(indent: string, depth: int)
    requires Blank(indent)
    ensures Blank(Pad(indent, depth))
  {
    if depth > 0 { PadIsBlank(indent, depth - 1); }
  }

  lemma JoinMore(line: string, lines: seq<string>)
    ensures Join([line] + lines) == line + (if lines == [] then "" else "\n" + Join(lines))
  {
    assert ([line] + lines)[1..] == lines;
    if lines == [] { assert line + "" == line; }
  }

  /** The output after a line break and the padding of the next line. */
  lemma NextLine(cs: seq<Chunk>, indent: string, depth: int) returns (w: string, rest: string)
    requires cs != [] && Blank(indent)
    ensures Blank(w) && Join(Lines(cs, indent, depth)) == w + rest
    ensures cs[0].text != "" ==> rest != "" && rest[0] == cs[0].text[0]
  {
    w := Pad(indent, PrintDepth(cs[0], depth));
    PadIsBlank(indent, PrintDepth(cs[0], depth));
    var tail := Lines(cs[1..], indent, depth + Step(cs[0]));
    JoinMore(w + cs[0].text, tail);
    rest := cs[0].text + (if tail == [] then "" else "\n" + Join(tail));
    assert Join(Lines(cs, indent, depth)) == w + rest;
  }

  lemma {:induction false} ReadableStarts(cs: seq<Chunk>)
    requires Readable(cs) && cs != [] && !cs[0].Text?
    ensures cs[0].text != "" && cs[0].text[0] == '<'
  {
  }

  /** What follows the first chunk in the output. */
  function Rest(cs: seq<Chunk>, indent: string, depth: int): string
    requires cs != []
  {
    if cs[1..] == [] then "" else "\n" + Join(Lines(cs[1..], indent, depth + Step(cs[0])))
  }

  lemma LinesFirst(cs: seq<Chunk>, indent: string, depth: int)
    requires cs != []
    ensures Lines(cs, indent, depth) ==
      [Pad(indent, PrintDepth(cs[0], depth)) + cs[0].text] + Lines(cs[1..], indent, depth + Step(cs[0]))
  {
  }

  lemma RestIs(cs: seq<Chunk>, indent: string, depth: int)
    requires cs != []
    ensures
      var tail := Lines(cs[1..], indent, depth + Step(cs[0]));
      Rest(cs, indent, depth) == if tail == [] then "" else "\n" + Join(tail)
  {
    hide Step, Lines, Join;
    LinesLength(cs[1..], indent, depth + Step(cs[0]));
  }

  lemma PrintsFirst(cs: seq<Chunk>, indent: string, depth: int)
    requires cs != [] && Blank(indent)
    ensures Chunks(Join(Lines(cs, indent, depth))) == Chunks(cs[0].text + Rest(cs, indent, depth))
  {
    hide Chunks, Step, Blank, Lines, Join, Pad, PrintDepth, Rest;
    var pad, tail := Pad(indent, PrintDepth(cs[0], depth)), Lines(cs[1..], indent, depth + Step(cs[0]));
    PadIsBlank(indent, PrintDepth(cs[0], depth));
    LinesFirst(cs, indent, depth);
    RestIs(cs, indent, depth);
    JoinMore(pad + cs[0].text, tail);
    Regroup(pad, cs[0].text, Rest(cs, indent, depth));
    ChunksSkipBlanks(pad, cs[0].text + Rest(cs, indent, depth));
  }

  lemma Regroup(a: string, b: string, c: string)
    ensures a + b + c == a + (b + c)
  {
  }

  lemma FirstTextReads(cs: seq<Chunk>, indent: string, depth: int)
    requires cs != [] && Blank(indent) && Readable(cs) && cs[0].Text?
    ensures Chunks(cs[0].text + Rest(cs, indent, depth)) == [cs[0]] + Chunks(Rest(cs, indent, depth))
  {
    hide Complete, Unfinished, Tight, Chunks, Step, Lines, Join, Blank;
    var c, after := cs[0], Rest(cs, indent, depth);
    TextIsUnfinishedNever(c);
    if cs[1..] == [] {
      BlankLine();
      ChunksOfText(c.text, "", "");
      assert c.text + "" + "" == c.text + after;
    } else {
      var w, rest := NextLine(cs[1..], indent, depth + Step(c));
      ReadableStarts(cs[1..]);
      BlankJoins(w);
      ChunksSkipBlanks("\n" + w, rest);
      assert after == "\n" + w + rest;
      ChunksOfText(c.text, "\n" + w, rest);
      assert c.text + ("\n" + w) + rest == c.text + after;
    }
  }

  lemma BlankLine()
    ensures Blank("") && Blank("\n")
  {
  }

  lemma BlankJoins(w: string)
    requires Blank(w)
    ensures Blank("\n" + w)
  {
  }

  /** Reading what was printed yields the chunks that were printed. */
  lemma {:induction false} ReadsWhatItPrints(cs: seq<Chunk>, indent: string, depth: int)
    requires Readable(cs) && Blank(indent)
    ensures Chunks(Join(Lines(cs, indent, depth))) == cs
  {
    hide Complete, Unfinished, Tight, Chunks, Step, Lines, Join, Blank;
    if cs == [] {
      NothingToRead(indent, depth);
    } else {
      var c, after := cs[0], Rest(cs, indent, depth);
      ReadsWhatItPrints(cs[1..], indent, depth + Step(c));
      PrintsFirst(cs, indent, depth);
      BlankLine();
      NothingToRead(indent, depth);
      ChunksSkipBlanks("\n", Join(Lines(cs[1..], indent, depth + Step(c))));
      if Complete(c) {
        ChunksOfSegment(c, after);
      } else if c.Text? {
        FirstTextReads(cs, indent, depth);
      } else {
        assert c.text + after == c.text;
        ChunksOfUnfinished(c);
      }
    }
  }

  lemma TextIsUnfinishedNever(c: Chunk)
    ensures c.Text? ==> !Unfinished(c) && !Complete(c)
  {
  }

  lemma NothingToRead(indent: string, depth: int)
    ensures Chunks("") == [] && Join(Lines([], indent, depth)) == ""
  {
  }

  /** Pretty printing changes nothing but the blanks around texts: what it prints reads as the
      same chunks. */
  lemma PrettyKeepsChunks(xml: string, indent: string)
    requires Blank(indent)
    ensures Chunks(Pretty(xml, indent)) == Chunks(xml)
  {
    ChunksAreReadable(xml);
    ReadsWhatItPrints(Chunks(xml), indent, 0);
  }

  /** Pretty printing twice, with the same or another indent, is pretty printing once. */
  lemma PrettyIsIdempotent(xml: string, indent: string, other: string)
    requires Blank(indent)
    ensures Pretty(Pretty(xml, indent), other) == Pretty(xml, other)
  {
    PrettyKeepsChunks(xml, indent);
  }

  // ----- Indentation -----

  function Net(cs: seq<Chunk>): int {
    if cs == [] then 0 else Net(cs[..|cs| - 1]) + Step(cs[|cs| - 1])
  }

  /** Every tag opened is closed, and none is closed before it is opened. */
  ghost predicate Nested(cs: seq<Chunk>) {
    Net(cs) == 0 && forall n :: 0 <= n <= |cs| ==> Net(cs[..n]) >= 0
  }

  lemma {:induction false} NetOfConcat(a: seq<Chunk>, b: seq<Chunk>)
    ensures Net(a + b) == Net(a) + Net(b)
  {
    if b == [] {
      assert a + b == a;
    } else {
      assert (a + b)[..|a + b| - 1] == a + b[..|b| - 1];
      NetOfConcat(a, b[..|b| - 1]);
    }
  }

  lemma {:induction false} LineAt(cs: seq<Chunk>, indent: string, depth: int, i: nat)
    requires i < |cs|
    ensures |Lines(cs, indent, depth)| == |cs|
    ensures Lines(cs, indent, depth)[i] == Pad(indent, PrintDepth(cs[i], depth + Net(cs[..i]))) + cs[i].text
    decreases |cs|
  {
    LinesLength(cs, indent, depth);
    if i > 0 {
      LineAt(cs[1..], indent, depth + Step(cs[0]), i - 1);
      assert cs[..i] == [cs[0]] + cs[1..][..i - 1];
      NetOfConcat([cs[0]], cs[1..][..i - 1]);
      assert [cs[0]][..0] == [];
    }
  }

  lemma {:induction false} LinesLength(cs: seq<Chunk>, indent: string, depth: int)
    ensures |Lines(cs, indent, depth)| == |cs|
  {
    if cs != [] { LinesLength(cs[1..], indent, depth + Step(cs[0])); }
  }

  /** Around nested markup the closing tag is printed at the indent of the opening tag, and
      everything between them at least one level further in. */
  lemma ClosingTagAligns(xml: string, indent: string, i: nat, j: nat)
    requires i < j < |Chunks(xml)|
    requires Step(Chunks(xml)[i]) == 1 && Step(Chunks(xml)[j]) == -1 && Nested(Chunks(xml)[i + 1..j])
    ensures
      var cs, lines := Chunks(xml), Lines(Chunks(xml), indent, 0);
      && |lines| == |cs|
      && lines[i] == Pad(indent, Net(cs[..i])) + cs[i].text
      && lines[j] == Pad(indent, Net(cs[..i])) + cs[j].text
      && forall k :: i < k < j ==>
        lines[k] == Pad(indent, PrintDepth(cs[k], Net(cs[..k]))) + cs[k].text
          && PrintDepth(cs[k], Net(cs[..k])) > Net(cs[..i])
  {
    hide Chunks, Step, Pad, Net, Lines;
    var cs := Chunks(xml);
    LineAt(cs, indent, 0, i);
    LineAt(cs, indent, 0, j);
    NetInside(cs, i, j);
    assert PrintDepth(cs[i], Net(cs[..i])) == Net(cs[..i]) && PrintDepth(cs[j], Net(cs[..j])) == Net(cs[..i]);
    forall k | i < k < j
      ensures Lines(cs, indent, 0)[k] == Pad(indent, PrintDepth(cs[k], Net(cs[..k]))) + cs[k].text
      ensures PrintDepth(cs[k], Net(cs[..k])) > Net(cs[..i])
    {
      LineAt(cs, indent, 0, k);
      InsideIsDeeper(cs, i, j, k);
    }
  }

  lemma InsideIsDeeper(cs: seq<Chunk>, i: nat, j: nat, k: nat)
    requires i < k < j <= |cs| && Step(cs[i]) == 1 && Nested(cs[i + 1..j])
    ensures PrintDepth(cs[k], Net(cs[..k])) > Net(cs[..i])
  {
    hide Step, Net;
    var inside := cs[i + 1..j];
    NetInside(cs, i, k);
    NetInside(cs, i, k + 1);
    assert cs[i + 1..k] == inside[..k - i - 1] && cs[i + 1..k + 1] == inside[..k - i];
    NetOfConcat(cs[i + 1..k], [cs[k]]);
    assert cs[i + 1..k + 1] == cs[i + 1..k] + [cs[k]];
    NetOfOne(cs[k]);
  }

  lemma NetOfOne(c: Chunk)
    ensures Net([c]) == Step(c)
  {
    assert [c][..0] == [];
  }

  lemma NetInside(cs: seq<Chunk>, i: nat, k: nat)
    requires i < k <= |cs|
    ensures Net(cs[..k]) == Net(cs[..i]) + Step(cs[i]) + Net(cs[i + 1..k])
  {
    assert cs[..k] == cs[..i] + ([cs[i]] + cs[i + 1..k]);
    NetOfConcat(cs[..i], [cs[i]] + cs[i + 1..k]);
    NetOfConcat([cs[i]], cs[i + 1..k]);
    assert [cs[i]][..0] == [];
  }

  // ----- The loops -----

  method FindTagEnd(xml: string, start: nat) returns (end: Option<nat>)
    requires start <= |xml|
    ensures end.Some? <==> TagEnd(xml[start..], None).Some?
    ensures end.Some? ==> end.value + 1 == start + TagEnd(xml[start..], None).value && end.value < |xml|
  {
    var quote: Option<char>, i := None, start;
    while i < |xml|
      invariant start <= i <= |xml|
      invariant TagEnd(xml[i..], quote).Some? <==> TagEnd(xml[start..], None).Some?
      invariant TagEnd(xml[i..], quote).Some? ==>
        i + TagEnd(xml[i..], quote).value == start + TagEnd(xml[start..], None).value
    {
      var c := xml[i];
      assert xml[i..][1..] == xml[i + 1..];
      if quote.Some? {
        if c == quote.value { quote := None; }
      } else if c == '"' || c == '\'' {
        quote := Some(c);
      } else if c == '>' {
        return Some(i);
      }
      i := i + 1;
    }
    end := None;
  }

  lemma {:induction false} IndexOfMarkup(s: string)
    ensures IndexOf(s, "<") == if TextEnd(s) == |s| then None else Some(TextEnd(s))
  {
    TextEndBounds(s);
    if s != "" && s[0] != '<' { IndexOfMarkup(s[1..]); }
    if s != "" { assert StartsWith(s, "<") <==> s[0] == '<'; }
  }

  lemma LinesOfText(s: string, cs: seq<Chunk>, indent: string, depth: int)
    ensures Lines(TextChunk(s) + cs, indent, depth) ==
      (if Trim(s) == "" then [] else [Pad(indent, depth) + Trim(s)]) + Lines(cs, indent, depth)
  {
    hide Trim, Pad, Lines;
    if Trim(s) == "" {
      assert TextChunk(s) + cs == cs;
    } else {
      LinesOfChunk(Text(Trim(s)), cs, indent, depth);
    }
  }

  lemma LinesOfChunk(c: Chunk, cs: seq<Chunk>, indent: string, depth: int)
    ensures Lines([c] + cs, indent, depth) ==
      [Pad(indent, PrintDepth(c, depth)) + c.text] + Lines(cs, indent, depth + Step(c))
  {
    assert ([c] + cs)[1..] == cs;
  }

  /** The text before the next markup, printed when it is not blank. */
  lemma LinesUpToMarkup(s: string, indent: string, depth: int)
    ensures TextEnd(s) <= |s|
    ensures Lines(Chunks(s), indent, depth) ==
      (if Trim(s[..TextEnd(s)]) == "" then [] else [Pad(indent, depth) + Trim(s[..TextEnd(s)])])
      + Lines(Chunks(s[TextEnd(s)..]), indent, depth)
  {
    hide Trim, Lines, Pad, Chunks;
    ChunksAtText(s);
    LinesOfText(s[..TextEnd(s)], Chunks(s[TextEnd(s)..]), indent, depth);
  }

  /** The text of the markup at the front of `s`, and whether it ends. */
  lemma LinesOfMarkup(s: string, indent: string, depth: int)
    requires s != "" && s[0] == '<'
    ensures Stop(s).Some? ==>
      var n := Stop(s).value;
      && 0 < n <= |s|
      && Lines(Chunks(s), indent, depth) ==
        [Pad(indent, PrintDepth(Segment(s[..n]), depth)) + s[..n]]
          + Lines(Chunks(s[n..]), indent, depth + Step(Segment(s[..n])))
      && Segment(s[..n]).Verbatim? == IsVerbatim(s)
    ensures Stop(s).None? && IsVerbatim(s) ==> Lines(Chunks(s), indent, depth) == [Pad(indent, depth) + s]
    ensures Stop(s).None? && !IsVerbatim(s) ==>
      Trim(s) != "" && Lines(Chunks(s), indent, depth) == [Pad(indent, depth) + Trim(s)]
  {
    hide Trim, Lines, Pad, Stop, TextChunk;
    NoLines(indent, depth);
    if Stop(s).Some? {
      StopIsLocal(s, "");
      var n := Stop(s).value;
      assert s[..n] + "" == s[..n];
      LinesOfChunk(Segment(s[..n]), Chunks(s[n..]), indent, depth);
    } else if IsVerbatim(s) {
      LinesOfChunk(Verbatim(s), [], indent, depth);
      assert [Verbatim(s)] + [] == [Verbatim(s)];
    } else {
      CutIsUnfinished(s);
      LinesOfChunk(Cut(Trim(s)), [], indent, depth);
      assert [Cut(Trim(s))] + [] == [Cut(Trim(s))];
    }
  }

  lemma NoLines(indent: string, depth: int)
    ensures Lines([], indent, depth) == []
    ensures Lines(Chunks(""), indent, depth) == []
  {
  }

  /** A comment, CDATA section, declaration or processing instruction at a `<`: its line, and
      where the loop goes on. */
  method VerbatimLine(xml: string, lt: nat, indent: string, depth: int) returns (line: string, stop: nat)
    requires lt < |xml| && xml[lt] == '<' && IsVerbatim(xml[lt..])
    ensures lt < stop <= |xml|
    ensures Lines(Chunks(xml[lt..]), indent, depth) == [line] + Lines(Chunks(xml[stop..]), indent, depth)
  {
    hide Lines, Chunks, Pad, IndexOf, IsVerbatim, After;
    var rest := xml[lt..];
    VerbatimLines(rest, indent, depth);
    var end: Option<nat>;
    if StartsWith(rest, "<!--") {
      end := EndOf(xml, lt, 4, "-->");
    } else if StartsWith(rest, "<![CDATA[") {
      end := EndOf(xml, lt, 9, "]]>");
    } else {
      end := EndOf(xml, lt, 0, ">");
    }
    assert end == VerbatimEnd(rest);
    stop := if end.None? then |xml| else lt + end.value;
    line := Pad(indent, depth) + xml[lt..stop];
    assert rest[..stop - lt] == xml[lt..stop] && rest[stop - lt..] == xml[stop..];
  }

  /** Where the first `pattern` from position `lt + from` on ends, counted from `lt`. */
  method EndOf(xml: string, lt: nat, from: nat, pattern: string) returns (end: Option<nat>)
    requires lt + from <= |xml|
    ensures end == After(xml[lt..], from, pattern)
  {
    var k := IndexOf(xml[lt + from..], pattern);
    assert xml[lt + from..] == xml[lt..][from..];
    end := if k.None? then None else Some(from + k.value + |pattern|);
  }

  lemma VerbatimLines(s: string, indent: string, depth: int)
    requires s != "" && s[0] == '<' && IsVerbatim(s)
    ensures
      var n := if VerbatimEnd(s).None? then |s| else VerbatimEnd(s).value;
      0 < n <= |s|
        && Lines(Chunks(s), indent, depth) == [Pad(indent, depth) + s[..n]] + Lines(Chunks(s[n..]), indent, depth)
  {
    hide Lines, Chunks, Pad, VerbatimEnd, IsVerbatim;
    LinesOfMarkup(s, indent, depth);
    NoLines(indent, depth);
    assert s[|s|..] == "" && s[..|s|] == s;
    assert [Pad(indent, depth) + s] + [] == [Pad(indent, depth) + s];
  }

  /** A tag at a `<`, or one that never ends. */
  method TagLine(xml: string, lt: nat, indent: string, depth: int) returns (line: string, stop: nat, newDepth: int)
    requires lt < |xml| && xml[lt] == '<' && !IsVerbatim(xml[lt..])
    ensures lt < stop <= |xml|
    ensures Lines(Chunks(xml[lt..]), indent, depth) == [line] + Lines(Chunks(xml[stop..]), indent, newDepth)
  {
    hide Trim, Lines, Chunks, Pad, TagEnd, TrimEnd, IsVerbatim;
    var rest := xml[lt..];
    newDepth := depth;
    LinesOfMarkup(rest, indent, depth);
    NoLines(indent, depth);
    assert xml[|xml|..] == "";
    var gt := FindTagEnd(xml, lt);
    if gt.None? {
      line, stop := Pad(indent, depth) + Trim(rest), |xml|;
      assert [line] + [] == [line];
      return;
    }
    stop := gt.value + 1;
    var segment := xml[lt..stop];
    assert rest[..stop - lt] == segment && rest[stop - lt..] == xml[stop..];
    if StartsWith(segment, "</") {
      newDepth := depth - 1;
      line := Pad(indent, newDepth) + segment;
    } else {
      line := Pad(indent, depth) + segment;
      if !EndsWith(TrimEnd(segment), "/>") { newDepth := depth + 1; }
    }
  }

  method PrettifyXml(xml: string, indent: string) returns (text: string)
    ensures text == Pretty(xml, indent)
  {
    hide Trim, Lines, Chunks, Pad, TextEnd, IndexOf, TagEnd, Step, IsVerbatim;
    var lines: seq<string>, depth, i := [], 0, 0;
    assert xml[0..] == xml;
    while i < |xml|
      invariant 0 <= i <= |xml|
      invariant lines + Lines(Chunks(xml[i..]), indent, depth) == Lines(Chunks(xml), indent, 0)
    {
      var rest := xml[i..];
      TextEndBounds(rest);
      IndexOfMarkup(rest);
      LinesUpToMarkup(rest, indent, depth);
      var next := IndexOf(rest, "<");
      var blank := Trim(if next.None? then rest else rest[..next.value]);
      if next.None? {
        assert rest[..|rest|] == rest && rest[|rest|..] == "";
        NoLines(indent, depth);
        if blank != "" { lines := lines + [Pad(indent, depth) + blank]; }
        i := |xml|;
        assert xml[i..] == "" && lines + [] == lines;
        assert lines == Lines(Chunks(xml), indent, 0);
        break;
      }
      if blank != "" { lines := lines + [Pad(indent, depth) + blank]; }
      var lt := i + next.value;
      assert rest[next.value..] == xml[lt..];
      if IsVerbatim(xml[lt..]) {
        var line, stop := VerbatimLine(xml, lt, indent, depth);
        lines, i := lines + [line], stop;
        continue;
      }
      var line, stop, newDepth := TagLine(xml, lt, indent, depth);
      lines := lines + [line];
      i, depth := stop, newDepth;
    }
    assert xml[|xml|..] == "";
    NoLines(indent, depth);
    assert lines + [] == lines;
    assert lines == Lines(Chunks(xml), indent, 0);
    text := Join(lines);
  }
}
