/** The characters of a rendered feed, and what a rollback makes of them. */
module FeedText {
  import opened Hashing
  import opened FeedXml
  import opened RoundTrip
  import opened Rerender
  import opened FeedDocument
  import opened LineEnds
  import opened FeedLines
  import opened Wrappers
  import opened ExportShelf
  import opened ExportService
  import opened Texts

  // ----- Escaping -----

  function Replace(s: string, c: char, code: string): string {
    if s == "" then "" else (if s[0] == c then code else [s[0]]) + Replace(s[1..], c, code)
  }

  /** The three replacements one after the other, ampersands first. */
  function Escape(s: string): string {
    Replace(Replace(Replace(s, '&', "&amp;"), '>', "&gt;"), '<', "&lt;")
  }

  /** The text a parser reports: the three references decoded, one pass from the left. */
  function Unescape(s: string): string {
    if s == "" then ""
    else if StartsWith(s, "&amp;") then "&" + Unescape(s[5..])
    else if StartsWith(s, "&gt;") then ">" + Unescape(s[4..])
    else if StartsWith(s, "&lt;") then "<" + Unescape(s[4..])
    else [s[0]] + Unescape(s[1..])
  }

  function EscapeChar(c: char): string {
    if c == '&' then "&amp;" else if c == '>' then "&gt;" else if c == '<' then "&lt;" else [c]
  }

  lemma {:induction false} ReplaceConcat(a: string, b: string, c: char, code: string)
    ensures Replace(a + b, c, code) == Replace(a, c, code) + Replace(b, c, code)
  {
    if a == "" {
      assert a + b == b;
    } else {
      assert (a + b)[1..] == a[1..] + b;
      ReplaceConcat(a[1..], b, c, code);
    }
  }

  lemma {:induction false} ReplaceAbsent(s: string, c: char, code: string)
    requires c !in s
    ensures Replace(s, c, code) == s
  {
    if s != "" { ReplaceAbsent(s[1..], c, code); }
  }

  /** The order of the replacements never escapes an escape. */
  lemma {:induction false} EscapeIsCharwise(s: string)
    ensures s != "" ==> Escape(s) == EscapeChar(s[0]) + Escape(s[1..])
  {
    if s != "" {
      var rest := Replace(s[1..], '&', "&amp;");
      var head := if s[0] == '&' then "&amp;" else [s[0]];
      ReplaceConcat(head, rest, '>', "&gt;");
      var mid := Replace(head, '>', "&gt;");
      ReplaceConcat(mid, Replace(rest, '>', "&gt;"), '<', "&lt;");
      if s[0] == '&' {
        ReplaceAbsent(head, '>', "&gt;");
        ReplaceAbsent(head, '<', "&lt;");
      } else if s[0] == '>' {
        assert head[1..] == "" && mid == "&gt;";
        ReplaceAbsent(mid, '<', "&lt;");
      } else {
        ReplaceAbsent(head, '>', "&gt;");
        assert mid == head && head[1..] == "";
      }
    }
  }

  /** Escaped text holds no markup character, and unescaping gives the text back. */
  lemma {:induction false} EscapeRoundTrip(s: string)
    ensures Unescape(Escape(s)) == s
    ensures '<' !in Escape(s) && '>' !in Escape(s)
  {
    if s != "" {
      hide Escape, Unescape, EscapeChar;
      EscapeIsCharwise(s);
      EscapeRoundTrip(s[1..]);
      var c, rest := s[0], Escape(s[1..]);
      UnescapeHead(c, rest);
      NoMarkup(c, rest);
      assert [c] + s[1..] == s;
      assert Unescape(EscapeChar(c) + rest) == [c] + s[1..];
    }
  }

  lemma NoMarkup(c: char, rest: string)
    requires '<' !in rest && '>' !in rest
    ensures '<' !in EscapeChar(c) + rest && '>' !in EscapeChar(c) + rest
  {
  }

  lemma UnescapeHead(c: char, rest: string)
    ensures Unescape(EscapeChar(c) + rest) == [c] + Unescape(rest)
  {
    var s := EscapeChar(c) + rest;
    assert s[|EscapeChar(c)|..] == rest;
    if c in "&<>" { ReferenceAt(c, rest); } else { PlainAt(c, rest); }
  }

  lemma ReferenceAt(c: char, rest: string)
    requires c in "&<>"
    ensures
      var s := EscapeChar(c) + rest;
      && (StartsWith(s, "&amp;") <==> c == '&')
      && (StartsWith(s, "&gt;") <==> c == '>')
      && (StartsWith(s, "&lt;") <==> c == '<')
  {
    hide Unescape;
    var s := EscapeChar(c) + rest;
    assert s[..|EscapeChar(c)|] == EscapeChar(c);
    assert s[1] == EscapeChar(c)[1];
    if |s| >= 5 { assert s[..5][1] == s[1] && s[..4][1] == s[1]; }
    assert "&amp;"[1] == 'a' && "&gt;"[1] == 'g' && "&lt;"[1] == 'l';
  }

  lemma PlainAt(c: char, rest: string)
    requires c !in "&<>"
    ensures
      var s := EscapeChar(c) + rest;
      !StartsWith(s, "&amp;") && !StartsWith(s, "&gt;") && !StartsWith(s, "&lt;")
  {
    hide Unescape;
    var s := EscapeChar(c) + rest;
    assert s[0] == c && c != '&' by { assert "&<>"[0] == '&'; }
    if |s| >= 5 { assert s[..5][0] == c; }
    if |s| >= 4 { assert s[..4][0] == c; }
  }

  // ----- The file -----

  function Markup(e: Element): string {
    var name := StripNs(e.tag);
    "<g:" + name + ">" + (if e.children == [] then Escape(e.text) else Markups(e.children, "")) + "</g:" + name + ">"
  }

  function Markups(es: seq<Element>, end: string): string {
    if es == [] then "" else Markups(es[..|es| - 1], end) + Markup(es[|es| - 1]) + end
  }

  function Items(items: seq<seq<Element>>): string {
    if items == [] then ""
    else Items(items[..|items| - 1]) + "<item>\n" + Markups(items[|items| - 1], "\n") + "</item>\n"
  }

  function FileHead(channel: Channel): string {
    "<?xml version=\"1.0\" encoding=\"UTF-8\"?>\n<rss version=\"2.0\" xmlns:g=\"http://base.google.com/schemas/1.0\">\n"
    + "<channel>\n<title>" + Escape(channel.title)
    + "</title>\n<link>" + Escape(channel.link) + "</link>\n<description>"
    + Escape(channel.description) + "</description>\n"
  }

  function File(d: Document): Content {
    FileHead(d.channel) + Items(d.items) + "</channel>\n</rss>\n"
  }

  // ----- Carriage returns in a file -----

  function Returns(s: string): nat {
    if s == "" then 0 else (if s[0] == '\r' then 1 else 0) + Returns(s[1..])
  }

  lemma {:induction false} ReturnsOfConcat(a: string, b: string)
    ensures Returns(a + b) == Returns(a) + Returns(b)
  {
    if a == "" {
      assert a + b == b;
    } else {
      assert (a + b)[1..] == a[1..] + b;
      ReturnsOfConcat(a[1..], b);
    }
  }

  lemma {:induction false} NoneIffAbsent(s: string)
    ensures Returns(s) == 0 <==> '\r' !in s
  {
    if s != "" {
      NoneIffAbsent(s[1..]);
      assert s == [s[0]] + s[1..];
    }
  }

  lemma {:induction false} ReturnsOfEscaped(s: string)
    ensures Returns(Escape(s)) == Returns(s)
  {
    if s != "" {
      hide Escape;
      EscapeIsCharwise(s);
      ReturnsOfEscaped(s[1..]);
      ReturnsOfConcat(EscapeChar(s[0]), Escape(s[1..]));
      ReturnsOfChar(s[0]);
    }
  }

  lemma ReturnsOfChar(c: char)
    ensures Returns(EscapeChar(c)) == if c == '\r' then 1 else 0
  {
    NoneIffAbsent("&amp;");
    NoneIffAbsent("&gt;");
    NoneIffAbsent("&lt;");
    assert [c][1..] == "";
  }

  lemma ReturnsOfThree(a: string, b: string, c: string)
    ensures Returns(a + b + c) == Returns(a) + Returns(b) + Returns(c)
  {
    ReturnsOfConcat(a + b, c);
    ReturnsOfConcat(a, b);
  }

  lemma MarkupsOneMore(es: seq<Element>, e: Element, end: string)
    ensures Markups(es + [e], end) == Markups(es, end) + Markup(e) + end
    ensures NoReturns(es + [e]) <==> NoReturns(es) && (e.children == [] ==> '\r' !in e.text) && NoReturns(e.children)
  {
    hide Markup;
    assert (es + [e])[..|es|] == es;
  }

  /** Normalizing line ends never adds a carriage return to what is printed, and removes one unless
      there is none. */
  lemma {:induction false} MarkupsLoseReturns(es: seq<Element>, end: string)
    ensures Returns(Markups(NormalizedAll(es), end)) <= Returns(Markups(es, end))
    ensures Returns(Markups(NormalizedAll(es), end)) == Returns(Markups(es, end)) ==> NoReturns(es)
  {
    if es != [] {
      hide Markup, Markups, Returns, NormalizedText, NormalizedAll, NoReturns;
      var rest, last := es[..|es| - 1], es[|es| - 1];
      var e := Element(last.tag, NormalizedText(last), NormalizedAll(last.children));
      MarkupsLoseReturns(rest, end);
      assert es == rest + [last];
      NormalizedOneMore(rest, last);
      MarkupsOneMore(rest, last, end);
      MarkupsOneMore(NormalizedAll(rest), e, end);
      ReturnsOfThree(Markups(rest, end), Markup(last), end);
      ReturnsOfThree(Markups(NormalizedAll(rest), end), Markup(e), end);
      MarkupsLoseReturns(last.children, "");
      if last.children == [] { TextLosesReturns(last); } else { BodyLosesReturns(last); }
      NothingReturns();
    }
  }

  lemma NothingReturns()
    ensures NoReturns([])
  {
  }

  lemma TextLosesReturns(e: Element)
    requires e.children == []
    ensures
      var e' := Element(e.tag, NormalizedText(e), NormalizedAll(e.children));
      && Returns(Markup(e')) <= Returns(Markup(e))
      && (Returns(Markup(e')) == Returns(Markup(e)) ==> '\r' !in e.text)
  {
    hide Escape, Returns, Normalized, StripNs;
    var name := StripNs(e.tag);
    ReturnsOfThree("<g:" + name + ">", Escape(e.text), "</g:" + name + ">");
    ReturnsOfThree("<g:" + name + ">", Escape(Normalized(e.text)), "</g:" + name + ">");
    ReturnsOfEscaped(e.text);
    ReturnsOfEscaped(Normalized(e.text));
    NormalizedFacts(e.text);
    NoneIffAbsent(e.text);
    NoneIffAbsent(Normalized(e.text));
    MarkupInThree(e);
    MarkupInThree(Element(e.tag, NormalizedText(e), NormalizedAll(e.children)));
  }

  lemma BodyLosesReturns(e: Element)
    requires e.children != []
    requires Returns(Markups(NormalizedAll(e.children), "")) <= Returns(Markups(e.children, ""))
    ensures
      var e' := Element(e.tag, NormalizedText(e), NormalizedAll(e.children));
      Returns(Markup(e)) - Returns(Markup(e')) ==
        Returns(Markups(e.children, "")) - Returns(Markups(NormalizedAll(e.children), ""))
  {
    hide Escape, Returns, NormalizedAll, StripNs, Markups;
    var name := StripNs(e.tag);
    NormalizedIff(e.children);
    ReturnsOfThree("<g:" + name + ">", Markups(e.children, ""), "</g:" + name + ">");
    ReturnsOfThree("<g:" + name + ">", Markups(NormalizedAll(e.children), ""), "</g:" + name + ">");
    MarkupInThree(e);
    MarkupInThree(Element(e.tag, NormalizedText(e), NormalizedAll(e.children)));
  }

  lemma MarkupInThree(e: Element)
    ensures
      var name := StripNs(e.tag);
      var inside := if e.children == [] then Escape(e.text) else Markups(e.children, "");
      Markup(e) == ("<g:" + name + ">") + inside + ("</g:" + name + ">")
  {
    hide StripNs, Escape, Markups;
  }

  lemma {:induction false} ItemsLoseReturns(items: seq<seq<Element>>)
    ensures Returns(Items(NormalizedItems(items))) <= Returns(Items(items))
    ensures Returns(Items(NormalizedItems(items))) == Returns(Items(items)) ==> NoReturnsIn(items)
  {
    hide Markups, Returns, NormalizedAll, NoReturns;
    if items != [] {
      var rest, last := items[..|items| - 1], items[|items| - 1];
      ItemsLoseReturns(rest);
      MarkupsLoseReturns(last, "\n");
      assert NormalizedItems(items)[..|rest|] == NormalizedItems(rest);
      ReturnsOfItem(Items(rest), Markups(last, "\n"));
      ReturnsOfItem(Items(NormalizedItems(rest)), Markups(NormalizedAll(last), "\n"));
    }
  }

  lemma ReturnsOfItem(before: string, body: string)
    ensures Returns(before + "<item>\n" + body + "</item>\n") ==
      Returns(before) + Returns("<item>\n") + Returns(body) + Returns("</item>\n")
  {
    hide Returns;
    ReturnsOfThree(before + "<item>\n", body, "</item>\n");
    ReturnsOfConcat(before, "<item>\n");
  }

  /** A file tells whether its items hold a carriage return. */
  lemma FileLosesReturns(channel: Channel, items: seq<seq<Element>>)
    ensures File(Document(channel, items)) == File(Document(channel, NormalizedItems(items))) ==> NoReturnsIn(items)
  {
    hide Items, Returns, FileHead, NoReturnsIn, NormalizedItems;
    var head := FileHead(channel);
    var tail := "</channel>\n</rss>\n";
    ReturnsOfThree(head, Items(items), tail);
    ReturnsOfThree(head, Items(NormalizedItems(items)), tail);
    ItemsLoseReturns(items);
  }

  // ----- Rolling back -----

  /** What a rollback does with a stored file: parse it, and render what was read. */
  function Rerendered(r: Renderer, channel: Channel, parse: Content -> Option<Document>): Render {
    content =>
      var read := parse(content);
      if read.None? then None
      else
        var again := RenderFeed(r, ReadItems(read.value.items), channel);
        if again.None? then None else Some(File(again.value))
  }

  /** The parser reports the items of a document's file, with line ends normalized. */
  ghost predicate Reports(parse: Content -> Option<Document>, d: Document) {
    parse(File(d)).Some? && parse(File(d)).value.items == NormalizedItems(d.items)
  }

  /** So it does for a rendered feed, and for that feed rendered again. */
  ghost predicate ParsesFeed(parse: Content -> Option<Document>, r: Renderer, ps: seq<Product>, channel: Channel) {
    var doc := RenderFeed(r, ps, channel);
    doc.Some? && Reports(parse, doc.value) &&
    var again := RenderFeed(r, ReadItems(NormalizedItems(doc.value.items)), channel);
    again.Some? ==> Reports(parse, again.value)
  }

  /** The file of a rendered feed. */
  function FeedFile(r: Renderer, ps: seq<Product>, channel: Channel): Content {
    var doc := RenderFeed(r, ps, channel);
    if doc.Some? then File(doc.value) else ""
  }

  /** No text in the file of a rendered feed holds a carriage return. */
  ghost predicate FeedHasNoReturns(r: Renderer, ps: seq<Product>, channel: Channel) {
    var doc := RenderFeed(r, ps, channel);
    doc.Some? && NoReturnsIn(doc.value.items)
  }

  /** What a rollback makes of a version: its very file. */
  ghost predicate Repeats(r: Renderer, ps: seq<Product>, channel: Channel) {
    FeedHasNoReturns(r, ps, channel) && AllSettled(r, ps) && ReadsInOrder(r, ps, channel)
  }

  /** Rolling back to a version under unchanged channel metadata never fails to render, and
      reproduces the file exactly when no text in it held a carriage return, every product of that
      version was settled and its products are read in id order. */
  lemma RollbackReproducesIff(r: Renderer, ps: seq<Product>, channel: Channel, parse: Content -> Option<Document>)
    requires r.Valid() && Prints(r) && ParsesFeed(parse, r, ps, channel)
    ensures
      var file := FeedFile(r, ps, channel);
      var again := Rerendered(r, channel, parse)(file);
      again.Some? && (again.value == file <==> Repeats(r, ps, channel))
  {
    hide RenderFeed, ReadItems, File, AllSettled, ReadsInOrder, NormalizedItems, NoReturnsIn, Prints;
    var doc := RenderFeed(r, ps, channel).value;
    ReportedFeedAgainIff(r, ps, channel);
    var again := RenderFeed(r, ReadItems(NormalizedItems(doc.items)), channel).value;
    RenderedForChannel(r, ps, channel);
    RenderedForChannel(r, ReadItems(NormalizedItems(doc.items)), channel);
    if File(again) == File(doc) {
      assert again == Document(channel, NormalizedItems(doc.items)) && doc == Document(channel, doc.items);
      FileLosesReturns(channel, doc.items);
      NormalizedItemsIff(doc.items);
    }
  }

  lemma RenderedForChannel(r: Renderer, ps: seq<Product>, channel: Channel)
    ensures RenderFeed(r, ps, channel).Some? ==> RenderFeed(r, ps, channel).value.channel == channel
  {
  }

  /** So the version a rollback commits carries the hash of the version it came from in exactly
      that case. */
  lemma RollbackKeepsHashIff(s: Shelf, source: nat, retention: int, f: Faults,
      r: Renderer, ps: seq<Product>, channel: Channel, parse: Content -> Option<Document>)
    requires ShelfInv(s) && source in s.rows && Commits(f)
    requires r.Valid() && Prints(r) && ParsesFeed(parse, r, ps, channel)
    requires s.rows[source] == ExportShelf.Digest(FeedFile(r, ps, channel))
    ensures
      var after := RollbackEffect(s, source, Rerendered(r, channel, parse), retention, f);
      && NextNumber(s.rows) in after.rows
      && (after.rows[NextNumber(s.rows)] == s.rows[source] <==> Repeats(r, ps, channel))
    ensures ExportsId(r) ==> (ReadsInOrder(r, ps, channel) <==> IdsReadInOrder(r, ps))
  {
    hide RenderFeed, ReadItems, FeedFile, Repeats, VersionEffect, Rerendered;
    hide ReadsInOrder, IdsReadInOrder, Prints, ParsesFeed;
    RollbackReproducesIff(r, ps, channel, parse);
    var file := FeedFile(r, ps, channel);
    assert s.files[source] == file;
    VersionEffectKeepsInv(s, Rerendered(r, channel, parse)(file).value, retention, f);
    FileIsRendered(r, ps, channel, parse);
    if ExportsId(r) { ReadsInOrderIff(r, ps, channel); }
  }

  lemma FileIsRendered(r: Renderer, ps: seq<Product>, channel: Channel, parse: Content -> Option<Document>)
    requires ParsesFeed(parse, r, ps, channel)
    ensures RenderFeed(r, ps, channel).Some?
  {
  }

  ghost predicate CleanFeed(r: Renderer, ps: seq<Product>) {
    forall p :: p in ps ==> Clean(r, p)
  }

  /** Clean products need no condition on their ids. */
  lemma CleanFeedReadsInOrder(r: Renderer, ps: seq<Product>, channel: Channel)
    requires r.Valid() && RenderFeed(r, ps, channel).Some? && CleanFeed(r, ps)
    ensures AllSettled(r, ps) && ReadsInOrder(r, ps, channel)
  {
    hide Clean, RenderItems, ReadItems, SortById, SettledItem;
    forall p | p in ps ensures SettledItem(r, p) { CleanIsSettled(r, p); }
    FeedReadsBackIff(r, ps, channel);
    SortSorts(r, ps);
  }

  /** A version of clean products without carriage returns is rolled back to a version with the
      same hash. */
  lemma CleanRollbackKeepsHash(s: Shelf, source: nat, retention: int, f: Faults,
      r: Renderer, ps: seq<Product>, channel: Channel, parse: Content -> Option<Document>)
    requires ShelfInv(s) && source in s.rows && Commits(f)
    requires r.Valid() && Prints(r) && ParsesFeed(parse, r, ps, channel) && FeedHasNoReturns(r, ps, channel)
    requires s.rows[source] == ExportShelf.Digest(FeedFile(r, ps, channel))
    requires CleanFeed(r, ps)
    ensures
      var after := RollbackEffect(s, source, Rerendered(r, channel, parse), retention, f);
      NextNumber(s.rows) in after.rows && after.rows[NextNumber(s.rows)] == s.rows[source]
  {
    hide RenderFeed, ReadItems, FeedFile, VersionEffect, RollbackEffect, Rerendered, CleanFeed, AllSettled;
    hide ReadsInOrder, FeedHasNoReturns, Prints, ParsesFeed;
    FileIsRendered(r, ps, channel, parse);
    CleanFeedReadsInOrder(r, ps, channel);
    RollbackKeepsHashIff(s, source, retention, f, r, ps, channel, parse);
  }
}
