/** What label templates mean: which parts of a template are tokens, which texts a path offers, and
    what a template is rendered to. */
module TemplateMeaning {
  import opened Hashing
  import opened IndexedPath
  import opened PathValues
  import opened LabelTemplates
  import opened Texts
  import opened Wrappers

  // ----- Tokens -----

  ghost predicate AllWord(s: string) {
    s != "" && forall i :: 0 <= i < |s| ==> IsWord(s[i])
  }

  /** An attribute, or an attribute and a sub-field. */
  ghost predicate TokenPath(path: string) {
    AllWord(path) || exists a, b :: AllWord(a) && AllWord(b) && path == a + "." + b
  }

  ghost predicate BeginsWith(s: string, path: string) {
    TokenPath(path) && |path| + 2 <= |s| && s[0] == '{' && s[|path| + 1] == '}' && s[1..|path| + 1] == path
  }

  ghost predicate TokenAt(t: string, i: nat) {
    i <= |t| && exists path :: BeginsWith(t[i..], path)
  }

  lemma {:induction false} WordLengthIs(s: string, k: nat)
    requires k <= |s| && (forall i :: 0 <= i < k ==> IsWord(s[i])) && (k == |s| || !IsWord(s[k]))
    ensures WordLength(s) == k
  {
    if k > 0 { WordLengthIs(s[1..], k - 1); }
  }

  lemma {:induction false} WordRun(s: string)
    ensures WordLength(s) <= |s| && (forall i :: 0 <= i < WordLength(s) ==> IsWord(s[i]))
    ensures WordLength(s) < |s| ==> !IsWord(s[WordLength(s)])
  {
    if s != "" && IsWord(s[0]) {
      WordRun(s[1..]);
      forall i | 0 <= i < WordLength(s) ensures IsWord(s[i]) { if i > 0 { assert s[i] == s[1..][i - 1]; } }
    }
  }

  /** A token at the front has exactly that form. */
  lemma TokenIff(s: string, path: string)
    ensures TokenLength(s) == Some(|path| + 2) && |path| + 2 <= |s| && s[1..|path| + 1] == path <==> BeginsWith(s, path)
  {
    if BeginsWith(s, path) {
      TokenFound(s, path);
    }
    if TokenLength(s) == Some(|path| + 2) && |path| + 2 <= |s| && s[1..|path| + 1] == path {
      TokenForm(s, path);
    }
  }

  lemma TokenFound(s: string, path: string)
    requires BeginsWith(s, path)
    ensures TokenLength(s) == Some(|path| + 2)
  {
    forall i | 0 <= i < |path| ensures s[1 + i] == path[i] { assert s[1..|path| + 1][i] == path[i]; }
    if AllWord(path) {
      WordLengthIs(s[1..], |path|);
    } else {
      var a, b :| AllWord(a) && AllWord(b) && path == a + "." + b;
      assert forall i :: 0 <= i < |a| ==> path[i] == a[i];
      assert path[|a|] == '.' && forall i :: 0 <= i < |b| ==> path[|a| + 1 + i] == b[i];
      TwoWords(s, a, b);
    }
  }

  lemma TwoWords(s: string, a: string, b: string)
    requires AllWord(a) && AllWord(b) && |a| + |b| + 3 <= |s| && s[0] == '{'
    requires forall i :: 0 <= i < |a| ==> s[1 + i] == a[i]
    requires s[1 + |a|] == '.' && forall i :: 0 <= i < |b| ==> s[|a| + 2 + i] == b[i]
    requires s[|a| + |b| + 2] == '}'
    ensures TokenLength(s) == Some(|a| + |b| + 3)
  {
    var inner := s[1..];
    assert forall i :: 0 <= i < |a| ==> inner[i] == a[i];
    assert inner[|a|] == '.';
    WordLengthIs(inner, |a|);
    var tail := s[|a| + 2..];
    assert forall i :: 0 <= i < |b| ==> tail[i] == b[i];
    WordLengthIs(tail, |b|);
  }

  lemma TokenForm(s: string, path: string)
    requires TokenLength(s) == Some(|path| + 2) && |path| + 2 <= |s| && s[1..|path| + 1] == path
    ensures BeginsWith(s, path)
  {
    hide AllWord, WordLength;
    TokenLengthBounds(s);
    WordRun(s[1..]);
    var a := WordLength(s[1..]);
    AllWordRun(s[1..], a);
    if |path| == a {
      assert s[1..][..a] == path;
    } else {
      var tail := s[a + 2..];
      WordRun(tail);
      AllWordRun(tail, WordLength(tail));
      var first, second := s[1..][..a], tail[..WordLength(tail)];
      assert path == first + "." + second;
    }
  }

  lemma AllWordRun(s: string, n: nat)
    requires 0 < n <= |s| && forall i :: 0 <= i < n ==> IsWord(s[i])
    ensures AllWord(s[..n])
  {
  }

  // ----- Templates -----

  /** `t` is read from the front as `segments`: tokens where they begin and, between them, the
      longest texts in which no token begins. */
  ghost predicate ReadAs(t: string, segments: seq<Segment>) {
    if segments == [] then t == ""
    else
      var text := SegmentText(segments[0]);
      && |text| <= |t| && t[..|text|] == text && ReadAs(t[|text|..], segments[1..])
      && if segments[0].Tok? then TokenPath(segments[0].path)
         else text != "" && NoTokenBefore(t, |text|) && (|segments| > 1 ==> segments[1].Tok?)
  }

  ghost predicate NoTokenBefore(t: string, n: nat) {
    forall j: nat | j < n :: !TokenAt(t, j)
  }

  lemma TokenSegment(t: string, path: string)
    ensures BeginsWith(t, path) <==>
      TokenPath(path) && |path| + 2 <= |t| && t[..|path| + 2] == SegmentText(Tok(path))
  {
    hide TokenPath;
    var n := |path| + 2;
    assert SegmentText(Tok(path)) == "{" + path + "}";
    if n <= |t| {
      assert t[..n][0] == t[0] && t[..n][n - 1] == t[n - 1] && t[..n][1..n - 1] == t[1..n - 1];
      assert t[..n] == [t[0]] + t[1..n - 1] + [t[n - 1]];
    }
  }

  lemma TokenIsThere(t: string, i: nat)
    requires i <= |t|
    ensures TokenAt(t, i) <==> TokenLength(t[i..]).Some?
  {
    hide TokenLength;
    var s := t[i..];
    if TokenAt(t, i) {
      var path :| BeginsWith(s, path);
      TokenIff(s, path);
    }
    if TokenLength(s).Some? {
      TokenLengthBounds(s);
      TokenIff(s, s[1..TokenLength(s).value - 1]);
    }
  }

  lemma {:induction false} CompiledIsRead(s: string, literal: string)
    requires NoTokenBefore(literal + s, |literal|)
    ensures ReadAs(literal + s, CompileFrom(s, literal))
    decreases |s|
  {
    hide TokenLength, TokenPath, TokenAt, ReadAs;
    var t := literal + s;
    assert t[|literal|..] == s;
    TokenLengthBounds(s);
    TokenIsThere(t, |literal|);
    if s == "" {
      OnlyLiteral(t);
      assert t == literal;
    } else if TokenLength(s).Some? {
      var n := TokenLength(s).value;
      assert "" + s[n..] == s[n..];
      CompiledIsRead(s[n..], "");
      TokenIsRead(s, literal, s[1..n - 1], CompileFrom(s[n..], ""));
    } else {
      var longer := literal + [s[0]];
      assert longer + s[1..] == t;
      assert NoTokenBefore(t, |longer|);
      CompiledIsRead(s[1..], longer);
    }
  }

  lemma TokenIsRead(s: string, literal: string, path: string, tail: seq<Segment>)
    requires NoTokenBefore(literal + s, |literal|) && |path| + 2 <= |s| && ReadAs(s[|path| + 2..], tail)
    requires TokenLength(s) == Some(|path| + 2) && path == s[1..|path| + 1]
    ensures ReadAs(literal + s, Pending(literal) + [Tok(path)] + tail)
  {
    hide TokenLength, TokenPath, TokenAt;
    var t, inner := literal + s, [Tok(path)] + tail;
    TokenIff(s, path);
    TokenSegment(s, path);
    assert inner[1..] == tail;
    assert ReadAs(s, inner);
    assert Pending(literal) + [Tok(path)] + tail == Pending(literal) + inner;
    if literal == "" {
      assert t == s && Pending(literal) + inner == inner;
    } else {
      var whole := [Lit(literal)] + inner;
      assert whole[1..] == inner && t[..|literal|] == literal && t[|literal|..] == s;
      assert NoTokenBefore(t, |literal|);
      assert ReadAs(t, whole);
    }
  }

  lemma OnlyLiteral(t: string)
    requires NoTokenBefore(t, |t|)
    ensures ReadAs(t, Pending(t))
  {
    assert t[|t|..] == "" && [Lit(t)][1..] == [] && t[..|t|] == t;
  }

  lemma {:induction false} ReadOneWay(t: string, a: seq<Segment>, b: seq<Segment>)
    requires ReadAs(t, a) && ReadAs(t, b)
    ensures a == b
  {
    hide TokenPath, TokenAt;
    if a != [] && b != [] {
      FirstSegmentsAgree(t, a, b);
      ReadOneWay(t[|SegmentText(a[0])|..], a[1..], b[1..]);
      assert a == [a[0]] + a[1..] && b == [b[0]] + b[1..];
    }
  }

  lemma FirstSegmentsAgree(t: string, a: seq<Segment>, b: seq<Segment>)
    requires ReadAs(t, a) && ReadAs(t, b) && a != [] && b != []
    ensures a[0] == b[0]
  {
    hide TokenPath, TokenLength, TokenAt;
    TokenFirst(t, a);
    TokenFirst(t, b);
    if a[0].Tok? && b[0].Tok? {
      TokenIff(t, a[0].path);
      TokenIff(t, b[0].path);
    } else if a[0].Lit? && b[0].Lit? {
      if |a[0].text| < |b[0].text| {
        LiteralEnds(t, a);
      } else if |a[0].text| > |b[0].text| {
        LiteralEnds(t, b);
      }
    }
  }

  lemma TokenFirst(t: string, a: seq<Segment>)
    requires ReadAs(t, a) && a != []
    ensures a[0].Tok? ==> BeginsWith(t, a[0].path) && TokenAt(t, 0)
    ensures a[0].Lit? ==> !TokenAt(t, 0)
  {
    hide TokenPath;
    assert t[0..] == t;
    if a[0].Tok? { TokenSegment(t, a[0].path); }
  }

  lemma LiteralEnds(t: string, a: seq<Segment>)
    requires ReadAs(t, a) && a != [] && a[0].Lit? && |a[0].text| < |t|
    ensures TokenAt(t, |a[0].text|)
  {
    hide TokenPath;
    var rest := t[|a[0].text|..];
    TokenFirst(rest, a[1..]);
    assert rest[0..] == rest;
  }

  /** A template compiles to its only reading. */
  lemma CompileIff(t: string, segments: seq<Segment>)
    ensures Compile(t) == segments <==> ReadAs(t, segments)
  {
    assert "" + t == t;
    CompiledIsRead(t, "");
    if ReadAs(t, segments) { ReadOneWay(t, segments, Compile(t)); }
  }

  // ----- Values of a path -----

  /** The values a path offers, in order: the items of a whole list, or the value it leads to. A
      path that ends in its only dot names the whole attribute. */
  ghost predicate Offers(p: Product, path: Path, items: seq<Json>) {
    var read := if path.index.None? && path.sub == Some("") then path.(sub := None) else path;
    if read.index.None? && read.sub.None? && read.attr in p && p[read.attr].Arr? then items == p[read.attr].items
    else exists v :: LeadsTo(p, read, v) && items == [v]
  }

  /** How a path is written that offers values. */
  ghost predicate Reads(p: Product, field: string, items: seq<Json>) {
    exists path: Path ::
      && Spells(field, path) && path.attr != ""
      && (path.index.Some? ==> path.index.value >= 1 && path.sub != Some(""))
      && Offers(p, path, items)
  }

  ghost predicate IsBlank(v: Json) {
    v == Null || v == Str("")
  }

  ghost predicate ReadsAsText(show: Json -> string, v: Json, text: string) {
    !IsBlank(v) && text == if v.Str? then v.text else show(v)
  }

  /** Some value at the path reads as the text. */
  ghost predicate HasText(show: Json -> string, p: Product, field: string, text: string) {
    exists items: seq<Json> :: Reads(p, field, items) && exists v :: v in items && ReadsAsText(show, v, text)
  }

  ghost predicate FirstOf(show: Json -> string, items: seq<Json>, text: string) {
    exists i: nat :: i < |items| && ReadsAsText(show, items[i], text) && forall j: nat | j < i :: IsBlank(items[j])
  }

  /** The first value at the path that is not blank reads as the text. */
  ghost predicate HasFirstText(show: Json -> string, p: Product, field: string, text: string) {
    exists items: seq<Json> :: Reads(p, field, items) && FirstOf(show, items, text)
  }

  lemma OfferedOnce(p: Product, field: string, path: Path)
    requires LoosePath(field) == Some(path)
    ensures forall items :: Reads(p, field, items) <==> Offers(p, path, items)
  {
    hide LoosePath, Spells, Offers;
    LoosePathIff(field, path);
    forall items | Reads(p, field, items) ensures Offers(p, path, items) {
      var other: Path :| Spells(field, other) && other.attr != ""
        && (other.index.Some? ==> other.index.value >= 1 && other.sub != Some("")) && Offers(p, other, items);
      LoosePathIff(field, other);
    }
  }

  lemma NothingOffered(p: Product, field: string)
    requires LoosePath(field).None?
    ensures forall items :: !Reads(p, field, items)
  {
    hide LoosePath, Spells, Offers;
    forall items | Reads(p, field, items) ensures false {
      var other: Path :| Spells(field, other) && other.attr != ""
        && (other.index.Some? ==> other.index.value >= 1 && other.sub != Some("")) && Offers(p, other, items);
      LoosePathIff(field, other);
    }
  }

  /** The texts of a list of values, in order and without the blanks. */
  ghost predicate TextsOf(show: Json -> string, items: seq<Json>, texts: seq<string>) {
    && (forall text :: text in texts <==> exists v :: v in items && ReadsAsText(show, v, text))
    && (texts != [] ==> FirstOf(show, items, texts[0]))
  }

  lemma {:induction false} CandidatesAreTexts(show: Json -> string, items: seq<Json>)
    ensures TextsOf(show, items, Candidates(show, items))
  {
    hide TextsOf, Candidate;
    if items == [] {
      NoTexts(show);
    } else {
      CandidatesAreTexts(show, items[1..]);
      TextsAfter(show, items[0], items[1..], Candidates(show, items[1..]));
      assert items == [items[0]] + items[1..];
    }
  }

  lemma NoTexts(show: Json -> string)
    ensures TextsOf(show, [], [])
  {
  }

  lemma TextsAfter(show: Json -> string, v: Json, rest: seq<Json>, others: seq<string>)
    requires TextsOf(show, rest, others)
    ensures TextsOf(show, [v] + rest, Candidate(show, v) + others)
  {
    hide ReadsAsText, IsBlank, Candidate;
    CandidateIsText(show, v);
    var items, first := [v] + rest, Candidate(show, v);
    assert items[0] == v && items[1..] == rest;
    if first != [] {
      assert ReadsAsText(show, items[0], (first + others)[0]);
    } else if others != [] {
      assert first + others == others;
      var i: nat :| i < |rest| && ReadsAsText(show, rest[i], others[0]) && forall j: nat | j < i :: IsBlank(rest[j]);
      assert ReadsAsText(show, items[i + 1], others[0]);
    }
  }

  lemma CandidateIsText(show: Json -> string, v: Json)
    ensures Candidate(show, v) == [] <==> IsBlank(v)
    ensures forall text :: text in Candidate(show, v) <==> ReadsAsText(show, v, text)
    ensures |Candidate(show, v)| <= 1
    ensures TextsOf(show, [v], Candidate(show, v))
  {
    if !IsBlank(v) {
      assert ReadsAsText(show, [v][0], Candidate(show, v)[0]);
    }
  }

  lemma OfferedTexts(show: Json -> string, p: Product, field: string, path: Path, items: seq<Json>)
    requires LoosePath(field) == Some(path) && Offers(p, path, items)
    ensures TextsOf(show, items, Resolve(show, p, field))
  {
    hide LoosePath, TextsOf;
    CandidatesAreTexts(show, items);
    if |items| == 1 { CandidateIsText(show, items[0]); }
  }

  lemma UnofferedIsEmpty(show: Json -> string, p: Product, field: string, path: Path)
    requires LoosePath(field) == Some(path) && forall items :: !Offers(p, path, items)
    ensures Resolve(show, p, field) == []
  {
    hide LoosePath, LeadsTo;
    var read := if path.index.None? && path.sub == Some("") then path.(sub := None) else path;
    if read.attr in p {
      var whole := p[read.attr];
      assert !Offers(p, path, if whole.Arr? then whole.items else []);
      forall v ensures !LeadsTo(p, read, v) { assert !Offers(p, path, [v]); }
      UnledIsEmpty(show, p, field, path, read);
    }
  }

  lemma UnledIsEmpty(show: Json -> string, p: Product, field: string, path: Path, read: Path)
    requires LoosePath(field) == Some(path)
    requires read == if path.index.None? && path.sub == Some("") then path.(sub := None) else path
    requires read.attr in p && (read.index.None? && read.sub.None? ==> !p[read.attr].Arr?)
    requires forall v :: !LeadsTo(p, read, v)
    ensures Resolve(show, p, field) == []
  {
    hide LoosePath, Candidate;
    var whole := p[read.attr];
    assert !LeadsTo(p, read, whole);
    if whole.Arr? && read.index.Some? && 1 <= read.index.value <= |whole.items| {
      var v := whole.items[read.index.value - 1];
      assert !LeadsTo(p, read, v);
      if read.sub.Some? { NoSubField(p, read, v, read.sub.value); }
    } else if whole.Arr? && |whole.items| == 1 && read.sub.Some? {
      assert whole == Arr([whole.items[0]]);
      NoSubField(p, read, whole.items[0], read.sub.value);
    } else if read.sub.Some? {
      NoSubField(p, read, whole, read.sub.value);
    }
  }

  lemma NoSubField(p: Product, read: Path, v: Json, sub: string)
    requires forall inner :: !LeadsTo(p, read, inner)
    ensures v.Obj? && sub in v.fields ==> !LeadsTo(p, read, v.fields[sub]) && FieldOf(v, sub, v.fields[sub])
  {
  }

  lemma OffersOneList(p: Product, path: Path, a: seq<Json>, b: seq<Json>)
    requires Offers(p, path, a) && Offers(p, path, b)
    ensures a == b
  {
  }

  lemma FirstIsFirst(show: Json -> string, items: seq<Json>, texts: seq<string>, text: string)
    requires TextsOf(show, items, texts) && FirstOf(show, items, text)
    ensures texts != [] && texts[0] == text
  {
    hide IsBlank;
    var i: nat :| i < |items| && ReadsAsText(show, items[i], text) && forall j: nat | j < i :: IsBlank(items[j]);
    assert items[i] in items;
    assert text in texts;
    var k: nat :| k < |items| && ReadsAsText(show, items[k], texts[0]) && forall j: nat | j < k :: IsBlank(items[j]);
    assert !IsBlank(items[i]) && !IsBlank(items[k]);
  }

  /** The texts a path resolves to are those of the values it offers, and the first of them is that
      of the first value that is not blank. */
  lemma ResolveIff(show: Json -> string, p: Product, field: string)
    ensures forall text :: text in Resolve(show, p, field) <==> HasText(show, p, field, text)
    ensures forall text ::
      Resolve(show, p, field) != [] && Resolve(show, p, field)[0] == text <==> HasFirstText(show, p, field, text)
  {
    hide LoosePath, Offers, Resolve, Reads, FirstOf, ReadsAsText;
    var parsed := LoosePath(field);
    if parsed.None? {
      NothingOffered(p, field);
      NothingResolved(show, p, field);
    } else {
      OfferedOnce(p, field, parsed.value);
      if items :| Offers(p, parsed.value, items) {
        OfferedTexts(show, p, field, parsed.value, items);
        forall other | Reads(p, field, other) ensures other == items { OffersOneList(p, parsed.value, items, other); }
        assert Reads(p, field, items);
        forall text | FirstOf(show, items, text) ensures Resolve(show, p, field) != []
          && Resolve(show, p, field)[0] == text
        {
          FirstIsFirst(show, items, Resolve(show, p, field), text);
        }
      } else {
        UnofferedIsEmpty(show, p, field, parsed.value);
      }
    }
  }

  lemma NothingResolved(show: Json -> string, p: Product, field: string)
    requires LoosePath(field).None?
    ensures Resolve(show, p, field) == []
  {
  }

  // ----- Rendered templates -----

  /** What takes the place of a segment. */
  ghost predicate StandsFor(show: Json -> string, p: Product, g: Segment, text: string) {
    match g
    case Lit(literal) => text == literal
    case Tok(path) => HasFirstText(show, p, path, text)
  }

  ghost predicate Pieces(show: Json -> string, segments: seq<Segment>, p: Product, texts: seq<string>) {
    |texts| == |segments| && forall i :: 0 <= i < |segments| ==> StandsFor(show, p, segments[i], texts[i])
  }

  /** The text is the concatenation of what the segments stand for. */
  ghost predicate RendersTo(show: Json -> string, segments: seq<Segment>, p: Product, text: string) {
    exists texts :: Pieces(show, segments, p, texts) && text == Concat(texts)
  }

  lemma {:induction false} PiecesRender(
    show: Json -> string, segments: seq<Segment>, p: Product, texts: seq<string>)
    requires Pieces(show, segments, p, texts)
    ensures Render(show, segments, p) == Some(Concat(texts))
  {
    hide Resolve, HasFirstText;
    if segments != [] {
      var n := |segments| - 1;
      PiecesRender(show, segments[..n], p, texts[..n]);
      assert texts == texts[..n] + [texts[n]];
      ConcatOneMore(texts[..n], texts[n]);
      if segments[n].Tok? { ResolveIff(show, p, segments[n].path); }
    }
  }

  lemma {:induction false} RenderedPieces(show: Json -> string, segments: seq<Segment>, p: Product)
    returns (texts: seq<string>)
    requires Render(show, segments, p).Some?
    ensures Pieces(show, segments, p, texts)
  {
    hide Resolve, HasFirstText;
    if segments == [] {
      texts := [];
    } else {
      var last := segments[|segments| - 1];
      var before := RenderedPieces(show, segments[..|segments| - 1], p);
      if last.Tok? { ResolveIff(show, p, last.path); }
      texts := before + [if last.Lit? then last.text else Resolve(show, p, last.path)[0]];
    }
  }

  /** Rendering gives the concatenation, and nothing exactly when some token has no text. */
  lemma RendersIff(show: Json -> string, segments: seq<Segment>, p: Product, text: string)
    ensures Render(show, segments, p) == Some(text) <==> RendersTo(show, segments, p, text)
  {
    hide Render, Pieces, Concat;
    if Render(show, segments, p).Some? {
      var texts := RenderedPieces(show, segments, p);
      PiecesRender(show, segments, p, texts);
    }
    if RendersTo(show, segments, p, text) {
      var texts :| Pieces(show, segments, p, texts) && text == Concat(texts);
      PiecesRender(show, segments, p, texts);
    }
  }
}
