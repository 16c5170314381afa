/** Value templates of custom labels: literal text with {attribute} and {attribute.sub} tokens. */
module LabelTemplates {
  import opened Hashing
  import opened IndexedPath
  import opened Wrappers

  type Product = map<string, Json>

  datatype Segment = Lit(text: string) | Tok(path: string)

  predicate IsWord(c: char) {
    'a' <= c <= 'z' || 'A' <= c <= 'Z' || '0' <= c <= '9' || c == '_'
  }

  /** The length of the longest run of word characters at the front. */
  function WordLength(s: string): nat {
    if s != "" && IsWord(s[0]) then 1 + WordLength(s[1..]) else 0
  }

  predicate CharAt(s: string, i: nat, c: char) {
    i < |s| && s[i] == c
  }

  /** The length of the token at the front, if there is one. */
  function TokenLength(s: string): Option<nat> {
    if !CharAt(s, 0, '{') then None
    else
      var a := WordLength(s[1..]);
      if a == 0 then None
      else if CharAt(s, 1 + a, '}') then Some(a + 2)
      else if !CharAt(s, 1 + a, '.') then None
      else
        var b := WordLength(s[a + 2..]);
        if b > 0 && CharAt(s, a + 2 + b, '}') then Some(a + b + 3) else None
  }

  lemma TokenLengthBounds(s: string)
    ensures TokenLength(s).Some? ==>
      3 <= TokenLength(s).value <= |s| && s[0] == '{' && s[TokenLength(s).value - 1] == '}'
  {
  }

  function Pending(literal: string): seq<Segment> {
    if literal == "" then [] else [Lit(literal)]
  }

  /** The segments of `s` after the unfinished literal `literal`. */
  function CompileFrom(s: string, literal: string): seq<Segment>
    decreases |s|
  {
    TokenLengthBounds(s);
    if s == "" then Pending(literal)
    else if TokenLength(s).Some? then
      var n := TokenLength(s).value;
      Pending(literal) + [Tok(s[1..n - 1])] + CompileFrom(s[n..], "")
    else CompileFrom(s[1..], literal + [s[0]])
  }

  function Compile(template: string): seq<Segment> {
    CompileFrom(template, "")
  }

  function SegmentText(g: Segment): string {
    match g
    case Lit(text) => text
    case Tok(path) => "{" + path + "}"
  }

  function Source(segments: seq<Segment>): string {
    if segments == [] then "" else SegmentText(segments[0]) + Source(segments[1..])
  }

  lemma {:induction false} SourceOfConcat(a: seq<Segment>, b: seq<Segment>)
    ensures Source(a + b) == Source(a) + Source(b)
  {
    if a == [] {
      assert a + b == b;
    } else {
      assert (a + b)[1..] == a[1..] + b;
      SourceOfConcat(a[1..], b);
    }
  }

  /** Compiling loses nothing: the segments print as the template, and no literal is empty. */
  lemma {:induction false} CompileRoundTrip(s: string, literal: string)
    ensures Source(CompileFrom(s, literal)) == literal + s
    ensures forall i :: 0 <= i < |CompileFrom(s, literal)| ==>
      CompileFrom(s, literal)[i].Lit? ==> CompileFrom(s, literal)[i].text != ""
    decreases |s|
  {
    hide TokenLength, Source;
    TokenLengthBounds(s);
    SourceOfPending(literal);
    if s == "" {
      assert literal + s == literal;
    } else if TokenLength(s).Some? {
      CompileRoundTrip(s[TokenLength(s).value..], "");
      SourceOfToken(s, literal, TokenLength(s).value, CompileFrom(s[TokenLength(s).value..], ""));
    } else {
      CompileRoundTrip(s[1..], literal + [s[0]]);
      assert literal + [s[0]] + s[1..] == literal + s;
    }
  }

  lemma SourceOfToken(s: string, literal: string, n: nat, rest: seq<Segment>)
    requires 3 <= n <= |s| && s[0] == '{' && s[n - 1] == '}' && Source(rest) == "" + s[n..]
    ensures Source(Pending(literal) + [Tok(s[1..n - 1])] + rest) == literal + s
  {
    hide Source, SegmentText;
    var token := [Tok(s[1..n - 1])];
    SourceOfPending(literal);
    SourceOfConcat(Pending(literal) + token, rest);
    SourceOfConcat(Pending(literal), token);
    OneSegment(token[0]);
    TokenText(s, n);
    assert s[..n] + s[n..] == s;
    assert literal + s[..n] + s[n..] == literal + s;
  }

  lemma OneSegment(g: Segment)
    ensures Source([g]) == SegmentText(g)
  {
    assert [g][1..] == [];
  }

  lemma TokenText(s: string, n: nat)
    requires 3 <= n <= |s| && s[0] == '{' && s[n - 1] == '}'
    ensures SegmentText(Tok(s[1..n - 1])) == s[..n]
  {
    assert s[..1] == "{" && s[n - 1..n] == "}";
    assert s[..1] + s[1..n - 1] + s[n - 1..n] == s[..n];
  }

  lemma SourceOfPending(literal: string)
    ensures Source(Pending(literal)) == literal
  {
    if literal != "" { assert [Lit(literal)][1..] == []; }
  }

  lemma CompileAtToken(t: string, start: nat, i: nat)
    requires start <= i <= |t| && TokenLength(t[i..]).Some?
    ensures
      var n := TokenLength(t[i..]).value;
      && 3 <= n <= |t| - i
      && CompileFrom(t[i..], t[start..i]) ==
        Pending(t[start..i]) + [Tok(t[i + 1..i + n - 1])] + CompileFrom(t[i + n..], "")
  {
    hide TokenLength;
    var rest, n := t[i..], TokenLength(t[i..]).value;
    TokenLengthBounds(rest);
    assert rest[1..n - 1] == t[i + 1..i + n - 1] && rest[n..] == t[i + n..];
  }

  lemma CompileAtChar(t: string, start: nat, i: nat)
    requires start <= i < |t| && TokenLength(t[i..]).None?
    ensures CompileFrom(t[i..], t[start..i]) == CompileFrom(t[i + 1..], t[start..i + 1])
  {
    hide TokenLength;
    var rest := t[i..];
    assert rest[1..] == t[i + 1..] && t[start..i] + [rest[0]] == t[start..i + 1];
  }

  lemma CompileAtEnd(literal: string)
    ensures CompileFrom("", literal) == Pending(literal)
  {
  }

  method CompileTemplate(template: string) returns (segments: seq<Segment>)
    ensures segments == Compile(template)
  {
    hide TokenLength, CompileFrom;
    segments := [];
    var start, i := 0, 0;
    assert template[0..] == template;
    while i < |template|
      invariant 0 <= start <= i <= |template|
      invariant segments + CompileFrom(template[i..], template[start..i]) == Compile(template)
    {
      var token := TokenLength(template[i..]);
      if token.Some? {
        var n := token.value;
        CompileAtToken(template, start, i);
        if i > start { segments := segments + [Lit(template[start..i])]; }
        segments := segments + [Tok(template[i + 1..i + n - 1])];
        start, i := i + n, i + n;
        assert template[start..i] == "";
      } else {
        CompileAtChar(template, start, i);
        i := i + 1;
      }
    }
    assert template[i..] == "" && template[start..i] == template[start..];
    CompileAtEnd(template[start..]);
    if start < |template| { segments := segments + [Lit(template[start..])]; }
  }

  // ----- Values of a path -----

  function Text(show: Json -> string, v: Json): string {
    if v.Str? then v.text else show(v)
  }

  /** One value, unless it is null or an empty text. */
  function Candidate(show: Json -> string, v: Json): seq<string> {
    if v == Null || v == Str("") then [] else [Text(show, v)]
  }

  function CandidateOf(show: Json -> string, v: Json, sub: string): seq<string> {
    if v.Obj? && sub in v.fields then Candidate(show, v.fields[sub]) else []
  }

  function Candidates(show: Json -> string, items: seq<Json>): seq<string> {
    if items == [] then [] else Candidate(show, items[0]) + Candidates(show, items[1..])
  }

  /** `resolve_path`: the candidate texts of an attribute path. `show` is Python's `str` of a value
      that is no string. */
  function Resolve(show: Json -> string, p: Product, path: string): seq<string> {
    var parsed := LoosePath(path);
    if parsed.None? || parsed.value.attr !in p || p[parsed.value.attr] == Null then []
    else
      var v, index, sub := p[parsed.value.attr], parsed.value.index, parsed.value.sub;
      if index.Some? then
        if !v.Arr? || |v.items| < index.value || index.value < 1 then []
        else if sub.None? then Candidate(show, v.items[index.value - 1])
        else CandidateOf(show, v.items[index.value - 1], sub.value)
      else if sub.Some? && sub.value != "" then
        if v.Arr? then (if |v.items| == 1 then CandidateOf(show, v.items[0], sub.value) else [])
        else CandidateOf(show, v, sub.value)
      else if v.Arr? then Candidates(show, v.items)
      else Candidate(show, v)
  }

  /** Python prints no JSON value but a string as the empty text. */
  ghost predicate PrintsSomething(show: Json -> string) {
    forall v :: show(v) != ""
  }

  lemma {:induction false} CandidatesAreNotEmpty(show: Json -> string, items: seq<Json>)
    requires PrintsSomething(show)
    ensures "" !in Candidates(show, items)
  {
    if items != [] { CandidatesAreNotEmpty(show, items[1..]); }
  }

  lemma ResolvesToSomething(show: Json -> string, p: Product, path: string)
    requires PrintsSomething(show)
    ensures "" !in Resolve(show, p, path)
  {
    var parsed := LoosePath(path);
    if parsed.Some? && parsed.value.attr in p && p[parsed.value.attr].Arr? {
      CandidatesAreNotEmpty(show, p[parsed.value.attr].items);
    }
  }

  /** None when a token has no value: the rule is skipped. */
  function Render(show: Json -> string, segments: seq<Segment>, p: Product): Option<string> {
    if segments == [] then Some("")
    else
      var before, last := Render(show, segments[..|segments| - 1], p), segments[|segments| - 1];
      if before.None? then None
      else
        match last
        case Lit(text) => Some(before.value + text)
        case Tok(path) =>
          var values := Resolve(show, p, path);
          if values == [] then None else Some(before.value + values[0])
  }

  method RenderTemplate(show: Json -> string, segments: seq<Segment>, p: Product) returns (text: Option<string>)
    ensures text == Render(show, segments, p)
  {
    hide Resolve;
    var parts := "";
    for i := 0 to |segments|
      invariant Render(show, segments[..i], p) == Some(parts)
    {
      assert segments[..i + 1][..i] == segments[..i];
      match segments[i] {
        case Lit(t) => parts := parts + t;
        case Tok(path) =>
          var values := Resolve(show, p, path);
          if values == [] {
            StaysSkipped(show, segments, p, i + 1);
            return None;
          }
          parts := parts + values[0];
      }
    }
    assert segments[..|segments|] == segments;
    text := Some(parts);
  }

  lemma {:induction false} StaysSkipped(show: Json -> string, segments: seq<Segment>, p: Product, n: nat)
    requires n <= |segments| && Render(show, segments[..n], p).None?
    ensures Render(show, segments, p).None?
    decreases |segments| - n
  {
    hide Resolve;
    if n < |segments| {
      assert segments[..n + 1][..n] == segments[..n];
      StaysSkipped(show, segments, p, n + 1);
    } else {
      assert segments[..n] == segments;
    }
  }

  lemma {:induction false} RendersEachSegment(show: Json -> string, segments: seq<Segment>, p: Product)
    requires PrintsSomething(show) && Render(show, segments, p).Some?
    requires forall i :: 0 <= i < |segments| ==> segments[i].Lit? ==> segments[i].text != ""
    ensures |Render(show, segments, p).value| >= |segments|
  {
    hide Resolve;
    if segments != [] {
      var last := segments[|segments| - 1];
      RendersEachSegment(show, segments[..|segments| - 1], p);
      if last.Tok? { ResolvesToSomething(show, p, last.path); }
    }
  }

  /** A template that is rendered at all is rendered empty exactly when it is empty. */
  lemma RendersEmptyIff(show: Json -> string, template: string, p: Product)
    requires PrintsSomething(show) && Render(show, Compile(template), p).Some?
    ensures Render(show, Compile(template), p) == Some("") <==> template == ""
  {
    CompileRoundTrip(template, "");
    assert "" + template == template;
    RendersEachSegment(show, Compile(template), p);
  }
}
