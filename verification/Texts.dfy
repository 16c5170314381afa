/** Fronts and ends of texts, and texts put together. */
module Texts {

  predicate StartsWith(s: string, prefix: string) {
    |prefix| <= |s| && s[..|prefix|] == prefix
  }

  predicate EndsWith(s: string, suffix: string) {
    |suffix| <= |s| && s[|s| - |suffix|..] == suffix
  }

  function Concat(texts: seq<string>): string {
    if texts == [] then "" else texts[0] + Concat(texts[1..])
  }

  lemma {:induction false} ConcatOneMore(texts: seq<string>, text: string)
    ensures Concat(texts + [text]) == Concat(texts) + text
  {
    if texts == [] {
      assert [text][1..] == [] && texts + [text] == [text];
    } else {
      assert (texts + [text])[1..] == texts[1..] + [text];
      ConcatOneMore(texts[1..], text);
    }
  }
}
