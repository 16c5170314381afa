/** Content hashing of JSON values: keys that start with an underscore are derived
    data and never take part in a hash. */
module Hashing {

  /** A parsed JSON value. Numbers keep the text they are printed as. */
  datatype Json =
    | Null
    | Bool(flag: bool)
    | Num(lexeme: string)
    | Str(text: string)
    | Arr(items: seq<Json>)
    | Obj(fields: map<string, Json>)

  /** The digest of a canonical JSON text. Two texts are equal exactly when the values
      they print are, so the digest carries the value: hashing is collision free. */
  datatype Digest = Digest(canonical: Json)

  predicate Derived(key: string) {
    |key| > 0 && key[0] == '_'
  }

  function StripDerived(v: Json): Json {
    match v
    case Obj(fields) => Obj(map key | key in fields && !Derived(key) :: StripDerived(fields[key]))
    case Arr(items) => Arr(seq(|items|, i requires 0 <= i < |items| => StripDerived(items[i])))
    case _ => v
  }

  function ContentHash(v: Json): Digest {
    Digest(StripDerived(v))
  }

  /** No derived key at any depth. */
  predicate Plain(v: Json) {
    match v
    case Obj(fields) => forall key :: key in fields ==> !Derived(key) && Plain(fields[key])
    case Arr(items) => forall i :: 0 <= i < |items| ==> Plain(items[i])
    case _ => true
  }

  /** Stripping removes every derived key, and nothing else is left for it to remove. */
  lemma {:induction false} StripYieldsPlain(v: Json)
    ensures Plain(StripDerived(v))
  {
    match v
    case Obj(fields) =>
      forall key | key in fields { StripYieldsPlain(fields[key]); }
    case Arr(items) =>
      forall i | 0 <= i < |items| { StripYieldsPlain(items[i]); }
    case _ =>
  }

  lemma {:induction false} StripKeepsPlain(v: Json)
    requires Plain(v)
    ensures StripDerived(v) == v
  {
    match v
    case Obj(fields) =>
      forall key | key in fields { StripKeepsPlain(fields[key]); }
      assert StripDerived(v).fields == fields;
    case Arr(items) =>
      forall i | 0 <= i < |items| { StripKeepsPlain(items[i]); }
      assert StripDerived(v).items == items;
    case _ =>
  }

  /** A value is its own canonical form exactly when it carries no derived key. */
  lemma {:induction false} PlainIffFixedByStrip(v: Json)
    ensures Plain(v) <==> StripDerived(v) == v
  {
    StripYieldsPlain(v);
    if Plain(v) { StripKeepsPlain(v); }
  }

  /** On values without derived keys the content hash identifies the value. */
  lemma HashIdentifiesPlainValues(v: Json, w: Json)
    requires Plain(v) && Plain(w)
    ensures ContentHash(v) == ContentHash(w) <==> v == w
  {
    StripKeepsPlain(v);
    StripKeepsPlain(w);
  }
}
