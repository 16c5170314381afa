/** What stripping derived keys leaves of a value, place by place. */
module DerivedKeys {
  import opened Hashing

  datatype Step = Key(key: string) | Index(i: nat)

  /** A value without what is inside it: the length of a list, and just that a dictionary is one. */
  datatype Outline = Missing | Leaf(v: Json) | List(length: nat) | Dictionary

  /** What is found by following keys and list positions. */
  function OutlineAt(v: Json, path: seq<Step>): Outline
    decreases |path|
  {
    if path == [] then
      match v
      case Arr(items) => List(|items|)
      case Obj(_) => Dictionary
      case _ => Leaf(v)
    else
      match path[0]
      case Key(key) => if v.Obj? && key in v.fields then OutlineAt(v.fields[key], path[1..]) else Missing
      case Index(i) => if v.Arr? && i < |v.items| then OutlineAt(v.items[i], path[1..]) else Missing
  }

  /** Stripping leaves everything in its place that is not under a derived key, at any depth. */
  lemma {:induction false} StrippedAt(v: Json, path: seq<Step>)
    ensures OutlineAt(StripDerived(v), path) ==
      if exists step :: step in path && step.Key? && Derived(step.key) then Missing else OutlineAt(v, path)
    decreases |path|
  {
    if path != [] {
      var rest := path[1..];
      assert path == [path[0]] + rest;
      assert (exists step :: step in path && step.Key? && Derived(step.key)) <==>
        (path[0].Key? && Derived(path[0].key)) || exists step :: step in rest && step.Key? && Derived(step.key);
      match path[0]
      case Key(key) => if v.Obj? && key in v.fields { StrippedAt(v.fields[key], rest); }
      case Index(i) => if v.Arr? && i < |v.items| { StrippedAt(v.items[i], rest); }
    }
  }
}
