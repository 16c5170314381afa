/** Where a path leads in a product, as the plugins read it. */
module PathValues {
  import opened Hashing
  import opened IndexedPath
  import opened Wrappers

  ghost predicate FieldOf(v: Json, sub: string, inner: Json) {
    v.Obj? && sub in v.fields && v.fields[sub] == inner
  }

  /** A bare sub-field is also that of the only item of a list. */
  ghost predicate LeadsTo(p: map<string, Json>, path: Path, v: Json) {
    path.attr in p &&
    var whole, n := p[path.attr], path.index;
    && (n.Some? ==> whole.Arr? && n.value <= |whole.items|)
    && match (n, path.sub)
       case (None, None) => v == whole
       case (None, Some(sub)) => FieldOf(whole, sub, v) || exists item :: whole == Arr([item]) && FieldOf(item, sub, v)
       case (Some(i), None) => i >= 1 && v == whole.items[i - 1]
       case (Some(i), Some(sub)) => i >= 1 && FieldOf(whole.items[i - 1], sub, v)
  }
}
