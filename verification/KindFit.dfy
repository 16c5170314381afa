/** Which kinds of attribute take every value of a kind of source: the tables of the matcher and the
    validator against what the mapping does with values. */
module KindFit {
  import opened AttributeKinds
  import opened Hashing
  import opened Mapping
  import opened MappingLaws
  import opened FieldMapping

  /** The values a source of a kind has. */
  ghost predicate Shaped(kind: Kind, value: Json) {
    match kind
    case Scalar => value.Str?
    case RepeatedScalar => value.Arr? && AllTexts(value.items)
    case Structured => value.Obj?
    case RepeatedStructured => value.Arr? && AllObjects(value.items)
  }

  ghost predicate Taken(kind: Kind, value: Json) {
    exists subs, w :: Fits(Attribute(kind, subs), value, w)
  }

  /** Every value of the source kind fits an attribute of the target kind. */
  ghost predicate KindFits(source: Kind, target: Kind) {
    forall value :: Shaped(source, value) ==> Taken(target, value)
  }

  /** Every value that a sub-field of some source of the kind yields does. */
  ghost predicate SubKindFits(source: Kind, target: Kind) {
    forall parent, sub, value :: Shaped(source, parent) && Yields(parent, sub, value) ==> Taken(target, value)
  }

  lemma TakenIff(kind: Kind, value: Json)
    ensures Taken(kind, value) <==>
      match kind
      case Scalar => value.Str?
      case RepeatedScalar => value.Str? || (value.Arr? && AllTexts(value.items))
      case Structured => value.Obj?
      case RepeatedStructured => value.Obj? || (value.Arr? && AllObjects(value.items))
  {
    forall subs, w | Fits(Attribute(kind, subs), value, w)
      ensures WholeEffect(Attribute(kind, subs), map[], "", value).1
    {
      WholeEffectIs(Attribute(kind, subs), map[], "", value);
    }
    var (q, ok) := WholeEffect(Attribute(kind, []), map[], "", value);
    WholeEffectIs(Attribute(kind, []), map[], "", value);
    if ok { assert Fits(Attribute(kind, []), value, q[""]); }
  }

  /** The table of compatible kinds lists exactly these. */
  lemma CompatibleIff(source: Kind, target: Kind)
    ensures Compatible(source, target) <==> KindFits(source, target)
  {
    hide Taken;
    forall value ensures Taken(target, value) <==>
      match target
      case Scalar => value.Str?
      case RepeatedScalar => value.Str? || (value.Arr? && AllTexts(value.items))
      case Structured => value.Obj?
      case RepeatedStructured => value.Obj? || (value.Arr? && AllObjects(value.items))
    {
      TakenIff(target, value);
    }
    if !Compatible(source, target) {
      var value := Example(source);
      assert value.Arr? ==> !(value.items[0].Obj? && value.items[0].Str?);
      assert Shaped(source, value) && !Taken(target, value);
    }
  }

  function Example(kind: Kind): Json {
    match kind
    case Scalar => Str("x")
    case RepeatedScalar => Arr([Str("x")])
    case Structured => Obj(map[])
    case RepeatedStructured => Arr([Obj(map[])])
  }

  /** For the sub-fields of a structured source the effective kind stands in. */
  lemma CompatibleSubIff(source: Kind, target: Kind)
    requires TakesSubFields(source)
    ensures Compatible(Effective(source), target) <==> SubKindFits(source, target)
  {
    hide Taken, Yields;
    forall value ensures Taken(target, value) <==>
      match target
      case Scalar => value.Str?
      case RepeatedScalar => value.Str? || (value.Arr? && AllTexts(value.items))
      case Structured => value.Obj?
      case RepeatedStructured => value.Obj? || (value.Arr? && AllObjects(value.items))
    {
      TakenIff(target, value);
    }
    forall parent, sub, value | Shaped(source, parent) && Yields(parent, sub, value)
      ensures value.Str? || (source.RepeatedStructured? && value.Arr? && AllTexts(value.items))
    {
      YieldsTexts(source, parent, sub, value);
    }
    if !Compatible(Effective(source), target) { SubExample(source, target); }
  }

  lemma YieldsTexts(source: Kind, parent: Json, sub: string, value: Json)
    requires TakesSubFields(source) && Shaped(source, parent) && Yields(parent, sub, value)
    ensures value.Str? || (source.RepeatedStructured? && value.Arr? && AllTexts(value.items))
  {
  }

  lemma SubExample(source: Kind, target: Kind)
    requires TakesSubFields(source) && !Compatible(Effective(source), target)
    ensures exists parent, sub, value :: Shaped(source, parent) && Yields(parent, sub, value) && !Taken(target, value)
  {
    hide Taken;
    var item := Obj(map["s" := Str("x")]);
    if source.Structured? {
      TakenIff(target, Str("x"));
      assert Yields(item, "s", Str("x"));
    } else {
      var parent, ts := Arr([item, item]), [Str("x"), Str("x")];
      TakenIff(target, Arr(ts));
      assert forall i :: 0 <= i < |ts| ==> TextOf(parent.items[i], "s", ts[i]);
      assert ts[0] != Str("") && Yields(parent, "s", Arr(ts));
    }
  }

  /** Sub-fields can be targets exactly of attributes that take a text there. */
  lemma TakesSubFieldsIff(kind: Kind, subs: seq<string>, text: string)
    ensures TakesSubFields(kind) <==> FitsSub(Attribute(kind, subs), Str(text))
  {
  }
}
