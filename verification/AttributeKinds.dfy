/** The four kinds of registry attribute. */
module AttributeKinds {

  datatype Kind = Scalar | RepeatedScalar | Structured | RepeatedStructured
}
