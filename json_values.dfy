/** The shapes of the decoded JSON values that the booking logic inspects. A key that may be
    missing from a JSON object is an `Option`. */
module JsonValues {

  datatype Option<+T> = None | Some(value: T)

  /** A scalar JSON value, as Python holds it after decoding: `None`, a bool, an int or a str.
      Python treats `True` as equal to `1`, and a str is never equal to an int. */
  datatype Scalar = Null | Bool(b: bool) | Int(i: int) | Str(s: string)

  /** Python's `v == 1` for a value read with `dict.get`, where a missing key reads as `None`. */
  predicate EqualsOne(v: Option<Scalar>) {
    v == Some(Int(1)) || v == Some(Bool(true))
  }

  /** Python's truthiness of an optional string: `None` and `""` are falsy. */
  predicate Truthy(v: Option<string>) {
    v.Some? && v.value != ""
  }
}
