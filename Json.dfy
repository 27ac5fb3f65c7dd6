/** The decoded JSON values the OCR service returns: what Python's `json`
    module yields as `dict`, `list`, `str`, number, `bool` and `None`. */
module Json {

  /** A JSON value. An object keeps its fields in insertion order, as a
      Python `dict` does; a number is one numeric type, so `1` and `1.0`
      are the same value. */
  datatype JsonValue =
    | Null
    | Bool(b: bool)
    | Num(n: real)
    | Str(s: string)
    | Object(fields: seq<Field>)
    | Array(items: seq<JsonValue>)

  datatype Field = Field(name: string, value: JsonValue)

  /** Anything that is neither a `dict` nor a `list`. */
  predicate IsScalar(v: JsonValue)
  {
    !v.Object? && !v.Array?
  }
}
