/** Optional request fields and the JavaScript notion of a "missing" field. */
module Wrappers {

  datatype Option<+T> = None | Some(value: T)

  /** A string field is missing when it is absent or empty (both are falsy in JavaScript). */
  predicate Missing(field: Option<string>)
  {
    field.None? || |field.value| == 0
  }

  /** The missing string fields are exactly the falsy ones: `undefined` and `""`. */
  lemma MissingIffFalsy(field: Option<string>)
    ensures Missing(field) <==> field == None || field == Some("")
  {
  }
}
