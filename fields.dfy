/** Value shapes shared by the record models: optional field values, the
    outcome of a write-time validation, and the truthiness test the record
    layer applies to a character field. */
module Fields {

  /** A field that may be unset (missing from the values, or False). */
  datatype Option<+T> = None | Some(value: T)

  /** The outcome of a write-time check: it passes, or it raises a
      validation error of kind E. */
  datatype Outcome<+E> = Pass | Fail(error: E)

  /** A character field is truthy when it is set and not the empty string. */
  predicate Truthy(s: Option<string>)
  {
    s.Some? && s.value != ""
  }
}
