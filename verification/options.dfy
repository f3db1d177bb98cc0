/** Python's `None` as a value: a missing dict key, a missing header, a
    missing query parameter. */
module Options {

  datatype Option<T> = None | Some(value: T)

  /** `o` when it holds a value, `fallback` when it is `None`. */
  function ValueOr<T>(o: Option<T>, fallback: T): T {
    if o.Some? then o.value else fallback
  }

  /** Python truthiness of an optional string: `None` and `""` are falsy. */
  predicate Truthy(s: Option<string>) {
    s.Some? && s.value != ""
  }
}
