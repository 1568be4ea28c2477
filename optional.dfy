/** Optional values and Python truthiness of optional strings.

    The wrapper reads values that may be missing (`args.host`, `os.getenv(...)`,
    the marker returned by the pairing routine) and tests them with a bare
    `if value:`. In Python both `None` and the empty string are false there.
 */
module Optional {

  datatype Option<+T> = None | Some(value: T)

  /** `bool(value)` for a value of type `Optional[str]`: present and non-empty. */
  predicate Truthy(o: Option<string>)
  {
    o.Some? && o.value != ""
  }
}
