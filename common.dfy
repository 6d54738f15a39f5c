/** Small failure-carrying wrappers shared by the other modules. */
module Common {

  /** A value that may be absent: an SQL NULL column, a `false` return. */
  datatype Option<+T> = None | Some(value: T)

  /** The outcome of an operation that either yields a value or fails. */
  datatype Result<+T, +E> = Ok(value: T) | Err(error: E)

  /** PHP's falsy strings: `!$s` and `if ($s)` treat exactly these as false. */
  predicate Falsy(s: string)
  {
    s == "" || s == "0"
  }

  /** Regrouping a concatenation, stated once so that proofs can cite it instead of searching for it. */
  lemma ConcatAssoc(a: string, b: string, c: string)
    ensures a + b + c == a + (b + c)
  {
  }
}
