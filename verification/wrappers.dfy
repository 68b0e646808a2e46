/** Failure-compatible wrapper used wherever the rental system searches a
    list and may come back empty-handed, or parses input that may be malformed. */
module Wrappers {

  /** `Some(value)` when a search succeeds, `None` in place of Java's `null`. */
  datatype Option<+T> = None | Some(value: T)
}
