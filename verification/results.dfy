/** Failure-carrying values shared by the model.

    The report generator has exactly one way to fail inside the modelled
    core: a Python `IndexError`, raised when a table cell or a slide
    position that the code addresses does not exist.  Such an error ends
    the run before anything is saved, so the model only needs to know
    that it happened, not where.
 */
module Results {

  /** A value that may be missing, such as the two halves of a note that
      has no colon to split at. */
  datatype Option<+T> = None | Some(value: T)

  /** Either the value an operation produced, or the `IndexError` that
      aborted the run. */
  datatype Result<+T> = Ok(value: T) | IndexError
}
