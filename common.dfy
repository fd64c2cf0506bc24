/**
 * Vocabulary shared by every part of the solver: words, feedback masks and
 * the exceptions the Python code raises on the paths the model keeps.
 */
module Common {

  /** A dictionary or answer-list entry. */
  type Word = string

  /**
   * A feedback mask, one mark per letter: 0 (absent), 1 (present
   * elsewhere), 2 (correct). The source stores a plain list of ints and
   * never checks the range, so the type does not either.
   */
  type Mask = seq<int>

  datatype Option<T> = None | Some(value: T)

  /** The Python exceptions that the modelled code lets escape. */
  datatype Error =
    | KeyError
    | ValueError
    | IndexError
    | TypeError
    | AttributeError
    | StopIteration

  datatype Result<T> = Ok(value: T) | Err(error: Error)

  /** Python's bool as a number (False < True), used inside sort keys. */
  function Flag(b: bool): real
  {
    if b then 1.0 else 0.0
  }
}
