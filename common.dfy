/** Shared vocabulary of the news bot model: text, optional values and the
    similarity score that both deduplication points compare against 0.3. */
module Common {

  /** Python `str`: a sequence of Unicode code points. */
  type Text = string

  /** `None` stands for Python's `None` (an element not found, a failed call). */
  datatype Option<+T> = None | Some(value: T) {
    function GetOr(default: T): T {
      match this
      case Some(v) => v
      case None => default
    }
  }

  /** `similarity(a, b)`, the ratio of `difflib.SequenceMatcher`. Its body is a
      floating-point library routine, so the model takes it as a parameter and
      relies on no property of it (not even symmetry). */
  type Similarity = (Text, Text) -> real

  /** Two texts whose similarity is above this are duplicates. */
  const Threshold: real := 0.3
}
