/** Value types shared by every module of the model. */
module Types {

  /** One octet, as held in a JavaScript `Uint8Array`. */
  newtype byte = x: int | 0 <= x < 256

  /**
   * A value that may be absent: JavaScript `null` or `undefined`, or the
   * `null` a `catch` turns a thrown error into. `:-` on it stops at the
   * first absent value, as the source's `try` blocks stop at the first throw.
   */
  datatype Option<+T> = None | Some(value: T) {
    // The three members `:-` needs.
    predicate IsFailure() { None? }
    function PropagateFailure<U>(): Option<U> requires None? { None }
    function Extract(): T requires Some? { value }

    /** `x == null ? null : f(x)`. */
    function Map<U>(f: T -> U): Option<U>
    {
      if None? then None else Some(f(value))
    }
  }

  function Max(a: int, b: int): int { if a < b then b else a }

  function Min(a: int, b: int): int { if a < b then a else b }

  /** A non-empty sequence is its front followed by its last element. */
  lemma FrontLast<T>(s: seq<T>)
    requires |s| > 0
    ensures s == s[..|s| - 1] + [s[|s| - 1]]
  {}
}
