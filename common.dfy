/** Values shared by every part of the conversion engine: the two ways a call
    can end (a value or an error), the errors the engine raises, and sequence
    reversal, which both digit-producing loops use to turn their
    least-significant-first output around. */
module Common {

  datatype Option<T> = None | Some(value: T)

  /** The two exception classes the engine raises: the converter's own
      InvalidConversionError (naming both bases and the offending text) and
      Python's ValueError with its message. */
  datatype Error =
    | InvalidConversion(fromBase: int, toBase: int, n: string)
    | ValueError(message: string)

  datatype Result<T> = Ok(value: T) | Err(error: Error)

  /** s read backwards, as Python's s[::-1] */
  function Reverse<T>(s: seq<T>): (r: seq<T>)
    ensures |r| == |s|
    ensures forall i :: 0 <= i < |s| ==> r[i] == s[|s| - 1 - i]
  {
    if s == [] then [] else [s[|s| - 1]] + Reverse(s[..|s| - 1])
  }

  /** Appending to a sequence prepends to its reversal. */
  lemma ReverseAppend<T>(s: seq<T>, x: T)
    ensures Reverse(s + [x]) == [x] + Reverse(s)
  {
    assert (s + [x])[..|s|] == s;
  }
}
