/**
 * Error kinds and the success-or-error results returned by every decoder of
 * the regf block codec.
 */
module Results {

  /** What can go wrong while decoding a hive buffer. */
  datatype Error =
      /** The buffer is empty or its length is not a multiple of 8 (ErrInvalidBlock). */
    | InvalidBlock
      /** A fixed-size record got fewer bytes than it needs. */
    | TooShort(have: int, need: int)
      /** A declared length (cell size, name length, descriptor size, bin size)
          exceeds the bytes available. */
    | OutOfBounds(declared: int, available: int)
      /** A little-endian read ran out of bytes before its target was filled
          (io.EOF or io.ErrUnexpectedEOF from encoding/binary). */
    | EndOfData
      /** The source panics here: a slice expression out of range, or a
          negative length handed to make. */
    | RuntimePanic
      /** A bin declares size 0, so the source's bin loop never advances; the
          corrected bin loop also stops here on a negative size whose cursor
          stays at or above zero, rather than re-reading earlier bins. */
    | NoProgress

  /** Success with a value, or an error; usable with `:-`. */
  datatype Result<+T> = Ok(value: T) | Err(error: Error) {
    predicate IsFailure() { Err? }

    function PropagateFailure<U>(): Result<U>
      requires Err?
    {
      Err(error)
    }

    function Extract(): T
      requires Ok?
    {
      value
    }
  }

  /** Success without a value, or an error; usable with `:-` inside a Result. */
  datatype Outcome = Pass | Fail(error: Error) {
    predicate IsFailure() { Fail? }

    function PropagateFailure<U>(): Result<U>
      requires Fail?
    {
      Err(error)
    }
  }

  /** A result listing the items after some already collected ones, with
      those put in front: how a loop that appends to a list relates to the
      recursive definition of the whole list. */
  function Prepend<T>(done: seq<T>, r: Result<seq<T>>): (p: Result<seq<T>>)
    ensures p.Ok? <==> r.Ok?
    ensures p.Err? ==> p.error == r.error
    ensures p.Ok? ==> p.value == done + r.value
  {
    match r
    case Ok(rest) => Ok(done + rest)
    case Err(e) => Err(e)
  }

  lemma PrependNothing<T>(r: Result<seq<T>>)
    ensures Prepend([], r) == r
  {
    if r.Ok? {
      assert [] + r.value == r.value;
    }
  }

  lemma PrependOne<T>(done: seq<T>, v: T, r: Result<seq<T>>)
    ensures Prepend(done, Prepend([v], r)) == Prepend(done + [v], r)
  {
    if r.Ok? {
      assert done + ([v] + r.value) == (done + [v]) + r.value;
    }
  }
}
