/** Shared vocabulary: bytes, the error kinds the model distinguishes, and
    the failure-compatible wrappers every operation returns. */
module Outcomes {

  newtype byte = b: int | 0 <= b < 256

  type Bytes = seq<byte>

  /** The errors the orchestration tells apart. `NotExist` is what
      `errors.Is(err, fs.ErrNotExist)` recognises, `CrossDevice` is the
      EXDEV / ERROR_NOT_SAME_DEVICE errno inside a link error; every other
      failure is opaque and is only ever propagated. */
  datatype Error = NotExist | CrossDevice | Failed(reason: string)

  datatype Option<+T> = None | Some(value: T)

  datatype Result<+T> = Success(value: T) | Failure(error: Error) {
    predicate IsFailure() {
      Failure?
    }

    function PropagateFailure<U>(): Result<U>
      requires Failure?
    {
      Failure(error)
    }

    function Extract(): T
      requires Success?
    {
      value
    }
  }

  /** An operation that either succeeds or reports one error (a Go `error`). */
  datatype Outcome = Pass | Fail(error: Error)

  /** Reads a byte as a Latin-1 character; on ASCII this is the identity on code points. */
  function Latin1(b: Bytes): (s: string)
    ensures |s| == |b|
    ensures forall i :: 0 <= i < |b| ==> s[i] as int == b[i] as int
  {
    if |b| == 0 then "" else [b[0] as int as char] + Latin1(b[1..])
  }
}
