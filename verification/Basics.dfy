/** Types shared by every component. */
module Basics {

  newtype byte = x: int | 0 <= x < 256

  datatype Option<+T> = None | Some(value: T)

  datatype Result<+T, +E> = Ok(value: T) | Err(error: E)

  function Min(x: nat, y: nat): nat { if x <= y then x else y }

  /** Offsets from start up to end. */
  datatype Range = Range(start: nat, end: nat)

  /** Bytes read as characters of the same number. */
  function Ascii(bytes: seq<byte>): string {
    seq(|bytes|, k requires 0 <= k < |bytes| => (bytes[k] as int) as char)
  }

  /** The decimal digits of a number. */
  function Digits(n: nat): seq<byte> {
    if n < 10 then [48 + n as byte] else Digits(n / 10) + [48 + (n % 10) as byte]
  }

  function DecimalText(n: nat): string { Ascii(Digits(n)) }

  /** The caller's cancellation callback: an arbitrary fixed answer for each
      successive poll. Nothing else about it is assumed. */
  class Cancellation {
    const answer: nat -> bool
    var polls: nat

    constructor (answer: nat -> bool)
      ensures this.answer == answer && polls == 0
    {
      this.answer := answer;
      polls := 0;
    }

    method Poll() returns (stop: bool)
      modifies this
      ensures polls == old(polls) + 1
      ensures stop == answer(old(polls))
    {
      stop := answer(polls);
      polls := polls + 1;
    }

    /** Every poll numbered from `since` on has answered "carry on". */
    ghost predicate Quiet(since: nat)
      reads this
    {
      since <= polls && forall i :: since <= i < polls ==> !answer(i)
    }

    /** The last poll, and no earlier one from `since` on, asked to stop. */
    ghost predicate Stopped(since: nat)
      reads this
    {
      && since < polls
      && answer(polls - 1)
      && forall i :: since <= i < polls - 1 ==> !answer(i)
    }
  }
}
