/**
 * The failure signals of the list.  The original prints a diagnostic and
 * returns; here each failure is a value the caller can inspect, one kind
 * per diagnostic the original prints.
 */
module Outcomes {

  datatype Error =
    | IndexOutOfRange   // insert, remove and retrieve given a position outside their range
    | EmptyList         // remove or print on a list with no elements
    | TooSmallToSwap    // swap on a list with fewer than two elements
    | Index1OutOfRange  // swap's first position outside 1..size
    | Index2OutOfRange  // swap's second position outside 1..size
    | AlreadySorted     // sort on a list with fewer than two elements

  /** What a mutating operation reports: it either completed or was rejected, leaving the list as it was. */
  datatype Outcome = Done | Failed(error: Error)

  /** What a reading operation reports: a value, or the reason there is none. */
  datatype Result<T> = Ok(value: T) | Err(error: Error)
}
