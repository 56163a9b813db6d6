/** The ways the program can abort, and a result type for operations that may abort.

The program never recovers from a failure: a Rust panic ends the process. The
model therefore returns `Panicked(reason)` where the program would panic, so
that the conditions under which it does are stated rather than assumed away.
 */
module Outcomes {

  /** Why the program panics. Arithmetic checks follow Rust's debug build. */
  datatype Panic =
    | AddOverflow        // `+=` on a u32 that is already at its maximum
    | SubtractOverflow   // `num_frames - 1` with `num_frames == 0`
    | DivideByZero       // `60 / anim_speed` with `anim_speed == 0`
    | MissingAnimation   // the `expect` on a map lookup that found nothing

  datatype Result<+T> = Ok(value: T) | Panicked(reason: Panic)
}
