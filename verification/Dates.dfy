/** Instants as JavaScript holds them. */
module Dates {

  /** Milliseconds since the epoch within the range of a JavaScript `Date`, 100 000 000 days either way. */
  type Time = t: int | -8_640_000_000_000_000 <= t <= 8_640_000_000_000_000
}
