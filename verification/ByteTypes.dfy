/** Bytes as numbers, for code that computes with them. */
module IntBytes {
  type byte = x: int | 0 <= x < 256
}

/** Bytes as bit vectors, for code that shifts and masks them. */
module BitBytes {
  type byte = bv8
}
