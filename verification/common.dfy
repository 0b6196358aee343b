/** Small shared vocabulary: optional values and the wrap-around of the
    C unsigned counters the drivers and state machines increment. */
module Common {

  /** A value that may be absent: a NULL function pointer, an empty tile,
      a search that found nothing. */
  datatype Option<T> = None | Some(value: T)

  const U8_MODULUS: nat := 0x100
  const U16_MODULUS: nat := 0x1_0000
  const U32_MODULUS: nat := 0x1_0000_0000

  /** `x++` on an unsigned C integer whose values lie below `modulus`. */
  function Incr(x: nat, modulus: nat): (r: nat)
    requires 0 < modulus
    requires x < modulus
    ensures r < modulus
    ensures x + 1 < modulus ==> r == x + 1
    ensures x + 1 == modulus ==> r == 0
  {
    (x + 1) % modulus
  }

  /** `x += k` on an unsigned C integer whose values lie below `modulus`. */
  function AddWrap(x: nat, k: nat, modulus: nat): (r: nat)
    requires 0 < modulus
    ensures r < modulus
    ensures x + k < modulus ==> r == x + k
  {
    (x + k) % modulus
  }
}

/** The display geometry the games are drawn on (display.h is not part of
    this model; the panel is 320 by 240 pixels). */
module Display {
  const WIDTH: int := 320
  const HEIGHT: int := 240

  datatype Point = Point(x: int, y: int)
}
