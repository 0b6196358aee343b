/** The touchscreen driver: a three-state debouncer ticked at a fixed
    period. A touch is reported only after the ADC has had `settleTicks`
    ticks to settle; the report stays until the client acknowledges it.

    Whether the display is touched, and the point it reports, are inputs of
    each tick. ADC-settling reads the touched bit twice in one tick, so a
    tick takes two reads, which a flicker can make disagree. The tick count for the 50 ms settling time is computed with
    floating point in the program and is a parameter here. */
module Touchscreen {
  import opened Common
  import Display

  datatype State = Waiting | AdcSettling | PressedSt

  /** What a client sees. */
  datatype Status = Idle | Pressed | Released

  /** A point as the display controller reports it: x and y are 16-bit,
      the pressure 8-bit. */
  datatype TouchPoint = TouchPoint(x: nat, y: nat, z: nat)

  predicate PointValid(p: TouchPoint) {
    p.x < U16_MODULUS && p.y < U16_MODULUS && p.z < U8_MODULUS
  }

  datatype Driver = Driver(
    state: State,
    pressed: bool,          // a settled press not yet acknowledged
    adcTimer: nat,          // uint32: ticks spent settling
    settleTicks: nat,       // uint32: ticks the ADC needs
    touch: TouchPoint)      // the most recent settled point

  /** The driver's invariant: counters in range, zero while waiting, and a
      raised flag while the press lasts. The settling count has no bound
      here: after a flicker it runs past `settleTicks` (see `FlickerOvershoots`). */
  ghost predicate Inv(d: Driver) {
    && d.adcTimer < U32_MODULUS && 1 <= d.settleTicks < U32_MODULUS
    && PointValid(d.touch)
    && (d.state == Waiting ==> d.adcTimer == 0)
    && (d.state == PressedSt ==> d.pressed)
  }

  /** The settling count is between 1 and `settleTicks`, as it stays while
      the two reads of each tick agree. */
  ghost predicate Settling(d: Driver) {
    d.state == AdcSettling ==> 1 <= d.adcTimer <= d.settleTicks
  }

  /** touchscreen_init. The point is the zero-initialised static. */
  function Init(settleTicks: nat): (d: Driver)
    requires settleTicks < U32_MODULUS
    ensures d.state == Waiting && !d.pressed && d.adcTimer == 0
    ensures 1 <= settleTicks ==> Inv(d)
    ensures GetStatus(d) == Idle
  {
    Driver(Waiting, false, 0, settleTicks, TouchPoint(0, 0, 0))
  }

  /** The transition half of a tick. `touched` is the first read of the
      touched bit, `again` the second one that only ADC-settling takes, and
      `sample` the point the display controller would return if asked. */
  function Transition(d: Driver, touched: bool, again: bool, sample: TouchPoint): Driver {
    match d.state
    case Waiting =>
      if touched then d.(state := AdcSettling) else d
    case AdcSettling =>
      if !touched then d.(state := Waiting)
      else if again && d.adcTimer == d.settleTicks then d.(state := PressedSt, touch := sample)
      else d
    case PressedSt =>
      if !touched then d.(state := Waiting) else d
  }

  /** The action half of a tick, on the state just entered. */
  function Action(d: Driver): Driver
    requires d.adcTimer < U32_MODULUS
  {
    match d.state
    case Waiting => d.(adcTimer := 0)
    case AdcSettling => d.(adcTimer := Incr(d.adcTimer, U32_MODULUS))
    case PressedSt => d.(pressed := true)
  }

  /** touchscreen_tick. */
  function Tick(d: Driver, touched: bool, again: bool, sample: TouchPoint): (r: Driver)
    requires d.adcTimer < U32_MODULUS
    ensures r.settleTicks == d.settleTicks
    ensures r.state == Waiting <==> !touched
    ensures r.state == PressedSt ==> r.pressed
    ensures r.state == PressedSt && d.state != PressedSt ==>
              d.state == AdcSettling && d.adcTimer == d.settleTicks && again && r.touch == sample
    ensures r.state != PressedSt ==> r.pressed == d.pressed
    ensures touched && d.state == Waiting ==> r.state == AdcSettling
    ensures touched && d.state == AdcSettling ==>
              (r.state == PressedSt <==> again && d.adcTimer == d.settleTicks)
    ensures touched && d.state == PressedSt ==> r.state == PressedSt
    ensures r.state == Waiting ==> r.adcTimer == 0
    ensures r.state == AdcSettling ==> r.adcTimer == Incr(d.adcTimer, U32_MODULUS)
    ensures r.state == PressedSt ==> r.adcTimer == d.adcTimer
    ensures r.state != PressedSt || d.state == PressedSt ==> r.touch == d.touch
  {
    Action(Transition(d, touched, again, sample))
  }

  /** Every tick keeps the invariant, whatever the two reads say. */
  lemma TickPreservesInv(d: Driver, touched: bool, again: bool, sample: TouchPoint)
    requires Inv(d) && PointValid(sample)
    ensures Inv(Tick(d, touched, again, sample))
  {
  }

  /** The second read matters only in ADC-settling. */
  lemma SecondReadOnlyWhileSettling(d: Driver, touched: bool, a: bool, b: bool, sample: TouchPoint)
    requires d.adcTimer < U32_MODULUS
    ensures d.state != AdcSettling ==> Tick(d, touched, a, sample) == Tick(d, touched, b, sample)
    ensures !touched ==> Tick(d, touched, a, sample) == Tick(d, touched, b, sample)
  {
  }

  /** A tick whose two reads agree keeps the settling count within
      `settleTicks`. */
  lemma AgreeingReadsKeepSettling(d: Driver, touched: bool, sample: TouchPoint)
    requires Inv(d) && Settling(d)
    ensures Settling(Tick(d, touched, touched, sample))
  {
  }

  /** A flicker at the settle tick: the first read sees the touch and the
      second does not, so the driver neither presses nor leaves, and the
      count goes past `settleTicks`. */
  lemma FlickerOvershoots(d: Driver, sample: TouchPoint)
    requires Inv(d) && d.state == AdcSettling && d.adcTimer == d.settleTicks
    requires d.settleTicks + 1 < U32_MODULUS
    ensures Tick(d, true, false, sample).state == AdcSettling
    ensures Tick(d, true, false, sample).adcTimer == d.settleTicks + 1
    ensures !Settling(Tick(d, true, false, sample))
  {
  }

  /** Once the count is past `settleTicks`, holding the touch never presses:
      the pressed test is an equality, so the driver stays settling, counting
      up, until the touch ends or the 32-bit count wraps around. */
  lemma {:induction false} HeldPastSettleNeverPresses(d: Driver, n: nat, sample: TouchPoint)
    requires Inv(d) && PointValid(sample)
    requires d.state == AdcSettling && d.settleTicks < d.adcTimer
    requires d.adcTimer + n < U32_MODULUS
    ensures HoldFor(d, n, sample).state == AdcSettling
    ensures HoldFor(d, n, sample).adcTimer == d.adcTimer + n
    ensures HoldFor(d, n, sample).pressed == d.pressed
    decreases n
  {
    if n > 0 {
      var d' := Tick(d, true, true, sample);
      TickPreservesInv(d, true, true, sample);
      HeldPastSettleNeverPresses(d', n - 1, sample);
    }
  }

  /** touchscreen_get_status: IDLE with no unacknowledged press, PRESSED
      while the press lasts, RELEASED once it has ended. */
  function GetStatus(d: Driver): (s: Status)
    ensures s == Idle <==> !d.pressed
    ensures s == Pressed <==> d.pressed && d.state == PressedSt
    ensures s == Released <==> d.pressed && d.state != PressedSt
  {
    if !d.pressed then Idle
    else if d.state == PressedSt then Pressed
    else Released
  }

  /** touchscreen_ack_touch: clears the flag only when the status is
      RELEASED. */
  function AckTouch(d: Driver): (r: Driver)
    ensures GetStatus(d) == Released ==> GetStatus(r) == Idle
    ensures GetStatus(d) != Released ==> r == d
    ensures r.state == d.state && r.adcTimer == d.adcTimer && r.touch == d.touch
  {
    if GetStatus(d) == Released then d.(pressed := false) else d
  }

  /** Acknowledging twice is acknowledging once. */
  lemma AckTouchIdempotent(d: Driver)
    ensures AckTouch(AckTouch(d)) == AckTouch(d)
  {
  }

  /** touchscreen_get_location: the last settled point. */
  function GetLocation(d: Driver): (p: Display.Point)
    ensures p.x == d.touch.x && p.y == d.touch.y
  {
    Display.Point(d.touch.x, d.touch.y)
  }

  /** `n` ticks with the display held (both reads true) and the same point
      reported. */
  function HoldFor(d: Driver, n: nat, sample: TouchPoint): Driver
    requires Inv(d) && PointValid(sample)
    ensures Inv(HoldFor(d, n, sample))
    ensures HoldFor(d, n, sample).settleTicks == d.settleTicks
    decreases n
  {
    if n == 0 then d
    else
      TickPreservesInv(d, true, true, sample);
      HoldFor(Tick(d, true, true, sample), n - 1, sample)
  }

  /** The debouncing latency: from waiting, a touch held for `k` ticks with
      `k <= settleTicks` is still settling with the count at `k`, and held
      for `settleTicks + 1` ticks it reaches pressed_st, raises the flag and
      records the point. */
  lemma {:induction false} HoldSettles(d: Driver, k: nat, sample: TouchPoint)
    requires Inv(d) && PointValid(sample) && d.state == Waiting
    requires 1 <= k <= d.settleTicks
    ensures HoldFor(d, k, sample).state == AdcSettling
    ensures HoldFor(d, k, sample).adcTimer == k
    ensures HoldFor(d, k, sample).pressed == d.pressed
    ensures k == d.settleTicks ==>
              && HoldFor(d, k + 1, sample).state == PressedSt
              && GetStatus(HoldFor(d, k + 1, sample)) == Pressed
              && HoldFor(d, k + 1, sample).touch == sample
  {
    HoldLast(d, k - 1, sample);
    HoldLast(d, k, sample);
    if k > 1 {
      HoldSettles(d, k - 1, sample);
    } else {
      assert HoldFor(d, 0, sample) == d;
    }
  }

  /** Holding for `n + 1` ticks is holding for `n`, then one more tick. */
  lemma {:induction false} HoldLast(d: Driver, n: nat, sample: TouchPoint)
    requires Inv(d) && PointValid(sample)
    ensures HoldFor(d, n + 1, sample) == Tick(HoldFor(d, n, sample), true, true, sample)
    decreases n
  {
    TickPreservesInv(d, true, true, sample);
    if n > 0 {
      HoldLast(Tick(d, true, true, sample), n - 1, sample);
    }
  }
}
