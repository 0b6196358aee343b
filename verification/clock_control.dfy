/** The clock-setting controller: a touch increments or decrements the
    displayed time once; a touch held past the long-press delay repeats the
    update every `updateTicks` ticks.

    The touchscreen status is an input of each tick; the inc/dec of the
    display and the acknowledgement of the touch are outputs. The tick
    counts for 0.5 s and 0.1 s are computed with floating point in the
    program and are parameters here. */
module ClockControl {
  import opened Common
  import opened Touchscreen

  datatype State = WaitingSt | IncDec | LongPressDelay | FastUpdate

  datatype Clock = Clock(
    state: State,
    delayCnt: nat,      // uint16
    delayTicks: nat,    // uint16
    updateCnt: nat,     // uint16
    updateTicks: nat)   // uint16

  /** What a tick does besides moving the state: whether the display's time
      was incremented or decremented, and whether the touch was
      acknowledged. */
  datatype Step = Step(next: Clock, incDec: bool, ack: bool)

  /** Counters in range; the delay count never passes its limit; in fast
      update the count sits between 1 and its limit. */
  ghost predicate Inv(c: Clock) {
    && c.delayCnt < U16_MODULUS && c.delayTicks < U16_MODULUS
    && c.updateCnt < U16_MODULUS && 1 <= c.updateTicks < U16_MODULUS
    && (c.state == LongPressDelay ==> c.delayCnt <= c.delayTicks)
    && (c.state == FastUpdate ==> 1 <= c.updateCnt <= c.updateTicks)
  }

  /** clockControl_init. */
  function Init(delayTicks: nat, updateTicks: nat): (c: Clock)
    requires delayTicks < U16_MODULUS && updateTicks < U16_MODULUS
    ensures c.state == WaitingSt && c.delayCnt == 0 && c.updateCnt == 0
    ensures 1 <= updateTicks ==> Inv(c)
  {
    Clock(WaitingSt, 0, delayTicks, 0, updateTicks)
  }

  /** clockControl_tick, with `ackOnFastRelease` choosing what a release in
      fast update does: the program moves to waiting without acknowledging
      the touch (false), though its comment there says it acknowledges it
      (true). */
  function TickWith(c: Clock, status: Status, ackOnFastRelease: bool): (s: Step)
    requires c.delayCnt < U16_MODULUS && c.updateCnt < U16_MODULUS
    ensures s.next.delayTicks == c.delayTicks && s.next.updateTicks == c.updateTicks
    ensures s.ack <==> status == Released && (c.state == IncDec || (c.state == FastUpdate && ackOnFastRelease))
    ensures s.next.state == IncDec ==> s.incDec
  {
    var (t, fastUpdate, ack) :=
      match c.state
      case WaitingSt =>
        if status == Released then (c.(state := IncDec), false, false)
        else if status == Pressed then (c.(state := LongPressDelay, delayCnt := 0), false, false)
        else (c, false, false)
      case IncDec =>
        if status == Released then (c.(state := WaitingSt), false, true)
        else (c, false, false)
      case LongPressDelay =>
        if status == Released then (c.(state := IncDec), false, false)
        else if c.delayCnt == c.delayTicks then (c.(state := FastUpdate, updateCnt := 0), false, false)
        else (c.(delayCnt := Incr(c.delayCnt, U16_MODULUS)), false, false)
      case FastUpdate =>
        if status == Released then (c.(state := WaitingSt), false, ackOnFastRelease)
        else if c.updateCnt == c.updateTicks then (c.(updateCnt := 0), true, false)
        else (c, false, false);
    match t.state
    case IncDec => Step(t, true, ack)
    case FastUpdate => Step(t.(updateCnt := Incr(t.updateCnt, U16_MODULUS)), fastUpdate, ack)
    case _ => Step(t, fastUpdate, ack)
  }

  /** clockControl_tick as written. */
  function TickAsWritten(c: Clock, status: Status): (s: Step)
    requires c.delayCnt < U16_MODULUS && c.updateCnt < U16_MODULUS
    ensures s.next.delayTicks == c.delayTicks && s.next.updateTicks == c.updateTicks
    ensures s.ack <==> status == Released && c.state == IncDec
    ensures c.state == FastUpdate && status == Released ==> s.next.state == WaitingSt && !s.incDec
  {
    TickWith(c, status, false)
  }

  /** clockControl_tick as intended: a release in fast update is
      acknowledged. */
  function Tick(c: Clock, status: Status): (s: Step)
    requires c.delayCnt < U16_MODULUS && c.updateCnt < U16_MODULUS
    ensures s.next.delayTicks == c.delayTicks && s.next.updateTicks == c.updateTicks
    ensures s.ack <==> status == Released && (c.state == IncDec || c.state == FastUpdate)
    ensures s.next.state == IncDec ==> s.incDec
  {
    TickWith(c, status, true)
  }

  /** The two ticks differ only in the acknowledgement of a release in fast
      update. */
  lemma TicksAgree(c: Clock, status: Status)
    requires c.delayCnt < U16_MODULUS && c.updateCnt < U16_MODULUS
    ensures Tick(c, status).next == TickAsWritten(c, status).next
    ensures Tick(c, status).incDec == TickAsWritten(c, status).incDec
    ensures Tick(c, status).ack != TickAsWritten(c, status).ack <==> c.state == FastUpdate && status == Released
  {
  }

  /** Every tick keeps the invariant. */
  lemma TickPreservesInv(c: Clock, status: Status)
    requires Inv(c)
    ensures Inv(Tick(c, status).next)
  {
  }

  /** The states a status moves the controller to, from each state. */
  lemma TickTransitions(c: Clock, status: Status)
    requires Inv(c)
    ensures c.state == WaitingSt ==>
              && (status == Released ==> Tick(c, status).next.state == IncDec)
              && (status == Pressed ==> Tick(c, status).next == c.(state := LongPressDelay, delayCnt := 0))
              && (status == Idle ==> Tick(c, status) == Step(c, false, false))
    ensures c.state == LongPressDelay ==>
              && (status == Released ==> Tick(c, status).next.state == IncDec)
              && (status != Released && c.delayCnt == c.delayTicks ==>
                    Tick(c, status).next == c.(state := FastUpdate, updateCnt := 1))
              && (status != Released && c.delayCnt != c.delayTicks ==>
                    Tick(c, status).next == c.(delayCnt := c.delayCnt + 1))
    ensures c.state == IncDec ==>
              && (status == Released ==> Tick(c, status) == Step(c.(state := WaitingSt), false, true))
              && (status != Released ==> Tick(c, status) == Step(c, true, false))
    ensures c.state == FastUpdate && status == Released ==>
              Tick(c, status) == Step(c.(state := WaitingSt), false, true)
    ensures c.state == FastUpdate && status != Released ==>
              && Tick(c, status).next.state == FastUpdate
              && (Tick(c, status).incDec <==> c.updateCnt == c.updateTicks)
              && (c.updateCnt == c.updateTicks ==> Tick(c, status).next.updateCnt == 1)
              && (c.updateCnt != c.updateTicks ==> Tick(c, status).next == c.(updateCnt := Incr(c.updateCnt, U16_MODULUS)))
  {
  }

  /** As written, lifting the finger during fast update does not
      acknowledge the touch, so the waiting state sees RELEASED again on the
      next tick and performs one more inc/dec before the touch is
      acknowledged. */
  lemma FastReleaseUpdatesOnceMore(c: Clock)
    requires Inv(c) && c.state == FastUpdate
    ensures
      var s1 := TickAsWritten(c, Released);
      var s2 := TickAsWritten(s1.next, Released);
      var s3 := TickAsWritten(s2.next, Released);
      && !s1.incDec && !s1.ack && s1.next.state == WaitingSt
      && s2.incDec && !s2.ack && s2.next.state == IncDec
      && !s3.incDec && s3.ack && s3.next.state == WaitingSt
  {
  }

  /** As intended, lifting the finger during fast update acknowledges the
      touch at once; with the status back to IDLE the controller then waits
      without a further inc/dec. */
  lemma FastReleaseAcknowledges(c: Clock)
    requires Inv(c) && c.state == FastUpdate
    ensures
      var s1 := Tick(c, Released);
      var s2 := Tick(s1.next, Idle);
      && !s1.incDec && s1.ack && s1.next == c.(state := WaitingSt)
      && s2 == Step(s1.next, false, false)
  {
  }

  /** `n` ticks with the same status; the number of inc/decs performed. */
  function Run(c: Clock, n: nat, status: Status): (r: (Clock, nat))
    requires Inv(c)
    ensures Inv(r.0)
    decreases n
  {
    if n == 0 then (c, 0)
    else
      var s := Tick(c, status);
      TickPreservesInv(c, status);
      var rest := Run(s.next, n - 1, status);
      (rest.0, rest.1 + (if s.incDec then 1 else 0))
  }

  /** The fast-update rhythm: holding the press from a fast-update count of
      `j` brings the count to the limit after `updateTicks - j` ticks with no
      update on the way. */
  lemma {:induction false} FastUpdateCountsUp(c: Clock, j: nat)
    requires Inv(c) && c.state == FastUpdate && c.updateCnt == j
    ensures Run(c, c.updateTicks - j, Pressed) == (c.(updateCnt := c.updateTicks), 0)
    decreases c.updateTicks - j
  {
    if j < c.updateTicks {
      var next := Tick(c, Pressed).next;
      assert next == c.(updateCnt := j + 1);
      FastUpdateCountsUp(next, j + 1);
    }
  }

  /** Held in fast update, the controller is periodic: `updateTicks` ticks
      from a freshly reset count bring it back to the same state having
      performed exactly one inc/dec. */
  lemma FastUpdatePeriod(c: Clock)
    requires Inv(c) && c.state == FastUpdate && c.updateCnt == 1
    ensures Run(c, c.updateTicks, Pressed) == (c, 1)
  {
    FastUpdateCountsUp(c, 1);
    RunLast(c, c.updateTicks - 1, Pressed);
    var top := c.(updateCnt := c.updateTicks);
    assert Tick(top, Pressed) == Step(c, true, false);
  }

  /** Running `n + 1` ticks is running `n`, then one more. */
  lemma {:induction false} RunLast(c: Clock, n: nat, status: Status)
    requires Inv(c)
    ensures
      var r := Run(c, n, status);
      var s := Tick(r.0, status);
      Run(c, n + 1, status) == (s.next, r.1 + (if s.incDec then 1 else 0))
    decreases n
  {
    TickPreservesInv(c, status);
    if n > 0 {
      RunLast(Tick(c, status).next, n - 1, status);
    }
  }
}
