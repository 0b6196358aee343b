/** The interval-timer driver: three cascaded 64-bit AXI timers, each a pair
    of 32-bit counter/timer blocks driven through six memory-mapped
    registers. Every operation is a pure transformer from the register file
    to the register file that results, together with the log of the writes
    the driver issues, in order.

    The register file holds the value last written to each register; the
    hardware's own reaction to a write (the load pulse copying TLRx into
    TCRx, the write-one-to-clear of T0INT) is not simulated, so the log is
    the faithful record of what reaches the device. */
module IntervalTimer {
  import opened Common

  /** The three timers of the platform. A closed type: the source's
      fall-through for an unknown timer number cannot be expressed. */
  datatype TimerId = Timer0 | Timer1 | Timer2

  type Offset = int

  const TCSR0: Offset := 0x00
  const TLR0: Offset := 0x04
  const TCR0: Offset := 0x08
  const TCSR1: Offset := 0x10
  const TLR1: Offset := 0x14
  const TCR1: Offset := 0x18

  const UDT0: bv32 := 0x002
  const ARHT0: bv32 := 0x010
  const LOAD0: bv32 := 0x020
  const LOAD1: bv32 := 0x020
  const ENIT0: bv32 := 0x040
  const ENT0: bv32 := 0x080
  const T0INT: bv32 := 0x100
  const CASC: bv32 := 0x800

  predicate IsRegister(off: Offset) {
    off == TCSR0 || off == TLR0 || off == TCR0 || off == TCSR1 || off == TLR1 || off == TCR1
  }

  /** One register of one timer: the address `base(timer) + offset`. */
  datatype Reg = Reg(timer: TimerId, offset: Offset)

  /** The value last written to each register. */
  type Timers = map<Reg, bv32>

  /** Every register of every timer is present. */
  ghost predicate Valid(t: Timers) {
    forall id: TimerId, off: Offset :: IsRegister(off) ==> Reg(id, off) in t
  }

  datatype Write = Write(timer: TimerId, offset: Offset, value: bv32)

  /** The registers after an operation, and the writes it issued. */
  datatype Effect = Effect(timers: Timers, log: seq<Write>)

  predicate WritesRegisters(log: seq<Write>) {
    forall k :: 0 <= k < |log| ==> IsRegister(log[k].offset)
  }

  /** All registers except `(id, off)` hold the same value in `t` and `u`. */
  ghost predicate SameExcept(t: Timers, u: Timers, id: TimerId, off: Offset)
    requires Valid(t) && Valid(u)
  {
    forall r: Reg :: IsRegister(r.offset) && r != Reg(id, off) ==> r in t && r in u && u[r] == t[r]
  }

  /** `a` and `b` agree on every bit outside `mask`. */
  predicate AgreeOutside(a: bv32, b: bv32, mask: bv32) {
    a & !mask == b & !mask
  }

  /** Replays a write log over the register file, first write first. */
  function Apply(t: Timers, log: seq<Write>): (r: Timers)
    requires Valid(t)
    requires WritesRegisters(log)
    ensures Valid(r)
    decreases |log|
  {
    if |log| == 0 then t
    else
      var w := log[0];
      Apply(t[Reg(w.timer, w.offset) := w.value], log[1..])
  }

  /** Replaying `a + b` is replaying `a`, then `b`. */
  lemma {:induction false} ApplyConcat(t: Timers, a: seq<Write>, b: seq<Write>)
    requires Valid(t) && WritesRegisters(a) && WritesRegisters(b)
    ensures WritesRegisters(a + b)
    ensures Apply(t, a + b) == Apply(Apply(t, a), b)
    decreases |a|
  {
    if |a| != 0 {
      var w := a[0];
      assert (a + b)[1..] == a[1..] + b;
      ApplyConcat(t[Reg(w.timer, w.offset) := w.value], a[1..], b);
    } else {
      assert a + b == b;
    }
  }

  /** Replaying one write stores its value at its register. */
  lemma ApplySingle(t: Timers, w: Write)
    requires Valid(t) && IsRegister(w.offset)
    ensures WritesRegisters([w])
    ensures Apply(t, [w]) == t[Reg(w.timer, w.offset) := w.value]
  {
    assert [w][1..] == [];
  }

  /** Storing to one register leaves every other register as it was. */
  lemma UpdateSameExcept(t: Timers, id: TimerId, off: Offset, v: bv32)
    requires Valid(t) && IsRegister(off)
    ensures Valid(t[Reg(id, off) := v])
    ensures SameExcept(t, t[Reg(id, off) := v], id, off)
  {
  }

  /** `x | mask`: the bits of `mask` set, every other bit of `x` kept. */
  function WithBits(x: bv32, mask: bv32): (r: bv32)
    ensures r & mask == mask
    ensures AgreeOutside(r, x, mask)
  {
    x | mask
  }

  /** `x & ~mask`: the bits of `mask` clear, every other bit of `x` kept. */
  function WithoutBits(x: bv32, mask: bv32): (r: bv32)
    ensures r & mask == 0
    ensures AgreeOutside(r, x, mask)
  {
    x & !mask
  }

  /** Issues the writes of `log` in order. */
  function Issue(t: Timers, log: seq<Write>): (e: Effect)
    requires Valid(t)
    requires WritesRegisters(log)
    ensures Valid(e.timers)
    ensures e.log == log
  {
    Effect(Apply(t, log), log)
  }

  /** The read-modify-write `TCSR0 |= mask`. */
  function SetControlBits(t: Timers, id: TimerId, mask: bv32): (e: Effect)
    requires Valid(t)
    ensures Valid(e.timers)
    ensures |e.log| == 1 && e.log[0].timer == id && e.log[0].offset == TCSR0
    ensures e.timers[Reg(id, TCSR0)] == e.log[0].value
    ensures e.timers[Reg(id, TCSR0)] & mask == mask
    ensures AgreeOutside(e.timers[Reg(id, TCSR0)], t[Reg(id, TCSR0)], mask)
    ensures SameExcept(t, e.timers, id, TCSR0)
    ensures WritesRegisters(e.log) && e.timers == Apply(t, e.log)
  {
    var v := WithBits(t[Reg(id, TCSR0)], mask);
    ApplySingle(t, Write(id, TCSR0, v));
    UpdateSameExcept(t, id, TCSR0, v);
    Effect(t[Reg(id, TCSR0) := v], [Write(id, TCSR0, v)])
  }

  /** The read-modify-write `TCSR0 &= ~mask`. */
  function ClearControlBits(t: Timers, id: TimerId, mask: bv32): (e: Effect)
    requires Valid(t)
    ensures Valid(e.timers)
    ensures |e.log| == 1 && e.log[0].timer == id && e.log[0].offset == TCSR0
    ensures e.timers[Reg(id, TCSR0)] == e.log[0].value
    ensures e.timers[Reg(id, TCSR0)] & mask == 0
    ensures AgreeOutside(e.timers[Reg(id, TCSR0)], t[Reg(id, TCSR0)], mask)
    ensures SameExcept(t, e.timers, id, TCSR0)
    ensures WritesRegisters(e.log) && e.timers == Apply(t, e.log)
  {
    var v := WithoutBits(t[Reg(id, TCSR0)], mask);
    ApplySingle(t, Write(id, TCSR0, v));
    UpdateSameExcept(t, id, TCSR0, v);
    Effect(t[Reg(id, TCSR0) := v], [Write(id, TCSR0, v)])
  }

  /** intervalTimer_start: sets ENT0 (bit 7) and no other bit. */
  function Start(t: Timers, id: TimerId): (e: Effect)
    requires Valid(t)
    ensures Valid(e.timers) && |e.log| == 1 && e.log[0].timer == id && e.log[0].offset == TCSR0
    ensures WritesRegisters(e.log) && e.timers == Apply(t, e.log)
    ensures e.timers[Reg(id, TCSR0)] & 0x80 == 0x80
    ensures e.timers[Reg(id, TCSR0)] & !0x80 == t[Reg(id, TCSR0)] & !0x80
    ensures SameExcept(t, e.timers, id, TCSR0)
  {
    SetControlBits(t, id, ENT0)
  }

  /** intervalTimer_stop: clears ENT0 (bit 7) and no other bit. */
  function Stop(t: Timers, id: TimerId): (e: Effect)
    requires Valid(t)
    ensures Valid(e.timers) && |e.log| == 1 && e.log[0].timer == id && e.log[0].offset == TCSR0
    ensures WritesRegisters(e.log) && e.timers == Apply(t, e.log)
    ensures e.timers[Reg(id, TCSR0)] & 0x80 == 0
    ensures e.timers[Reg(id, TCSR0)] & !0x80 == t[Reg(id, TCSR0)] & !0x80
    ensures SameExcept(t, e.timers, id, TCSR0)
  {
    ClearControlBits(t, id, ENT0)
  }

  /** intervalTimer_enableInterrupt: sets ENIT0 (bit 6) and no other bit. */
  function EnableInterrupt(t: Timers, id: TimerId): (e: Effect)
    requires Valid(t)
    ensures Valid(e.timers) && |e.log| == 1 && e.log[0].timer == id && e.log[0].offset == TCSR0
    ensures WritesRegisters(e.log) && e.timers == Apply(t, e.log)
    ensures e.timers[Reg(id, TCSR0)] & 0x40 == 0x40
    ensures e.timers[Reg(id, TCSR0)] & !0x40 == t[Reg(id, TCSR0)] & !0x40
    ensures SameExcept(t, e.timers, id, TCSR0)
  {
    SetControlBits(t, id, ENIT0)
  }

  /** intervalTimer_disableInterrupt: clears ENIT0 (bit 6) and no other bit. */
  function DisableInterrupt(t: Timers, id: TimerId): (e: Effect)
    requires Valid(t)
    ensures Valid(e.timers) && |e.log| == 1 && e.log[0].timer == id && e.log[0].offset == TCSR0
    ensures WritesRegisters(e.log) && e.timers == Apply(t, e.log)
    ensures e.timers[Reg(id, TCSR0)] & 0x40 == 0
    ensures e.timers[Reg(id, TCSR0)] & !0x40 == t[Reg(id, TCSR0)] & !0x40
    ensures SameExcept(t, e.timers, id, TCSR0)
  {
    ClearControlBits(t, id, ENIT0)
  }

  /** intervalTimer_ackInterrupt: writes TCSR0 back with T0INT (bit 8) set,
      which the hardware reads as "clear the interrupt". */
  function AckInterrupt(t: Timers, id: TimerId): (e: Effect)
    requires Valid(t)
    ensures Valid(e.timers) && |e.log| == 1 && e.log[0].timer == id && e.log[0].offset == TCSR0
    ensures WritesRegisters(e.log) && e.timers == Apply(t, e.log)
    ensures e.log[0].value & 0x100 == 0x100
    ensures e.log[0].value & !0x100 == t[Reg(id, TCSR0)] & !0x100
    ensures SameExcept(t, e.timers, id, TCSR0)
  {
    SetControlBits(t, id, T0INT)
  }

  /** Setting bits that are already set, or clearing bits that are already
      clear, gives the word back. */
  lemma MaskIdempotent(x: bv32, mask: bv32)
    ensures x & mask == mask ==> WithBits(x, mask) == x
    ensures x & mask == 0 ==> WithoutBits(x, mask) == x
  {
  }

  /** Starting a running timer, or stopping a stopped one, changes nothing. */
  lemma StartStopIdempotent(t: Timers, id: TimerId)
    requires Valid(t)
    ensures Start(Start(t, id).timers, id).timers == Start(t, id).timers
    ensures Stop(Stop(t, id).timers, id).timers == Stop(t, id).timers
  {
    var s := Start(t, id).timers;
    MaskIdempotent(s[Reg(id, TCSR0)], ENT0);
    var p := Stop(t, id).timers;
    MaskIdempotent(p[Reg(id, TCSR0)], ENT0);
  }

  /** Start followed by stop leaves every register as it was, except that
      ENT0 ends clear. */
  lemma StartThenStop(t: Timers, id: TimerId)
    requires Valid(t)
    ensures Stop(Start(t, id).timers, id).timers[Reg(id, TCSR0)] == t[Reg(id, TCSR0)] & !ENT0
    ensures SameExcept(t, Stop(Start(t, id).timers, id).timers, id, TCSR0)
  {
  }

  /** intervalTimer_reload: pulses LOAD0 and LOAD1 on and back off. */
  function Reload(t: Timers, id: TimerId): (e: Effect)
    requires Valid(t)
    ensures Valid(e.timers)
    ensures |e.log| == 4
    ensures forall k :: 0 <= k < 4 ==> e.log[k].timer == id
    ensures e.log[0].offset == TCSR0 && e.log[1].offset == TCSR1
    ensures e.log[2].offset == TCSR0 && e.log[3].offset == TCSR1
    ensures e.log[0].value & 0x20 == 0x20 && AgreeOutside(e.log[0].value, t[Reg(id, TCSR0)], 0x20)
    ensures e.log[1].value & 0x20 == 0x20 && AgreeOutside(e.log[1].value, t[Reg(id, TCSR1)], 0x20)
    ensures e.log[2].value == t[Reg(id, TCSR0)] && e.log[3].value == t[Reg(id, TCSR1)]
    ensures e.timers == t
  {
    var old0 := t[Reg(id, TCSR0)];
    var old1 := t[Reg(id, TCSR1)];
    var log := [Write(id, TCSR0, WithBits(old0, LOAD0)), Write(id, TCSR1, WithBits(old1, LOAD1)),
                Write(id, TCSR0, old0), Write(id, TCSR1, old1)];
    ReloadRestores(t, id, log);
    Issue(t, log)
  }

  /** Writing back the values read before the pulse undoes it. */
  lemma {:induction false} ReloadRestores(t: Timers, id: TimerId, log: seq<Write>)
    requires Valid(t)
    requires log == [Write(id, TCSR0, WithBits(t[Reg(id, TCSR0)], LOAD0)), Write(id, TCSR1, WithBits(t[Reg(id, TCSR1)], LOAD1)),
                     Write(id, TCSR0, t[Reg(id, TCSR0)]), Write(id, TCSR1, t[Reg(id, TCSR1)])]
    ensures WritesRegisters(log)
    ensures Apply(t, log) == t
  {
    var c0, c1 := Reg(id, TCSR0), Reg(id, TCSR1);
    var t1 := t[c0 := WithBits(t[c0], LOAD0)];
    var t2 := t1[c1 := WithBits(t[c1], LOAD1)];
    var t3 := t2[c0 := t[c0]];
    var t4 := t3[c1 := t[c1]];
    assert Apply(t, log) == Apply(t1, log[1..]);
    assert Apply(t1, log[1..]) == Apply(t2, log[2..]) by { assert log[1..][1..] == log[2..]; }
    assert Apply(t2, log[2..]) == Apply(t3, log[3..]) by { assert log[2..][1..] == log[3..]; }
    assert Apply(t3, log[3..]) == Apply(t4, []) by { assert log[3..][1..] == []; }
    assert t4 == t;
  }

  /** The low word loaded into TLR0: the cycle count truncated to 32 bits. */
  function Lower(cycles: bv64): bv32 {
    (cycles & 0xFFFF_FFFF) as bv32
  }

  /** The high word loaded into TLR1: `cycles >> 32`. */
  function Upper(cycles: bv64): bv32 {
    (cycles >> 32) as bv32
  }

  /** `(upper << 32) | lower`, the 64-bit count of a (TCR0, TCR1) pair. */
  function Join(lower: bv32, upper: bv32): bv64 {
    ((upper as bv64) << 32) | (lower as bv64)
  }

  /** Splitting a cycle count and joining the halves gives it back, and
      joining two halves and splitting gives them back. */
  lemma SplitJoinRoundTrip(cycles: bv64, lo: bv32, hi: bv32)
    ensures Join(Lower(cycles), Upper(cycles)) == cycles
    ensures Lower(Join(lo, hi)) == lo && Upper(Join(lo, hi)) == hi
  {
  }

  /** The worked example: 0x1_0000_0005 cycles load 5 and 1. */
  lemma SplitExample()
    ensures Lower(0x1_0000_0005) == 5 && Upper(0x1_0000_0005) == 1
  {
  }

  /** intervalTimer_initCountUp: TCSR0 := CASC, TCSR1 := 0, nothing else. */
  function InitCountUp(t: Timers, id: TimerId): (e: Effect)
    requires Valid(t)
    ensures Valid(e.timers)
    ensures e.log == [Write(id, TCSR0, 0x800), Write(id, TCSR1, 0)]
    ensures e.timers[Reg(id, TCSR0)] == 0x800 && e.timers[Reg(id, TCSR1)] == 0
    ensures forall r: Reg :: IsRegister(r.offset) && r != Reg(id, TCSR0) && r != Reg(id, TCSR1) ==>
              r in t && e.timers[r] == t[r]
  {
    var w0, w1 := Write(id, TCSR0, CASC), Write(id, TCSR1, 0);
    ApplySingle(t, w0);
    ApplySingle(Apply(t, [w0]), w1);
    ApplyConcat(t, [w0], [w1]);
    assert [w0] + [w1] == [w0, w1];
    Issue(t, [w0, w1])
  }

  /** The control word initCountDown programs: cascade, down-count,
      auto-reload. */
  const COUNT_DOWN_CONFIG: bv32 := CASC | UDT0 | ARHT0

  /** The first four writes of initCountDown: both control words, then both
      halves of the count into the load registers. */
  function ConfigureCountDown(t: Timers, id: TimerId, cycles: bv64): (e: Effect)
    requires Valid(t)
    ensures Valid(e.timers)
    ensures e.log == [Write(id, TCSR0, COUNT_DOWN_CONFIG), Write(id, TCSR1, 0),
                      Write(id, TLR0, Lower(cycles)), Write(id, TLR1, Upper(cycles))]
    ensures e.timers == t[Reg(id, TCSR0) := COUNT_DOWN_CONFIG][Reg(id, TCSR1) := 0]
                         [Reg(id, TLR0) := Lower(cycles)][Reg(id, TLR1) := Upper(cycles)]
  {
    var log := [Write(id, TCSR0, COUNT_DOWN_CONFIG), Write(id, TCSR1, 0),
                Write(id, TLR0, Lower(cycles)), Write(id, TLR1, Upper(cycles))];
    var t1 := t[Reg(id, TCSR0) := COUNT_DOWN_CONFIG];
    var t2 := t1[Reg(id, TCSR1) := 0];
    var t3 := t2[Reg(id, TLR0) := Lower(cycles)];
    var t4 := t3[Reg(id, TLR1) := Upper(cycles)];
    assert Apply(t, log) == Apply(t1, log[1..]);
    assert Apply(t1, log[1..]) == Apply(t2, log[2..]) by { assert log[1..][1..] == log[2..]; }
    assert Apply(t2, log[2..]) == Apply(t3, log[3..]) by { assert log[2..][1..] == log[3..]; }
    assert Apply(t3, log[3..]) == Apply(t4, []) by { assert log[3..][1..] == []; }
    Issue(t, log)
  }

  /** A word with the mask's bits set that agrees with `x` elsewhere is
      `x | mask`. */
  lemma PulsedValue(v: bv32, x: bv32, mask: bv32)
    requires v & mask == mask && AgreeOutside(v, x, mask)
    ensures v == x | mask
  {
  }

  /** intervalTimer_initCountDown for a period already converted to a cycle
      count: configure both control words, load both halves of the count,
      then reload. */
  function InitCountDown(t: Timers, id: TimerId, cycles: bv64): (e: Effect)
    requires Valid(t)
    ensures Valid(e.timers)
    ensures |e.log| == 8
    ensures e.log[0] == Write(id, TCSR0, 0x812) && e.log[1] == Write(id, TCSR1, 0)
    ensures e.log[2].offset == TLR0 && e.log[3].offset == TLR1
    ensures Join(e.log[2].value, e.log[3].value) == cycles
    ensures e.log[4] == Write(id, TCSR0, 0x832) && e.log[5] == Write(id, TCSR1, 0x20)
    ensures e.log[6] == Write(id, TCSR0, 0x812) && e.log[7] == Write(id, TCSR1, 0)
    ensures e.timers[Reg(id, TCSR0)] == 0x812 && e.timers[Reg(id, TCSR1)] == 0
    ensures Join(e.timers[Reg(id, TLR0)], e.timers[Reg(id, TLR1)]) == cycles
    ensures forall r: Reg :: IsRegister(r.offset) && (r.timer != id || r.offset == TCR0 || r.offset == TCR1) ==>
              r in t && e.timers[r] == t[r]
    ensures e.timers == Apply(t, e.log)
  {
    var configured := ConfigureCountDown(t, id, cycles);
    SplitJoinRoundTrip(cycles, 0, 0);
    var c := configured.timers;
    assert c[Reg(id, TCSR0)] == COUNT_DOWN_CONFIG == 0x812 && c[Reg(id, TCSR1)] == 0;
    var reload := Reload(c, id);
    PulsedValue(reload.log[0].value, 0x812, LOAD0);
    PulsedValue(reload.log[1].value, 0, LOAD1);
    ApplyConcat(t, configured.log, reload.log);
    Effect(reload.timers, configured.log + reload.log)
  }

  /** intervalTimer_getTotalDurationInSeconds, the part before the division
      by the clock frequency, AS WRITTEN. `samples` are the successive values
      the hardware returns: `samples[0]` is the TCR1 read before the loop and
      pass `j` (from 1) reads TCR0 as `samples[2j-1]` and TCR1 as `samples[2j]`.
      Because `prev` is never updated, the loop leaves only when a TCR1 read
      equals that first one. `None` means the supplied samples ran out first. */
  method ReadCountAsWritten(samples: seq<bv32>) returns (count: Option<bv64>, passes: nat)
    ensures count.Some? ==>
              && 1 <= passes && 2 * passes < |samples|
              && samples[2 * passes] == samples[0]
              && (forall j :: 1 <= j < passes ==> samples[2 * j] != samples[0])
              && count.value == Join(samples[2 * passes - 1], samples[0])
    ensures count.None? ==> forall j :: 1 <= j && 2 * j < |samples| ==> samples[2 * j] != samples[0]
  {
    if |samples| == 0 {
      return None, 0;
    }
    var prev := samples[0];
    passes := 0;
    while 2 * passes + 2 < |samples|
      invariant 2 * passes < |samples|
      invariant forall j :: 1 <= j <= passes ==> samples[2 * j] != prev
    {
      var lower := samples[2 * passes + 1];
      var upper := samples[2 * passes + 2];
      passes := passes + 1;
      if upper == prev {
        return Some(Join(lower, upper)), passes;
      }
    }
    return None, passes;
  }

  /** The same read with `prev` refreshed after every pass, as the loop's
      comment describes: it leaves once two consecutive TCR1 samples agree, so
      the TCR0 read between them belongs to the same upper half. */
  method ReadCount(samples: seq<bv32>) returns (count: Option<bv64>, passes: nat)
    ensures count.Some? ==>
              && 1 <= passes && 2 * passes < |samples|
              && samples[2 * passes] == samples[2 * passes - 2]
              && (forall j :: 1 <= j < passes ==> samples[2 * j] != samples[2 * j - 2])
              && count.value == Join(samples[2 * passes - 1], samples[2 * passes])
    ensures count.None? ==> forall j :: 1 <= j && 2 * j < |samples| ==> samples[2 * j] != samples[2 * j - 2]
  {
    if |samples| == 0 {
      return None, 0;
    }
    var prev := samples[0];
    passes := 0;
    while 2 * passes + 2 < |samples|
      invariant 2 * passes < |samples|
      invariant prev == samples[2 * passes]
      invariant forall j :: 1 <= j <= passes ==> samples[2 * j] != samples[2 * j - 2]
    {
      var lower := samples[2 * passes + 1];
      var upper := samples[2 * passes + 2];
      passes := passes + 1;
      if upper == prev {
        return Some(Join(lower, upper)), passes;
      }
      prev := upper;
    }
    return None, passes;
  }

  /** A count-up timer whose low half rolls over just after the first TCR1
      read: TCR1 goes 0 -> 1 and stays 1. The loop as written keeps waiting
      for TCR1 to read 0 again; the corrected loop returns the consistent
      pair (6, 1). */
  method RolloverExample() returns (asWritten: Option<bv64>, corrected: Option<bv64>)
    ensures asWritten == None
    ensures corrected == Some(0x1_0000_0006)
  {
    var samples: seq<bv32> := [0, 5, 1, 6, 1];
    var p1, p2;
    asWritten, p1 := ReadCountAsWritten(samples);
    assert samples[2] != samples[0] && samples[4] != samples[0];
    var stable := 2;
    assert samples[2 * stable] == samples[2 * stable - 2];
    corrected, p2 := ReadCount(samples);
    if corrected.None? {
      assert false;
    } else {
      assert p2 != 1;
      assert p2 == 2;
      assert Join(6, 1) == 0x1_0000_0006;
    }
  }
}
