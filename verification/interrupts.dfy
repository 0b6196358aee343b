/** The interrupt-controller driver: a table of user callbacks, one per
    input line of the AXI interrupt controller, the writes that program the
    controller, and the dispatch pass the processor runs on every interrupt.

    Callbacks are opaque identities; invoking one is an event in a trace.
    The IPR is re-read for every line, so a pass takes one IPR sample per
    line. */
module Interrupts {
  import opened Common

  /** The identity of a user-supplied service routine. */
  type CallbackId = nat

  /** `isrFcnPtrs`: entry `i` is the routine for input line `i`, or NULL. */
  type Table = seq<Option<CallbackId>>

  /** The controller has at most 32 inputs: one bit of each register each. */
  const MAX_LINES: nat := 32

  const IPR: int := 0x04
  const IER: int := 0x08
  const IAR: int := 0x0C
  const SIE: int := 0x10
  const CIE: int := 0x14
  const MER: int := 0x1C

  const MER_ME: bv32 := 0x1
  const MER_HIE: bv32 := 0x2

  /** The table as the program loads it: no routine on any line. */
  function InitialTable(lines: nat): (t: Table)
    ensures |t| == lines
    ensures forall i :: 0 <= i < lines ==> t[i].None?
  {
    seq(lines, _ => None)
  }

  /** The single-bit mask `1 << line`. */
  function LineMask(line: nat): bv32
    requires line < MAX_LINES
  {
    (1 as bv32) << line
  }

  /** The lines whose bit is set in a register word. */
  function Lines(word: bv32): (s: set<nat>)
    ensures forall i: nat :: i in s <==> i < MAX_LINES && word & LineMask(i) != 0
  {
    var s := set i: nat | i < MAX_LINES && LineSet(word, i);
    assert forall i: nat :: i in s <==> i < MAX_LINES && LineSet(word, i);
    s
  }

  /** Line `i`'s bit is set in `word`. */
  predicate LineSet(word: bv32, i: nat)
    requires i < MAX_LINES
  {
    word & LineMask(i) != 0
  }

  /** A write to one of the controller's registers. */
  datatype RegWrite = RegWrite(offset: int, value: bv32)

  /** The controller registers the driver programs: the master enable and the
      input enable. */
  datatype Controller = Controller(mer: bv32, ier: bv32)

  /** How the controller takes a write: MER and IER are stored, SIE sets the
      given enable bits, CIE clears them; other registers leave both words
      alone. */
  function Deliver(c: Controller, w: RegWrite): Controller {
    if w.offset == MER then c.(mer := w.value)
    else if w.offset == IER then c.(ier := w.value)
    else if w.offset == SIE then c.(ier := c.ier | w.value)
    else if w.offset == CIE then c.(ier := c.ier & !w.value)
    else c
  }

  /** Delivers a sequence of writes, first write first. */
  function DeliverAll(c: Controller, log: seq<RegWrite>): Controller
    decreases |log|
  {
    if |log| == 0 then c else DeliverAll(Deliver(c, log[0]), log[1..])
  }

  /** interrupts_init: master and hardware enable on, then every input line
      off, whatever the controller held before. */
  function Init(): (log: seq<RegWrite>)
    ensures |log| == 2 && log[0].offset == MER && log[1].offset == IER
    ensures log[0].value & MER_ME != 0 && log[0].value & MER_HIE != 0
    ensures Lines(log[1].value) == {}
    ensures log[0].value == 0x3 && log[1].value == 0
  {
    [RegWrite(MER, MER_ME | MER_HIE), RegWrite(IER, 0)]
  }

  /** After init the master enables are on and no input line is enabled,
      whatever the controller held before. */
  lemma InitDisablesEveryLine(c: Controller)
    ensures DeliverAll(c, Init()).mer & MER_ME != 0
    ensures DeliverAll(c, Init()).mer & MER_HIE != 0
    ensures Lines(DeliverAll(c, Init()).ier) == {}
  {
    var log := Init();
    assert log[1..][1..] == [];
    assert DeliverAll(c, log) == DeliverAll(Deliver(Deliver(c, log[0]), log[1]), []);
  }

  /** interrupts_register: entry `irq` becomes `cb`; no other entry moves. */
  function Register(t: Table, irq: nat, cb: CallbackId): (r: Table)
    requires irq < |t|
    ensures |r| == |t|
    ensures r[irq] == Some(cb)
    ensures forall i :: 0 <= i < |t| && i != irq ==> r[i] == t[i]
  {
    t[irq := Some(cb)]
  }

  /** Registering twice on one line keeps only the second routine. */
  lemma RegisterOverwrites(t: Table, irq: nat, first: CallbackId, second: CallbackId)
    requires irq < |t|
    ensures Register(Register(t, irq, first), irq, second) == Register(t, irq, second)
  {
  }

  /** interrupts_irq_enable: one write of `1 << irq` to SIE. */
  function IrqEnable(irq: nat): (w: RegWrite)
    requires irq < MAX_LINES
    ensures w.offset == SIE
    ensures Lines(w.value) == {irq}
  {
    OnlyLine(irq);
    RegWrite(SIE, LineMask(irq))
  }

  /** interrupts_irq_disable: one write of `1 << irq` to CIE. */
  function IrqDisable(irq: nat): (w: RegWrite)
    requires irq < MAX_LINES
    ensures w.offset == CIE
    ensures Lines(w.value) == {irq}
  {
    OnlyLine(irq);
    RegWrite(CIE, LineMask(irq))
  }

  /** The mask of a line has that line's bit and no other. */
  lemma OnlyLine(irq: nat)
    requires irq < MAX_LINES
    ensures Lines(LineMask(irq)) == {irq}
  {
    forall i: nat | i < MAX_LINES
      ensures LineMask(irq) & LineMask(i) != 0 <==> i == irq
    {
      MaskBit(irq, i);
    }
  }

  lemma MaskBit(irq: nat, i: nat)
    requires irq < MAX_LINES && i < MAX_LINES
    ensures LineMask(irq) & LineMask(i) != 0 <==> i == irq
  {
  }

  /** Setting one line's bit in a word adds that line, and only it. */
  lemma SetBitLines(word: bv32, irq: nat)
    requires irq < MAX_LINES
    ensures Lines(word | LineMask(irq)) == Lines(word) + {irq}
  {
    forall i: nat | i < MAX_LINES
      ensures (word | LineMask(irq)) & LineMask(i) != 0 <==> word & LineMask(i) != 0 || i == irq
    {
      OrBit(word, irq, i);
    }
  }

  /** Clearing one line's bit in a word removes that line, and only it. */
  lemma ClearBitLines(word: bv32, irq: nat)
    requires irq < MAX_LINES
    ensures Lines(word & !LineMask(irq)) == Lines(word) - {irq}
  {
    forall i: nat | i < MAX_LINES
      ensures (word & !LineMask(irq)) & LineMask(i) != 0 <==> word & LineMask(i) != 0 && i != irq
    {
      AndNotBit(word, irq, i);
    }
  }

  lemma OrBit(word: bv32, irq: nat, i: nat)
    requires irq < MAX_LINES && i < MAX_LINES
    ensures (word | LineMask(irq)) & LineMask(i) != 0 <==> word & LineMask(i) != 0 || i == irq
  {
    MaskBit(irq, i);
    var m, n := LineMask(irq), LineMask(i);
    assert (word | m) & n == (word & n) | (m & n);
  }

  lemma AndNotBit(word: bv32, irq: nat, i: nat)
    requires irq < MAX_LINES && i < MAX_LINES
    ensures (word & !LineMask(irq)) & LineMask(i) != 0 <==> word & LineMask(i) != 0 && i != irq
  {
    MaskBit(irq, i);
    var m, n := LineMask(irq), LineMask(i);
    if i == irq {
      assert (word & !m) & m == 0;
    } else {
      assert (word & !m) & n == word & n;
    }
  }

  /** Enabling a line adds it to the enabled set and changes nothing else. */
  lemma EnableAddsLine(c: Controller, irq: nat)
    requires irq < MAX_LINES
    ensures Lines(Deliver(c, IrqEnable(irq)).ier) == Lines(c.ier) + {irq}
    ensures Deliver(c, IrqEnable(irq)).mer == c.mer
  {
    SetBitLines(c.ier, irq);
  }

  /** Disabling a line removes it from the enabled set and changes nothing
      else. */
  lemma DisableRemovesLine(c: Controller, irq: nat)
    requires irq < MAX_LINES
    ensures Lines(Deliver(c, IrqDisable(irq)).ier) == Lines(c.ier) - {irq}
    ensures Deliver(c, IrqDisable(irq)).mer == c.mer
  {
    ClearBitLines(c.ier, irq);
  }

  /** What a dispatch pass does, in order: call a routine, or write a mask
      to the acknowledge register. */
  datatype Event = Invoke(line: nat, callback: CallbackId) | Acknowledge(line: nat, value: bv32)

  /** Line `i` is pending in an IPR sample. */
  predicate Pending(ipr: bv32, i: nat)
    requires i < MAX_LINES
  {
    ipr & LineMask(i) != 0
  }

  /** A table the controller can serve, with one IPR sample per line. */
  predicate Fits(t: Table, iprs: seq<bv32>) {
    |t| <= MAX_LINES && |iprs| == |t|
  }

  /** The events of the pass for line `i`. */
  function LineEvents(t: Table, iprs: seq<bv32>, i: nat): seq<Event>
    requires Fits(t, iprs) && i < |t|
  {
    (if Pending(iprs[i], i) && t[i].Some? then [Invoke(i, t[i].value)] else [])
      + [Acknowledge(i, LineMask(i))]
  }

  /** The events of the pass over lines `0 .. n-1`. */
  function Pass(t: Table, iprs: seq<bv32>, n: nat): seq<Event>
    requires Fits(t, iprs) && n <= |t|
  {
    if n == 0 then [] else Pass(t, iprs, n - 1) + LineEvents(t, iprs, n - 1)
  }

  /** interrupts_isr: the pass over every line, as a loop. */
  method Dispatch(t: Table, iprs: seq<bv32>) returns (trace: seq<Event>)
    requires Fits(t, iprs)
    ensures trace == Pass(t, iprs, |t|)
    ensures forall e :: e in trace ==> e.line < |t|
    ensures forall i: nat, cb: CallbackId :: Invoke(i, cb) in trace <==> i < |t| && Pending(iprs[i], i) && t[i] == Some(cb)
  {
    trace := [];
    var i := 0;
    while i < |t|
      invariant i <= |t|
      invariant trace == Pass(t, iprs, i)
    {
      if Pending(iprs[i], i) && t[i].Some? {
        trace := trace + [Invoke(i, t[i].value)];
      }
      trace := trace + [Acknowledge(i, LineMask(i))];
      i := i + 1;
    }
    PassLines(t, iprs, |t|);
    PassInvokes(t, iprs, |t|);
  }

  /** Every event of a pass over `n` lines belongs to one of them. */
  lemma {:induction false} PassLines(t: Table, iprs: seq<bv32>, n: nat)
    requires Fits(t, iprs) && n <= |t|
    ensures forall e :: e in Pass(t, iprs, n) ==> e.line < n
  {
    if n > 0 {
      PassLines(t, iprs, n - 1);
    }
  }

  /** A routine is called in the pass exactly when its line is pending and
      it is the line's entry. */
  lemma {:induction false} PassInvokes(t: Table, iprs: seq<bv32>, n: nat)
    requires Fits(t, iprs) && n <= |t|
    ensures forall i: nat, cb: CallbackId :: Invoke(i, cb) in Pass(t, iprs, n) <==>
              i < n && Pending(iprs[i], i) && t[i] == Some(cb)
  {
    if n > 0 {
      PassInvokes(t, iprs, n - 1);
      PassLines(t, iprs, n - 1);
    }
  }

  /** The lines acknowledged by a trace, in order. */
  function AckedLines(trace: seq<Event>): (r: seq<nat>)
    ensures |r| <= |trace|
  {
    if |trace| == 0 then []
    else (if trace[0].Acknowledge? then [trace[0].line] else []) + AckedLines(trace[1..])
  }

  lemma {:induction false} AckedLinesAppend(a: seq<Event>, b: seq<Event>)
    ensures AckedLines(a + b) == AckedLines(a) + AckedLines(b)
    decreases |a|
  {
    if |a| == 0 {
      assert a + b == b;
    } else {
      var head := if a[0].Acknowledge? then [a[0].line] else [];
      assert (a + b)[0] == a[0];
      assert (a + b)[1..] == a[1..] + b;
      assert AckedLines(a + b) == head + AckedLines(a[1..] + b);
      AckedLinesAppend(a[1..], b);
      assert AckedLines(a) == head + AckedLines(a[1..]);
    }
  }

  /** Every line is acknowledged exactly once per pass, in increasing line
      order, pending or not, registered or not. */
  lemma {:induction false} PassAcknowledgesEveryLineOnce(t: Table, iprs: seq<bv32>, n: nat)
    requires Fits(t, iprs) && n <= |t|
    ensures AckedLines(Pass(t, iprs, n)) == seq(n, i => i)
  {
    if n > 0 {
      PassAcknowledgesEveryLineOnce(t, iprs, n - 1);
      var line := LineEvents(t, iprs, n - 1);
      AckedLinesAppend(Pass(t, iprs, n - 1), line);
      var ack := [Acknowledge(n - 1, LineMask(n - 1))];
      if Pending(iprs[n - 1], n - 1) && t[n - 1].Some? {
        var inv := [Invoke(n - 1, t[n - 1].value)];
        AckedLinesAppend(inv, ack);
        assert inv[1..] == [];
      }
      assert ack[1..] == [];
    }
  }

  /** Every acknowledge write carries exactly its line's mask. */
  lemma {:induction false} PassAcknowledgesWithMask(t: Table, iprs: seq<bv32>, n: nat)
    requires Fits(t, iprs) && n <= |t|
    ensures forall e :: e in Pass(t, iprs, n) && e.Acknowledge? ==> e.line < MAX_LINES && e.value == LineMask(e.line)
  {
    if n > 0 {
      PassAcknowledgesWithMask(t, iprs, n - 1);
    }
  }

  /** Where an event falls in the order a pass produces events: by line,
      and within a line the call before the acknowledge. */
  function Rank(e: Event): nat {
    2 * e.line + (if e.Invoke? then 0 else 1)
  }

  /** A pass visits lines in increasing order; on each line it calls the
      routine, if at all, before it acknowledges. */
  lemma {:induction false} PassOrdered(t: Table, iprs: seq<bv32>, n: nat)
    requires Fits(t, iprs) && n <= |t|
    ensures forall a, b :: 0 <= a < b < |Pass(t, iprs, n)| ==>
              Rank(Pass(t, iprs, n)[a]) < Rank(Pass(t, iprs, n)[b])
  {
    if n > 0 {
      PassOrdered(t, iprs, n - 1);
      PassLines(t, iprs, n - 1);
      var p := Pass(t, iprs, n - 1);
      var l := LineEvents(t, iprs, n - 1);
      assert forall a :: 0 <= a < |p| ==> p[a] in p && Rank(p[a]) < 2 * (n - 1);
      assert forall b :: 0 <= b < |l| ==> 2 * (n - 1) <= Rank(l[b]);
      assert Pass(t, iprs, n) == p + l;
    }
  }

  /** A pending line with no routine is acknowledged and nothing is
      called for it. */
  lemma PendingUnregistered(t: Table, iprs: seq<bv32>, i: nat)
    requires Fits(t, iprs) && i < |t|
    requires Pending(iprs[i], i) && t[i].None?
    ensures forall cb :: Invoke(i, cb) !in Pass(t, iprs, |t|)
    ensures i in AckedLines(Pass(t, iprs, |t|))
  {
    PassInvokes(t, iprs, |t|);
    PassAcknowledgesEveryLineOnce(t, iprs, |t|);
    assert seq(|t|, j => j)[i] == i;
  }

  /** After a routine is replaced, a pass never calls the old one on that
      line. */
  lemma ReplacedNeverCalled(t: Table, iprs: seq<bv32>, irq: nat, first: CallbackId, second: CallbackId)
    requires Fits(t, iprs) && irq < |t| && first != second
    ensures Invoke(irq, first) !in Pass(Register(Register(t, irq, first), irq, second), iprs, |t|)
  {
    PassInvokes(Register(Register(t, irq, first), irq, second), iprs, |t|);
  }
}
