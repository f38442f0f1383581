/**
 * The queue engine of the GPU device: descriptor collection
 * (virtio-gpu.c:754-778), virtio_queue_notify_handler (virtio-gpu.c:907-966)
 * and virtio_gpu_reg_write (virtio-gpu.c:1058-1142).
 *
 * Unlike the block device, a turn can end the batch early: an unknown
 * command fails the device and the handler returns without publishing the
 * used index, and a command that dereferences a missing resource ends the
 * emulator.
 */
module GpuQueue {
  import opened Common
  import opened GuestRam
  import opened Virtio
  import opened VirtioGpu
  import opened GpuCommands

  // ---------------------------------------------------------------------
  // Collecting descriptors

  /**
   * The collecting loop from descriptor idx with `got` already collected:
   * at most three descriptors, stopping after the first without NEXT.  No
   * index is checked against QueueNum.
   */
  function CollectFrom(ram: seq<u32>, q: Queue, idx: int, got: seq<Desc>): (ds: seq<Desc>)
    requires |got| < 3
    ensures |got| < |ds| <= 3
    decreases 3 - |got|
  {
    var d := DescAt(ram, q, idx);
    if HasNext(d) && |got| < 2 then CollectFrom(ram, q, d.next as int, got + [d]) else got + [d]
  }

  /** The descriptors of the chain at head, as virtio_gpu_desc_handler collects them. */
  function Collect(ram: seq<u32>, q: Queue, head: int): seq<Desc>
  {
    CollectFrom(ram, q, head, [])
  }

  /** Each descriptor of ds from position `from` on, but the last, has NEXT and names the following one. */
  ghost predicate LinkedFrom(ram: seq<u32>, q: Queue, ds: seq<Desc>, from: nat)
  {
    forall i :: from <= i < |ds| - 1 ==> HasNext(ds[i]) && ds[i + 1] == DescAt(ram, q, ds[i].next as int)
  }

  lemma {:induction false} CollectFromShape(ram: seq<u32>, q: Queue, idx: int, got: seq<Desc>)
    requires |got| < 3
    ensures var ds := CollectFrom(ram, q, idx, got);
            && ds[..|got|] == got && ds[|got|] == DescAt(ram, q, idx)
            && LinkedFrom(ram, q, ds, |got|)
            && (|ds| < 3 ==> !HasNext(ds[|ds| - 1]))
    decreases 3 - |got|
  {
    var d := DescAt(ram, q, idx);
    if HasNext(d) && |got| < 2 {
      var ds := CollectFrom(ram, q, d.next as int, got + [d]);
      CollectFromShape(ram, q, d.next as int, got + [d]);
      assert ds[..|got| + 1][..|got|] == ds[..|got|];
    }
  }

  /**
   * The collected chain starts at head, follows NEXT links, holds between
   * one and three descriptors, and stops early only at a descriptor
   * without NEXT.
   */
  lemma CollectShape(ram: seq<u32>, q: Queue, head: int)
    ensures var ds := Collect(ram, q, head);
            && 1 <= |ds| <= 3 && ds[0] == DescAt(ram, q, head)
            && LinkedFrom(ram, q, ds, 0)
            && (|ds| < 3 ==> !HasNext(ds[|ds| - 1]))
  {
    CollectFromShape(ram, q, head, []);
  }

  // ---------------------------------------------------------------------
  // One turn of the notify loop

  /** How a turn ends: go on, end the batch with the device failed, or end the emulator. */
  datatype Step = Next(state: GpuState) | Abort(state: GpuState) | Halt

  /**
   * One turn on queue qi: run the command of the chain the next avail slot
   * names; then advance last_avail and record (head, length) at used ring
   * position newUsed % QueueNum.  A rejected command fails the device once
   * more and ends the batch.  A turn on a queue of size 0 does nothing.
   */
  function Consume(s: GpuState, qi: nat, newUsed: u16): Step
    requires s.Valid()
  {
    if qi < QUEUE_COUNT && s.t.queues[qi].num > 0 then
      var q := s.t.queues[qi];
      var head := AvailEntry(s.ram, q, Wrap16(q.lastAvail % q.num));
      match Dispatch(s, Collect(s.ram, q, head))
      case Crash => Halt
      case Reject(s1) => Abort(s1.(t := SetFail(s1.t)))
      case Reply(s1, len) =>
        var q' := q.(lastAvail := Wrap16(q.lastAvail as int + 1));
        Next(s1.(t := s1.t.(queues := s1.t.queues[qi := q']),
                 ram := WithUsedElem(s1.ram, q, newUsed, head as u32, len)))
    else Next(s)
  }

  /** The loop body of the notify handler on queue qi. */
  function Turn(qi: nat): (GpuState, u16) -> Step
  {
    (s: GpuState, newUsed: u16) => if s.Valid() then Consume(s, qi, newUsed) else Halt
  }

  /**
   * `step` is the loop body on queue qi.  The trigger keeps the body of
   * Consume out of contexts that only use `step`.
   */
  ghost predicate IsTurn(step: (GpuState, u16) -> Step, qi: nat)
  {
    forall s: GpuState, u: u16 {:trigger Consume(s, qi, u)} :: s.Valid() ==> step(s, u) == Consume(s, qi, u)
  }

  lemma TurnIsTurn(qi: nat)
    ensures IsTurn(Turn(qi), qi)
  {
  }

  /**
   * What a turn on queue qi may do: go on with last_avail one further and
   * the configuration and scanouts kept, or end the batch with the device
   * failed and nothing else changed.
   */
  ghost predicate TurnEffect(r: Step, s: GpuState, qi: nat)
    requires s.Valid() && qi < QUEUE_COUNT
  {
    match r
    case Next(s') =>
      && s'.Valid() && |s'.ram| == |s.ram|
      && SameConfig(s'.t, s.t, qi)
      && s'.t.queues[qi].lastAvail == Wrap16(s.t.queues[qi].lastAvail + 1)
      && s'.scanouts == s.scanouts && s'.numScanouts == s.numScanouts
    case Abort(s') => s' == s.(t := SetFail(s.t))
    case Halt => true
  }

  ghost predicate AdvancesAlways(step: (GpuState, u16) -> Step, qi: nat)
  {
    forall s: GpuState, u: u16 {:trigger TurnEffect(step(s, u), s, qi)} ::
      s.Valid() && qi < QUEUE_COUNT && s.t.queues[qi].num > 0 ==> TurnEffect(step(s, u), s, qi)
  }

  /**
   * A turn goes on with last_avail advanced, or fails the device exactly as
   * a single set_fail would, or ends the emulator.
   */
  lemma ConsumeEffect(s: GpuState, qi: nat, newUsed: u16)
    requires s.Valid() && qi < QUEUE_COUNT && s.t.queues[qi].num > 0
    ensures TurnEffect(Consume(s, qi, newUsed), s, qi)
  {
    SetFailIdempotent(s.t);
  }

  lemma TurnAdvances(qi: nat)
    requires qi < QUEUE_COUNT
    ensures AdvancesAlways(Turn(qi), qi)
  {
    forall s: GpuState, u: u16 | s.Valid() && s.t.queues[qi].num > 0
      ensures TurnEffect(Turn(qi)(s, u), s, qi)
    {
      ConsumeEffect(s, qi, u);
    }
  }

  /**
   * A turn that goes on has recorded the chain's head and the command's
   * reply length in the used ring at position newUsed % QueueNum.
   */
  lemma ConsumeRecords(s: GpuState, qi: nat, newUsed: u16)
    requires s.Valid() && qi < QUEUE_COUNT && s.t.queues[qi].num > 0
    ensures var q := s.t.queues[qi];
            var head := AvailEntry(s.ram, q, Wrap16(q.lastAvail % q.num));
            var d := Dispatch(s, Collect(s.ram, q, head));
            && (d.Reply? <==> Consume(s, qi, newUsed).Next?)
            && (d.Reply? ==> Consume(s, qi, newUsed).state.ram == WithUsedElem(d.state.ram, q, newUsed, head as u32, d.len))
            && (d.Crash? <==> Consume(s, qi, newUsed).Halt?)
  {
  }

  // ---------------------------------------------------------------------
  // The batch

  /** How the loop ends: all entries consumed, a command rejected, or the emulator gone. */
  datatype Batch = Finished(state: GpuState, newUsed: u16) | Aborted(state: GpuState) | Crashed

  /**
   * At most n turns of `step`, handed the local copy of the used index;
   * the first turn that does not go on ends the loop.
   */
  function Run(step: (GpuState, u16) -> Step, s: GpuState, n: nat, newUsed: u16): Batch
    decreases n
  {
    if n == 0 then Finished(s, newUsed)
    else match step(s, newUsed)
      case Next(s1) => Run(step, s1, n - 1, Wrap16(newUsed as int + 1))
      case Abort(s1) => Aborted(s1)
      case Halt => Crashed
  }

  /**
   * A batch of n turns that runs to the end has advanced last_avail and
   * the used index by n modulo 2^16 and kept the configuration and the
   * scanouts; one that is cut short leaves the device failed and the
   * configuration kept.
   */
  lemma {:induction false} RunEffect(step: (GpuState, u16) -> Step, qi: nat, s: GpuState, n: nat, newUsed: u16)
    requires s.Valid() && qi < QUEUE_COUNT && s.t.queues[qi].num > 0
    requires AdvancesAlways(step, qi)
    ensures match Run(step, s, n, newUsed)
            case Finished(r, u) =>
              && r.Valid() && |r.ram| == |s.ram|
              && r.t.queues[qi] == s.t.queues[qi].(lastAvail := Wrap16(s.t.queues[qi].lastAvail + n))
              && SameConfig(r.t, s.t, qi)
              && r.scanouts == s.scanouts && r.numScanouts == s.numScanouts
              && u == Wrap16(newUsed + n)
            case Aborted(r) =>
              && r.Valid() && |r.ram| == |s.ram|
              && SameConfig(r.t, s.t, qi)
              && Bit(r.t.status, 6)
            case Crashed => true
    decreases n
  {
    if n > 0 {
      var s1 := step(s, newUsed);
      assert TurnEffect(s1, s, qi);
      match s1
      case Next(s2) =>
        RunEffect(step, qi, s2, n - 1, Wrap16(newUsed as int + 1));
        Wrap16Succ(s.t.queues[qi].lastAvail, n - 1);
        Wrap16Succ(newUsed, n - 1);
      case Abort(s2) =>
        SetFailBits(s.t);
      case Halt =>
    }
  }

  /** One more turn of the batch, from the front. */
  lemma RunUnroll(step: (GpuState, u16) -> Step, s: GpuState, n: nat, newUsed: u16)
    requires n > 0
    ensures Run(step, s, n, newUsed) ==
            match step(s, newUsed)
            case Next(s1) => Run(step, s1, n - 1, Wrap16(newUsed as int + 1))
            case Abort(s1) => Aborted(s1)
            case Halt => Crashed
  {
  }

  // ---------------------------------------------------------------------
  // The notify handler

  /**
   * virtio_queue_notify_handler on queue qi.  `None` is the end of the
   * emulator: a dereferenced missing resource, or the division by a zero
   * QueueNum in the slot computation.
   */
  function Notify(s: GpuState, qi: nat): (r: Option<GpuState>)
    requires s.Valid() && qi < QUEUE_COUNT
    ensures r.Some? ==> r.value.Valid()
  {
    var q := s.t.queues[qi];
    if And(s.t.status, STATUS_DEVICE_NEEDS_RESET) != 0 then Some(s)
    else if !(And(s.t.status, STATUS_DRIVER_OK) != 0 && q.ready) then Some(s.(t := SetFail(s.t)))
    else
      var newAvail := AvailIdx(s.ram, q);
      if AvailOverrun(newAvail, q.lastAvail, q.num) then Some(s.(t := SetFail(s.t)))
      else if q.lastAvail == newAvail then Some(s)
      else if q.num == 0 then None
      else
        TurnAdvances(qi);
        Drain(Turn(qi), s, qi, newAvail)
  }

  /**
   * The loop of the notify handler with body `step`, and what follows it:
   * a batch run to the end publishes the used index and raises the
   * interrupt; a batch cut short returns at once.
   */
  function Drain(step: (GpuState, u16) -> Step, s: GpuState, qi: nat, newAvail: u16): (r: Option<GpuState>)
    requires s.Valid() && qi < QUEUE_COUNT && s.t.queues[qi].num > 0
    requires AdvancesAlways(step, qi)
    ensures r.Some? ==> r.value.Valid()
  {
    var q := s.t.queues[qi];
    var n := Pending(newAvail, q.lastAvail);
    RunEffect(step, qi, s, n, UsedIdx(s.ram, q));
    match Run(step, s, n, UsedIdx(s.ram, q))
    case Crashed => None
    case Aborted(r) => Some(r)
    case Finished(b, u) =>
      var p := Publish(b.ram, b.t.interruptStatus, q, u);
      Some(b.(ram := p.0, t := b.t.(interruptStatus := p.1)))
  }

  /**
   * The guards of the notify handler: nothing happens under
   * DEVICE_NEEDS_RESET; the device fails when DRIVER_OK is clear, the queue
   * is not ready or the avail index ran more than QueueNum ahead; nothing
   * happens when there is nothing new; otherwise the batch runs, unless
   * QueueNum is 0.
   */
  lemma NotifyGuards(s: GpuState, qi: nat)
    requires s.Valid() && qi < QUEUE_COUNT
    ensures AdvancesAlways(Turn(qi), qi)
    ensures var q := s.t.queues[qi];
            var newAvail := AvailIdx(s.ram, q);
            && (Bit(s.t.status, 6) ==> Notify(s, qi) == Some(s))
            && (!Bit(s.t.status, 6) && !(Bit(s.t.status, 2) && q.ready) ==>
                  Notify(s, qi) == Some(s.(t := SetFail(s.t))))
            && (!Bit(s.t.status, 6) && Bit(s.t.status, 2) && q.ready ==>
                  && (newAvail - q.lastAvail > q.num % 0x1_0000 ==> Notify(s, qi) == Some(s.(t := SetFail(s.t))))
                  && (newAvail == q.lastAvail ==> Notify(s, qi) == Some(s))
                  && (newAvail - q.lastAvail <= q.num % 0x1_0000 && newAvail != q.lastAvail ==>
                        Notify(s, qi) == if q.num == 0 then None else Drain(Turn(qi), s, qi, newAvail)))
  {
    TurnAdvances(qi);
    Pow2Constants();
    assert Pow2(6) == 64 && Pow2(2) == 4;
    AndPow2(s.t.status, 6);
    AndPow2(s.t.status, 2);
  }

  /**
   * A batch run to the end leaves last_avail equal to the avail index and
   * keeps the rest of the configuration and the scanouts.
   */
  lemma DrainCatchesUp(step: (GpuState, u16) -> Step, s: GpuState, qi: nat, newAvail: u16)
    requires s.Valid() && qi < QUEUE_COUNT && s.t.queues[qi].num > 0
    requires AdvancesAlways(step, qi)
    requires Run(step, s, Pending(newAvail, s.t.queues[qi].lastAvail), UsedIdx(s.ram, s.t.queues[qi])).Finished?
    ensures var r := Drain(step, s, qi, newAvail).value;
            && SameConfig(r.t, s.t, qi)
            && r.t.queues[qi].lastAvail == newAvail
            && r.scanouts == s.scanouts && r.numScanouts == s.numScanouts
  {
    var q := s.t.queues[qi];
    RunEffect(step, qi, s, Pending(newAvail, q.lastAvail), UsedIdx(s.ram, q));
    PendingCatchesUp(newAvail, q.lastAvail);
  }

  /**
   * A batch run to the end publishes the used index advanced by the number
   * of entries modulo 2^16, and raises USED_RING, and no other interrupt
   * bit, unless the driver suppressed interrupts.
   */
  lemma DrainPublishes(step: (GpuState, u16) -> Step, s: GpuState, qi: nat, newAvail: u16)
    requires s.Valid() && qi < QUEUE_COUNT && s.t.queues[qi].num > 0
    requires AdvancesAlways(step, qi)
    requires WordInRam(s.ram, s.t.queues[qi].used)
    requires Run(step, s, Pending(newAvail, s.t.queues[qi].lastAvail), UsedIdx(s.ram, s.t.queues[qi])).Finished?
    ensures var q := s.t.queues[qi];
            var n := Pending(newAvail, q.lastAvail);
            var b := Run(step, s, n, UsedIdx(s.ram, q)).state;
            var r := Drain(step, s, qi, newAvail).value;
            && UsedIdx(r.ram, q) == Wrap16(UsedIdx(s.ram, q) + n)
            && (Bit(r.t.interruptStatus, 0) <==> Bit(b.t.interruptStatus, 0) || !NoInterrupt(r.ram, q))
            && (forall k: nat :: k != 0 ==> (Bit(r.t.interruptStatus, k) <==> Bit(b.t.interruptStatus, k)))
  {
    var q := s.t.queues[qi];
    var n := Pending(newAvail, q.lastAvail);
    var b := Run(step, s, n, UsedIdx(s.ram, q));
    FinishedCounts(step, qi, s, n, UsedIdx(s.ram, q));
    var p := Publish(b.state.ram, b.state.t.interruptStatus, q, b.newUsed);
    assert Drain(step, s, qi, newAvail) == Some(b.state.(ram := p.0, t := b.state.t.(interruptStatus := p.1)));
    PublishEffect(b.state.ram, b.state.t.interruptStatus, q, b.newUsed, q.used);
  }

  /** A batch run to the end keeps the size of RAM and counts the used index on by n. */
  lemma FinishedCounts(step: (GpuState, u16) -> Step, qi: nat, s: GpuState, n: nat, newUsed: u16)
    requires s.Valid() && qi < QUEUE_COUNT && s.t.queues[qi].num > 0
    requires AdvancesAlways(step, qi)
    requires Run(step, s, n, newUsed).Finished?
    ensures var b := Run(step, s, n, newUsed);
            |b.state.ram| == |s.ram| && b.newUsed == Wrap16(newUsed + n)
  {
    RunEffect(step, qi, s, n, newUsed);
  }

  /**
   * A batch cut short by a rejected command leaves the device failed,
   * the configuration kept and the used index unpublished.
   */
  lemma DrainAborted(step: (GpuState, u16) -> Step, s: GpuState, qi: nat, newAvail: u16)
    requires s.Valid() && qi < QUEUE_COUNT && s.t.queues[qi].num > 0
    requires AdvancesAlways(step, qi)
    requires Run(step, s, Pending(newAvail, s.t.queues[qi].lastAvail), UsedIdx(s.ram, s.t.queues[qi])).Aborted?
    ensures var q := s.t.queues[qi];
            var r := Drain(step, s, qi, newAvail);
            && r == Some(Run(step, s, Pending(newAvail, q.lastAvail), UsedIdx(s.ram, q)).state)
            && SameConfig(r.value.t, s.t, qi)
            && Bit(r.value.t.status, 6)
  {
    var q := s.t.queues[qi];
    RunEffect(step, qi, s, Pending(newAvail, q.lastAvail), UsedIdx(s.ram, q));
  }

  // ---------------------------------------------------------------------
  // Register writes

  /** The configuration words that accept a write: events_clear alone. */
  predicate ConfigWritable(addr: u32)
  {
    RangeCheck(addr, Config, CONFIG_SIZE) && Wrap32((addr - Config) * 4) == 4
  }

  /** virtio_gpu_reg_write on word offset addr. */
  function RegWrite(s: GpuState, addr: u32, value: u32): (r: Access<GpuState>)
    requires s.Valid()
    ensures r.Done? ==> r.state.Valid()
  {
    if addr == QueueNotify then
      if value < QUEUE_COUNT as u32 then
        match Notify(s, value as nat)
        case Some(s') => Done(s', true)
        case None => Halted
      else Done(s.(t := SetFail(s.t)), true)
    else if addr == Status then Done(UpdateStatus(s, value), true)
    else if addr == SHMSel then Done(s, true)
    else
      match TransportWrite(s.t, s.ram, VGPU_QUEUE_NUM_MAX, addr, value)
      case Some(t') => Done(s.(t := t'), true)
      case None => Done(s, ConfigWritable(addr))
  }

  /**
   * A notification of a queue that does not exist fails the device; a
   * write to events_clear is accepted and ignored.
   */
  lemma RegWriteEdges(s: GpuState, value: u32)
    requires s.Valid()
    ensures value >= 2 ==> RegWrite(s, QueueNotify, value) == Done(s.(t := SetFail(s.t)), true)
    ensures RegWrite(s, Config + 1, value) == Done(s, true)
  {
    ConfigRange(Config + 1);
  }

  /** The offsets the bank does not have are refused without any change. */
  lemma RegWriteRefused(s: GpuState, addr: u32, value: u32)
    requires s.Valid() && addr < 0x4000_0000
    ensures RegWrite(s, addr, value) == Done(s, false) <==>
            addr !in {5, 8, 9, 12, 14, 17, 20, 25, 28, 32, 33, 36, 37, 40, 41, 43, 65}
  {
    if addr == QueueNotify {
      NotifyAccepted(s, value);
    } else {
      TransportWriteOffsets(s.t, s.ram, VGPU_QUEUE_NUM_MAX, addr, value);
      if addr >= Config {
        ConfigWritableWindow(addr);
      } else {
        ConfigRange(addr);
      }
    }
  }

  /** A notification is always accepted, unless the emulator is gone. */
  lemma NotifyAccepted(s: GpuState, value: u32)
    requires s.Valid()
    ensures RegWrite(s, QueueNotify, value).Halted? || RegWrite(s, QueueNotify, value).accepted
  {
  }

  /** Past the registers, only events_clear accepts a write. */
  lemma ConfigWritableWindow(addr: u32)
    requires Config <= addr < 0x4000_0000
    ensures ConfigWritable(addr) <==> addr == Config + 1
  {
    ConfigRange(addr);
    if addr < Config + 16 {
      ConfigOffset(addr);
    }
  }
}
