/**
 * The virtio-MMIO transport shared by the block and the GPU device, after
 * the VIRTIO 1.1 specification: the register offsets of its section 4.2.2,
 * the device status and interrupt bits (its sections 2.1 and 4.2.2), the
 * split virtqueue as it lies in guest RAM (its section 2.6), the
 * register-file writes that both devices implement identically, and the
 * access-width dispatch of the emulator's bus.
 */
module Virtio {
  import opened Common
  import opened GuestRam

  // ---------------------------------------------------------------------
  // Register word offsets (byte offset / 4)

  const MagicValue: u32 := 0x000 / 4
  const Version: u32 := 0x004 / 4
  const DeviceID: u32 := 0x008 / 4
  const VendorID: u32 := 0x00c / 4
  const DeviceFeatures: u32 := 0x010 / 4
  const DeviceFeaturesSel: u32 := 0x014 / 4
  const DriverFeatures: u32 := 0x020 / 4
  const DriverFeaturesSel: u32 := 0x024 / 4
  const QueueSel: u32 := 0x030 / 4
  const QueueNumMax: u32 := 0x034 / 4
  const QueueNum: u32 := 0x038 / 4
  const QueueReady: u32 := 0x044 / 4
  const QueueNotify: u32 := 0x050 / 4
  const InterruptStatus: u32 := 0x060 / 4
  const InterruptACK: u32 := 0x064 / 4
  const Status: u32 := 0x070 / 4
  const QueueDescLow: u32 := 0x080 / 4
  const QueueDescHigh: u32 := 0x084 / 4
  const QueueDriverLow: u32 := 0x090 / 4
  const QueueDriverHigh: u32 := 0x094 / 4
  const QueueDeviceLow: u32 := 0x0a0 / 4
  const QueueDeviceHigh: u32 := 0x0a4 / 4
  const SHMSel: u32 := 0x0ac / 4
  const SHMLenLow: u32 := 0x0b0 / 4
  const SHMLenHigh: u32 := 0x0b4 / 4
  const SHMBaseLow: u32 := 0x0b8 / 4
  const SHMBaseHigh: u32 := 0x0bc / 4
  const ConfigGeneration: u32 := 0x0fc / 4
  const Config: u32 := 0x100 / 4

  const MAGIC: u32 := 0x74726976
  const VIRTIO_VENDOR_ID: u32 := 0x12345678

  // Device status bits (section 2.1 of the VIRTIO 1.1 specification) and
  // interrupt bits (section 4.2.2 of the VIRTIO 1.1 specification)
  const STATUS_ACKNOWLEDGE: u32 := 1
  const STATUS_DRIVER: u32 := 2
  const STATUS_DRIVER_OK: u32 := 4
  const STATUS_FEATURES_OK: u32 := 8
  const STATUS_DEVICE_NEEDS_RESET: u32 := 64
  const STATUS_FAILED: u32 := 128
  const INT_USED_RING: u32 := 1
  const INT_CONF_CHANGE: u32 := 2

  /** VIRTQ_DESC_F_NEXT */
  const DESC_F_NEXT: u16 := 1

  /** ARRAY_SIZE(queues): both devices have two queues (device.h:151, 200). */
  const QUEUE_COUNT: nat := 2

  // ---------------------------------------------------------------------
  // Register file

  /**
   * One queue's configuration.  The three ring addresses are word indices
   * into RAM (the written byte address shifted right by two).
   */
  datatype Queue = Queue(num: u32, desc: u32, avail: u32, used: u32, lastAvail: u16, ready: bool)

  const ZeroQueue := Queue(0, 0, 0, 0, 0, false)

  /** The register fields the two device records have in common. */
  datatype Transport = Transport(
    deviceFeaturesSel: u32,
    driverFeatures: u32,
    driverFeaturesSel: u32,
    queueSel: u32,
    queues: seq<Queue>,
    status: u32,
    interruptStatus: u32)
  {
    predicate Valid()
    {
      |queues| == QUEUE_COUNT && queueSel < QUEUE_COUNT
    }

    /** VBLK_QUEUE / VGPU_QUEUE: the queue QueueSel points at. */
    function Sel(): Queue
      requires Valid()
    {
      queues[queueSel]
    }

    function WithSel(q: Queue): (t: Transport)
      requires Valid()
      ensures t.Valid()
    {
      this.(queues := queues[queueSel := q])
    }
  }

  /** The register file after `memset(dev, 0, sizeof(*dev))`. */
  const ZeroTransport := Transport(0, 0, 0, 0, [ZeroQueue, ZeroQueue], 0, 0)

  /**
   * The Status write of both devices for a nonzero value (section 2.1 of
   * the VIRTIO 1.1 specification: status bits only accumulate): the value
   * is OR'd into Status.
   */
  function AddStatus(t: Transport, value: u32): Transport
  {
    t.(status := Or32(t.status, value))
  }

  /** A nonzero Status write only adds its bits; nothing else changes. */
  lemma StatusAccumulates(t: Transport, value: u32)
    ensures var r := AddStatus(t, value);
            && r == t.(status := r.status)
            && forall k: nat :: Bit(r.status, k) <==> Bit(t.status, k) || Bit(value, k)
  {
    forall k: nat
      ensures Bit(Or32(t.status, value), k) <==> Bit(t.status, k) || Bit(value, k)
    {
      OrBit(t.status, value, k);
    }
  }

  /**
   * virtio_blk_set_fail / virtio_gpu_set_fail: raise DEVICE_NEEDS_RESET and,
   * once the driver is running, signal a configuration change.
   */
  function SetFail(t: Transport): Transport
  {
    var status := Or32(t.status, STATUS_DEVICE_NEEDS_RESET);
    t.(status := status,
       interruptStatus := if And(status, STATUS_DRIVER_OK) != 0
                          then Or32(t.interruptStatus, INT_CONF_CHANGE)
                          else t.interruptStatus)
  }

  /**
   * set_fail sets bit 6 of Status and no other; it sets bit 1 of
   * InterruptStatus, and no other, exactly when bit 2 (DRIVER_OK) of Status
   * was already set; the rest of the register file is unchanged.
   */
  lemma SetFailBits(t: Transport)
    ensures Bit(SetFail(t).status, 6)
    ensures forall k: nat :: k != 6 ==> (Bit(SetFail(t).status, k) <==> Bit(t.status, k))
    ensures Bit(SetFail(t).interruptStatus, 1) <==> Bit(t.interruptStatus, 1) || Bit(t.status, 2)
    ensures forall k: nat :: k != 1 ==> (Bit(SetFail(t).interruptStatus, k) <==> Bit(t.interruptStatus, k))
    ensures SetFail(t).(status := t.status, interruptStatus := t.interruptStatus) == t
  {
    Pow2Constants();
    var r := SetFail(t);
    assert STATUS_DEVICE_NEEDS_RESET == Pow2(6) && STATUS_DRIVER_OK == Pow2(2) && INT_CONF_CHANGE == Pow2(1) by {
      assert Pow2(1) == 2;
      assert Pow2(2) == 4;
      assert Pow2(6) == 64;
    }
    forall k: nat
      ensures Bit(r.status, k) <==> Bit(t.status, k) || k == 6
    {
      SetBitOnly(t.status, 6, k);
    }
    AndPow2(r.status, 2);
    forall k: nat
      ensures Bit(Or32(t.interruptStatus, INT_CONF_CHANGE), k) <==> Bit(t.interruptStatus, k) || k == 1
    {
      SetBitOnly(t.interruptStatus, 1, k);
    }
  }

  /** Failing a failed device changes nothing more. */
  lemma SetFailIdempotent(t: Transport)
    ensures SetFail(SetFail(t)) == SetFail(t)
  {
    OrAgain(t.status, STATUS_DEVICE_NEEDS_RESET);
    OrAgain(t.interruptStatus, INT_CONF_CHANGE);
  }

  /** Or-ing the same bits in twice is or-ing them in once. */
  lemma OrAgain(a: u32, b: u32)
    ensures Or32(Or32(a, b), b) == Or32(a, b)
  {
    var x := Or32(a, b);
    forall k: nat
      ensures Bit(Or32(x, b), k) == Bit(x, k)
    {
      OrBit(x, b, k);
      OrBit(a, b, k);
    }
    BitExtensionality(Or32(x, b), x);
  }

  /**
   * VBLK_PREPROCESS_ADDR / vgpu_preprocess: a queue address must lie in RAM
   * and be word aligned; it becomes a word index.  `None` is the failing
   * case, in which the device fails and 0 is stored.
   */
  function PreprocessAddr(addr: u32): Option<u32>
  {
    if addr < RAM_SIZE && And(addr, 3) == 0 then Some(addr / 4) else None
  }

  /** An accepted address is exactly four times the stored word index. */
  lemma PreprocessAddrIndex(addr: u32, i: u32)
    ensures PreprocessAddr(addr) == Some(i) <==> addr < RAM_SIZE && addr == 4 * i
  {
    assert Pow2(2) == 4;
    AndLowMask(addr, 2);
    assert And(addr, 3) == addr % 4;
    if addr == 4 * i {
      assert addr / 4 == i;
    }
  }

  /** Store a preprocessed queue address into the selected queue. */
  function SetQueueAddr(t: Transport, which: u32, addr: u32): (r: Transport)
    requires t.Valid()
    requires which in {QueueDescLow, QueueDriverLow, QueueDeviceLow}
    ensures r.Valid()
  {
    var p := PreprocessAddr(addr);
    var t': Transport := if p.Some? then t else SetFail(t);
    var i: u32 := if p.Some? then p.value else 0;
    var q := t'.Sel();
    t'.WithSel(if which == QueueDescLow then q.(desc := i)
               else if which == QueueDriverLow then q.(avail := i)
               else q.(used := i))
  }

  /**
   * The register writes whose handling the two devices share
   * (virtio-blk.c:252-298, 305-307 and virtio-gpu.c:1064-1110, 1117-1119).
   * `None` means the offset is not one of them.
   */
  function TransportWrite(t: Transport, ram: seq<u32>, numMax: u32, addr: u32, value: u32): (r: Option<Transport>)
    requires t.Valid()
    ensures r.Some? ==> r.value.Valid()
  {
    if addr == DeviceFeaturesSel then Some(t.(deviceFeaturesSel := value))
    else if addr == DriverFeatures then
      Some(if t.driverFeaturesSel == 0 then t.(driverFeatures := value) else t)
    else if addr == DriverFeaturesSel then Some(t.(driverFeaturesSel := value))
    else if addr == QueueSel then
      Some(if value < QUEUE_COUNT then t.(queueSel := value) else SetFail(t))
    else if addr == QueueNum then
      Some(if 0 < value <= numMax then t.WithSel(t.Sel().(num := value)) else SetFail(t))
    else if addr == QueueReady then
      var q := t.Sel().(ready := And(value, 1) != 0);
      Some(t.WithSel(if And(value, 1) != 0 then q.(lastAvail := AvailIdx(ram, q)) else q))
    else if addr in {QueueDescLow, QueueDriverLow, QueueDeviceLow} then
      Some(SetQueueAddr(t, addr, value))
    else if addr in {QueueDescHigh, QueueDriverHigh, QueueDeviceHigh} then
      Some(if value != 0 then SetFail(t) else t)
    else if addr == InterruptACK then
      Some(t.(interruptStatus := AndNot32(t.interruptStatus, value)))
    else None
  }

  /** The offsets the shared register writes cover. */
  lemma TransportWriteOffsets(t: Transport, ram: seq<u32>, numMax: u32, addr: u32, value: u32)
    requires t.Valid()
    ensures TransportWrite(t, ram, numMax, addr, value).Some? <==>
            addr in {5, 8, 9, 12, 14, 17, 25, 32, 33, 36, 37, 40, 41}
  {
  }

  /**
   * Illegal configuration writes fail the device and change nothing else:
   * a queue selector beyond the array, a queue size outside 1..numMax, a
   * nonzero high address word.
   */
  lemma IllegalWriteFails(t: Transport, ram: seq<u32>, numMax: u32, addr: u32, value: u32)
    requires t.Valid()
    requires || (addr == QueueSel && value >= QUEUE_COUNT)
             || (addr == QueueNum && (value == 0 || value > numMax))
             || (addr in {QueueDescHigh, QueueDriverHigh, QueueDeviceHigh} && value != 0)
    ensures TransportWrite(t, ram, numMax, addr, value) == Some(SetFail(t))
    ensures SetFail(t).queueSel == t.queueSel && SetFail(t).queues == t.queues
  {
  }

  /**
   * A write to any of the three low queue address words stores addr >> 2
   * in the matching field of the selected queue (the descriptor table, the
   * driver or the device ring) when the address is in RAM and aligned, and
   * otherwise stores 0 there and fails the device; nothing else in the
   * register file changes.
   */
  lemma QueueAddrWrite(t: Transport, ram: seq<u32>, numMax: u32, which: u32, value: u32)
    requires t.Valid()
    requires which in {QueueDescLow, QueueDriverLow, QueueDeviceLow}
    ensures var r := TransportWrite(t, ram, numMax, which, value);
            var ok := value < RAM_SIZE && value % 4 == 0;
            var base := if ok then t else SetFail(t);
            var i := if ok then value / 4 else 0;
            && r.Some?
            && r.value.queueSel == t.queueSel
            && (which == QueueDescLow ==> r.value == base.WithSel(t.Sel().(desc := i)))
            && (which == QueueDriverLow ==> r.value == base.WithSel(t.Sel().(avail := i)))
            && (which == QueueDeviceLow ==> r.value == base.WithSel(t.Sel().(used := i)))
  {
    if value < RAM_SIZE && value % 4 == 0 {
      PreprocessAddrIndex(value, value / 4);
    } else {
      match PreprocessAddr(value) {
        case None =>
        case Some(i) =>
          PreprocessAddrIndex(value, i);
          assert false;
      }
    }
  }

  /** InterruptACK clears exactly the acknowledged bits. */
  lemma InterruptAckClears(t: Transport, ram: seq<u32>, numMax: u32, value: u32)
    requires t.Valid()
    ensures var r := TransportWrite(t, ram, numMax, InterruptACK, value);
            && r.Some?
            && r.value == t.(interruptStatus := r.value.interruptStatus)
            && forall k: nat :: Bit(r.value.interruptStatus, k) <==> Bit(t.interruptStatus, k) && !Bit(value, k)
  {
    forall k: nat
      ensures Bit(AndNot32(t.interruptStatus, value), k) <==> Bit(t.interruptStatus, k) && !Bit(value, k)
    {
      AndNotBit(t.interruptStatus, value, k);
    }
  }

  // ---------------------------------------------------------------------
  // The split virtqueue in guest RAM

  /** A descriptor as the devices read it: addr, len, flags | next << 16. */
  datatype Desc = Desc(addr: u32, len: u32, flags: u16, next: u16)

  /**
   * Unused slots of a device's on-stack descriptor array.  The emulator
   * leaves them uninitialised; the model reads them as zero.
   */
  const ZeroDesc := Desc(0, 0, 0, 0)

  /** Descriptor idx of the queue's table: four words, the second ignored. */
  function DescAt(ram: seq<u32>, q: Queue, idx: int): Desc
  {
    var base := q.desc + idx * 4;
    var w3 := WordAt(ram, base + 3);
    Desc(WordAt(ram, base), WordAt(ram, base + 2), w3 % 0x1_0000, w3 / 0x1_0000)
  }

  /** Slot i of a device's on-stack descriptor array, filled from the front. */
  function Slot(ds: seq<Desc>, i: nat): Desc
  {
    if i < |ds| then ds[i] else ZeroDesc
  }

  predicate HasNext(d: Desc)
  {
    And(d.flags, DESC_F_NEXT) != 0
  }

  /** avail->idx: the high half of the ring header word. */
  function AvailIdx(ram: seq<u32>, q: Queue): u16
  {
    WordAt(ram, q.avail) / 0x1_0000
  }

  /** used->idx: the high half of the used ring header word. */
  function UsedIdx(ram: seq<u32>, q: Queue): u16
  {
    WordAt(ram, q.used) / 0x1_0000
  }

  /** avail->ring[slot]: two 16-bit entries per word, after the header. */
  function AvailEntry(ram: seq<u32>, q: Queue, slot: u16): u16
  {
    Wrap16(WordAt(ram, q.avail + 1 + slot / 2) / (if slot % 2 == 0 then 1 else 0x1_0000))
  }

  /** VIRTQ_AVAIL_F_NO_INTERRUPT in the avail ring flags. */
  predicate NoInterrupt(ram: seq<u32>, q: Queue)
  {
    And(WordAt(ram, q.avail), 1) != 0
  }

  /**
   * The size check of the notify handlers: the difference of the two 16-bit
   * indices is taken after promotion to int, and compared with the low 16
   * bits of QueueNum.
   */
  predicate AvailOverrun(newAvail: u16, lastAvail: u16, num: u32)
  {
    newAvail - lastAvail > Wrap16(num)
  }

  /** The number of entries a batch consumes: the 16-bit index distance. */
  function Pending(newAvail: u16, lastAvail: u16): u16
  {
    Wrap16(newAvail - lastAvail)
  }

  /**
   * The loop runs Pending(newAvail, last_avail) times: adding that distance
   * to last_avail modulo 2^16 gives newAvail, and it is 0 exactly when the
   * two indices are equal.
   */
  lemma PendingCatchesUp(newAvail: u16, lastAvail: u16)
    ensures Wrap16(lastAvail + Pending(newAvail, lastAvail)) == newAvail
    ensures Pending(newAvail, lastAvail) == 0 <==> newAvail == lastAvail
  {
    if newAvail >= lastAvail {
      assert Pending(newAvail, lastAvail) == newAvail - lastAvail;
    } else {
      ModUnique(newAvail - lastAvail + 0x1_0000, 0x1_0000, 0, newAvail - lastAvail + 0x1_0000);
      assert Pending(newAvail, lastAvail) == newAvail - lastAvail + 0x1_0000;
      ModUnique(newAvail + 0x1_0000, 0x1_0000, 1, newAvail);
    }
  }

  lemma Wrap16Succ(a: nat, b: nat)
    ensures Wrap16(Wrap16(a + 1) + b) == Wrap16(a + 1 + b)
  {
    var m := 0x1_0000;
    var x := a + 1;
    var r := x % m + b;
    assert x == (x / m) * m + x % m;
    assert x + b == (x / m + r / m) * m + r % m;
    ModUnique(x + b, m, x / m + r / m, r % m);
  }

  /** Adding one after wrapping is adding one before. */
  lemma Wrap16Step(x: nat)
    ensures Wrap16(Wrap16(x) + 1) == Wrap16(x + 1)
  {
    if x > 0 {
      Wrap16Succ(x - 1, 1);
    }
  }

  /** A loop that stops at the first index equal to newAvail runs Pending times. */
  lemma PendingFirstHit(newAvail: u16, lastAvail: u16, k: nat)
    requires k < Pending(newAvail, lastAvail)
    ensures Wrap16(lastAvail + k) != newAvail
  {
    PendingCatchesUp(newAvail, lastAvail);
  }

  /**
   * A turn of the notify loop: while the index has not met newAvail there
   * is an entry left, and the next index is one further on.
   */
  lemma PendingNext(newAvail: u16, lastAvail: u16, k: nat)
    requires k <= Pending(newAvail, lastAvail) && Wrap16(lastAvail + k) != newAvail
    ensures k < Pending(newAvail, lastAvail)
    ensures Wrap16(Wrap16(lastAvail + k) + 1) == Wrap16(lastAvail + k + 1)
  {
    PendingCatchesUp(newAvail, lastAvail);
    Wrap16Step(lastAvail + k);
  }

  /** The notify loop stops after exactly Pending turns. */
  lemma PendingExit(newAvail: u16, lastAvail: u16, k: nat)
    requires k <= Pending(newAvail, lastAvail) && Wrap16(lastAvail + k) == newAvail
    ensures k == Pending(newAvail, lastAvail)
  {
    if k < Pending(newAvail, lastAvail) {
      PendingFirstHit(newAvail, lastAvail, k);
    }
  }

  /**
   * The registers a batch on queue qi leaves alone: everything but Status,
   * InterruptStatus and that queue's last_avail.
   */
  ghost predicate SameConfig(t': Transport, t: Transport, qi: nat)
    requires t.Valid() && t'.Valid() && qi < QUEUE_COUNT
  {
    && t'.deviceFeaturesSel == t.deviceFeaturesSel
    && t'.driverFeatures == t.driverFeatures
    && t'.driverFeaturesSel == t.driverFeaturesSel
    && t'.queueSel == t.queueSel
    && t'.queues[qi] == t.queues[qi].(lastAvail := t'.queues[qi].lastAvail)
    && forall j :: 0 <= j < QUEUE_COUNT && j != qi ==> t'.queues[j] == t.queues[j]
  }

  /**
   * The size check never rejects an avail index that has wrapped below
   * last_avail, however far the distance exceeds the queue size.
   */
  lemma WrappedAvailAccepted(newAvail: u16, lastAvail: u16, num: u32)
    requires newAvail < lastAvail
    ensures !AvailOverrun(newAvail, lastAvail, num)
    ensures Pending(newAvail, lastAvail) == 0x1_0000 + newAvail - lastAvail
  {
  }

  /** Below the wrap, the check is the intended distance test. */
  lemma AvailOverrunDistance(newAvail: u16, lastAvail: u16, num: u32)
    requires lastAvail <= newAvail
    ensures AvailOverrun(newAvail, lastAvail, num) <==> Pending(newAvail, lastAvail) > Wrap16(num)
  {
  }

  /** used->ring[usedIdx % num] := (id, len). */
  function WithUsedElem(ram: seq<u32>, q: Queue, usedIdx: u16, id: u32, len: u32): (r: seq<u32>)
    requires q.num > 0
    ensures |r| == |ram|
  {
    var i := q.used + 1 + (usedIdx % q.num) * 2;
    WithWord(WithWord(ram, i, id), i + 1, len)
  }

  /** `ram[used] &= MASK(16); ram[used] |= new_used << 16` */
  function WithUsedIdx(ram: seq<u32>, q: Queue, newUsed: u16): (r: seq<u32>)
    ensures |r| == |ram|
  {
    var w := WordAt(ram, q.used);
    MaskLowHalf(w);
    var lo: u32 := And(w, Mask(16));
    WithWord(ram, q.used, Or32(lo, newUsed * 0x1_0000))
  }

  /**
   * Publishing the used index keeps the ring flags in the low half, puts
   * the new index in the high half and changes no other word.
   */
  lemma UsedIdxPublished(ram: seq<u32>, q: Queue, newUsed: u16, j: int)
    requires WordInRam(ram, q.used)
    ensures WordAt(WithUsedIdx(ram, q, newUsed), q.used) == WordAt(ram, q.used) % 0x1_0000 + newUsed * 0x1_0000
    ensures UsedIdx(WithUsedIdx(ram, q, newUsed), q) == newUsed
    ensures j != q.used ==> WordAt(WithUsedIdx(ram, q, newUsed), j) == WordAt(ram, j)
  {
    var w := WordAt(ram, q.used);
    MaskLowHalf(w);
    Pow2Constants();
    OrDisjoint(w % 0x1_0000, newUsed, 16);
  }

  /**
   * The end of a notify batch: the local used index is published in the
   * high half of the used ring header and USED_RING is raised unless the
   * avail ring's flags, read after that store, suppress interrupts.  The
   * result is the new RAM and the new InterruptStatus.
   */
  function Publish(ram: seq<u32>, isr: u32, q: Queue, newUsed: u16): (r: (seq<u32>, u32))
  {
    var ram' := WithUsedIdx(ram, q, newUsed);
    (ram', if !NoInterrupt(ram', q) then Or32(isr, INT_USED_RING) else isr)
  }

  /**
   * Publishing leaves the used index equal to newUsed, keeps the ring flags
   * and every other word, and sets bit 0 of InterruptStatus, and no other
   * bit, exactly when the driver did not suppress interrupts.
   */
  lemma PublishEffect(ram: seq<u32>, isr: u32, q: Queue, newUsed: u16, j: int)
    requires WordInRam(ram, q.used)
    ensures var r := Publish(ram, isr, q, newUsed);
            && |r.0| == |ram|
            && UsedIdx(r.0, q) == newUsed
            && WordAt(r.0, q.used) % 0x1_0000 == WordAt(ram, q.used) % 0x1_0000
            && (j != q.used ==> WordAt(r.0, j) == WordAt(ram, j))
            && (Bit(r.1, 0) <==> Bit(isr, 0) || !NoInterrupt(r.0, q))
            && (forall k: nat :: k != 0 ==> (Bit(r.1, k) <==> Bit(isr, k)))
  {
    UsedIdxPublished(ram, q, newUsed, j);
    var w := WordAt(ram, q.used);
    assert (w % 0x1_0000 + newUsed * 0x1_0000) % 0x1_0000 == w % 0x1_0000 by {
      ModUnique(w % 0x1_0000 + newUsed * 0x1_0000, 0x1_0000, newUsed, w % 0x1_0000);
    }
    Pow2Constants();
    forall k: nat
      ensures Bit(Or32(isr, INT_USED_RING), k) <==> Bit(isr, k) || k == 0
    {
      SetBitOnly(isr, 0, k);
    }
  }

  /**
   * Ring positions are `counter % QueueNum` on 16-bit counters.  When
   * QueueNum is a power of two the position advances by one across the
   * 2^16 wrap of the counter, as it does everywhere else.
   */
  lemma SlotAdvancesAcrossWrap(x: u16, k: nat)
    requires k <= 16
    ensures Wrap16(x + 1) % Pow2(k) == (x % Pow2(k) + 1) % Pow2(k)
  {
    Pow2Add(k, 16 - k);
    Pow2Constants();
    assert k + (16 - k) == 16;
    SlotAdvancesForDivisor(x, Pow2(k), Pow2(16 - k));
  }

  /** The same for any queue size that divides 2^16. */
  lemma SlotAdvancesForDivisor(x: u16, m: nat, n: nat)
    requires m > 0 && m * n == 0x1_0000
    ensures Wrap16(x + 1) % m == (x % m + 1) % m
  {
    var r := x % m + 1;
    if x + 1 == 0x1_0000 {
      MulPred(n, m);
      ModUnique(x, m, n - 1, m - 1);
      assert r == m;
      ModUnique(m, m, 1, 0);
      ModUnique(0, m, 0, 0);
      assert Wrap16(x + 1) == 0;
    } else if r < m {
      ModUnique(r, m, 0, r);
      ModUnique(x + 1, m, x / m, r);
      assert Wrap16(x + 1) == x + 1;
    } else {
      assert r == m;
      ModUnique(m, m, 1, 0);
      MulSucc(x / m, m);
      ModUnique(x + 1, m, x / m + 1, 0);
      assert Wrap16(x + 1) == x + 1;
    }
  }

  lemma MulPred(n: nat, m: nat)
    requires n >= 1
    ensures (n - 1) * m == m * n - m
  {
  }

  lemma MulSucc(q: nat, m: nat)
    ensures (q + 1) * m == q * m + m
  {
  }

  /**
   * With a queue size that is not a power of two, the position jumps at
   * the 2^16 wrap: with QueueNum 3, counter 65535 sits at position 0 and
   * its successor 0 at position 0 again, instead of position 1.
   */
  lemma SlotSkipsAtWrap()
    ensures var x: u16 := 0xFFFF;
            x % 3 == 0 && Wrap16(x + 1) % 3 == 0 && (x % 3 + 1) % 3 == 1
  {
  }

  /**
   * The outcome of one register write: the new state and whether the
   * register bank accepted the offset, or `Halted` when the emulator
   * process itself stops (a division by zero or a null dereference).
   */
  datatype Access<S> = Done(state: S, accepted: bool) | Halted

  // ---------------------------------------------------------------------
  // Access-width dispatch (virtio-blk.c:316-358, virtio-gpu.c:1144-1186)

  // RISC-V load/store funct3 codes and trap causes.
  const RV_MEM_LB: u8 := 0
  const RV_MEM_LH: u8 := 1
  const RV_MEM_LW: u8 := 2
  const RV_MEM_LBU: u8 := 4
  const RV_MEM_LHU: u8 := 5
  const RV_MEM_SB: u8 := 0
  const RV_MEM_SH: u8 := 1
  const RV_MEM_SW: u8 := 2
  const RV_EXC_ILLEGAL_INSN: nat := 2
  const RV_EXC_LOAD_MISALIGN: nat := 4
  const RV_EXC_LOAD_FAULT: nat := 5
  const RV_EXC_STORE_MISALIGN: nat := 6
  const RV_EXC_STORE_FAULT: nat := 7

  /** What a load from the device returns to the hart. */
  datatype Load = Loaded(value: u32) | LoadTrap(cause: nat)

  /**
   * A load: only word loads reach the register bank; a refused register is
   * a load fault, a byte or half-word load is misaligned, and any other
   * width is an illegal instruction.
   */
  function LoadAccess(width: u8, reg: Option<u32>): (r: Load)
    ensures r.Loaded? <==> width == RV_MEM_LW && reg.Some?
    ensures r.Loaded? ==> r.value == reg.value
    ensures r.LoadTrap? ==> r.cause in {RV_EXC_LOAD_FAULT, RV_EXC_LOAD_MISALIGN, RV_EXC_ILLEGAL_INSN}
  {
    if width == RV_MEM_LW then
      match reg {
        case Some(v) => Loaded(v)
        case None => LoadTrap(RV_EXC_LOAD_FAULT)
      }
    else if width in {RV_MEM_LBU, RV_MEM_LB, RV_MEM_LHU, RV_MEM_LH} then LoadTrap(RV_EXC_LOAD_MISALIGN)
    else LoadTrap(RV_EXC_ILLEGAL_INSN)
  }

  /**
   * The trap a store raises before it reaches the register bank, if any:
   * only word stores get through.
   */
  function StoreWidthTrap(width: u8): (r: Option<nat>)
    ensures r.None? <==> width == RV_MEM_SW
  {
    if width == RV_MEM_SW then None
    else if width in {RV_MEM_SB, RV_MEM_SH} then Some(RV_EXC_STORE_MISALIGN)
    else Some(RV_EXC_ILLEGAL_INSN)
  }
}
