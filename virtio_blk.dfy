/**
 * The virtio block device (virtio-blk.c): its register bank, its reset
 * rule, the request queue engine and the two data handlers.
 *
 * The first half states the device's behaviour as functions of a snapshot
 * `BlkState`; the second half is the device record as a class whose
 * methods are proved to follow those functions.
 */
module VirtioBlk {
  import opened Common
  import opened GuestRam
  import opened Virtio

  const DISK_BLK_SIZE: nat := 512
  const VBLK_FEATURES_0: u32 := 0
  /** VIRTIO_F_VERSION_1, in the second feature word */
  const VBLK_FEATURES_1: u32 := 1
  const VBLK_QUEUE_NUM_MAX: u32 := 1024
  const VIRTIO_BLK_DEVICE_ID: u32 := 2
  const VIRTIO_BLK_T_IN: u32 := 0
  const VIRTIO_BLK_T_OUT: u32 := 1
  const VIRTIO_BLK_S_OK: u8 := 0

  /**
   * Everything the block device reads or writes: its register file, guest
   * RAM, the disk image and the capacity in 512-byte sectors.
   */
  datatype BlkState = BlkState(t: Transport, ram: seq<u32>, disk: seq<u8>, capacity: u64)
  {
    ghost predicate Valid()
    {
      t.Valid()
    }
  }

  // ---------------------------------------------------------------------
  // Capacity

  /** The capacity of an image of `size` bytes: whole sectors, rounded up. */
  function Capacity(size: u64): u64
  {
    size / DISK_BLK_SIZE + (if size % DISK_BLK_SIZE != 0 then 1 else 0)
  }

  /** The capacity is the least number of sectors that holds the image. */
  lemma CapacityIsCeiling(size: u64)
    ensures Capacity(size) * DISK_BLK_SIZE >= size
    ensures Capacity(size) == 0 || (Capacity(size) - 1) * DISK_BLK_SIZE < size
  {
  }

  // ---------------------------------------------------------------------
  // Disk image bytes (an access beyond the image reads 0 and writes nothing)

  function DiskAt(disk: seq<u8>, p: int): u8
  {
    if 0 <= p < |disk| then disk[p] else 0
  }

  /** n bytes of the image from offset off. */
  function DiskBytes(disk: seq<u8>, off: int, n: nat): (bs: seq<u8>)
    ensures |bs| == n
  {
    seq<u8>(n, i => DiskAt(disk, off + i))
  }

  // ---------------------------------------------------------------------
  // Status

  /**
   * virtio_blk_update_status: a nonzero value is OR'd into Status; 0 resets
   * the register file, keeping RAM, the disk and the capacity, which passes
   * through a 32-bit local on the way.
   */
  function UpdateStatus(s: BlkState, value: u32): (r: BlkState)
    requires s.Valid()
    ensures r.Valid()
  {
    if value != 0 then s.(t := AddStatus(s.t, value))
    else s.(t := ZeroTransport, capacity := Wrap32(s.capacity))
  }

  /**
   * A reset zeroes the register file, keeps RAM and the disk, and keeps the
   * capacity modulo 2^32; resetting again changes nothing.
   */
  lemma ResetClears(s: BlkState)
    requires s.Valid()
    ensures var r := UpdateStatus(s, 0);
            && r.t == ZeroTransport && r.ram == s.ram && r.disk == s.disk
            && r.capacity == s.capacity % 0x1_0000_0000
            && UpdateStatus(r, 0) == r
  {
  }

  // ---------------------------------------------------------------------
  // Register reads

  /**
   * virtio_blk_reg_read on word offset addr; `None` is an offset the bank
   * does not have.
   */
  function RegRead(s: BlkState, addr: u32): Option<u32>
    requires s.Valid()
  {
    if addr == MagicValue then Some(MAGIC)
    else if addr == Version then Some(2)
    else if addr == DeviceID then Some(VIRTIO_BLK_DEVICE_ID)
    else if addr == VendorID then Some(VIRTIO_VENDOR_ID)
    else if addr == DeviceFeatures then
      Some(if s.t.deviceFeaturesSel == 0 then VBLK_FEATURES_0
           else if s.t.deviceFeaturesSel == 1 then VBLK_FEATURES_1 else 0)
    else if addr == QueueNumMax then Some(VBLK_QUEUE_NUM_MAX)
    else if addr == QueueReady then Some(if s.t.Sel().ready then 1 else 0)
    else if addr == InterruptStatus then Some(s.t.interruptStatus)
    else if addr == Status then Some(s.t.status)
    else if addr == ConfigGeneration then Some(0)
    else if addr == Config then Some(CapacityLow(s.capacity))
    else if addr == Config + 1 then Some(s.capacity / 0x1_0000_0000)
    else None
  }

  /** `0x00000000ffffffff & capacity` */
  function CapacityLow(capacity: u64): (r: u32)
    ensures r == capacity % 0x1_0000_0000
  {
    Pow2Constants();
    AndLowMask(capacity, 32);
    AndComm(0xFFFF_FFFF, capacity);
    And(0xFFFF_FFFF, capacity)
  }

  /**
   * The identification registers, the feature words and the capacity split
   * over two configuration words.
   */
  lemma RegReadValues(s: BlkState)
    requires s.Valid()
    ensures RegRead(s, MagicValue) == Some(0x74726976)
    ensures RegRead(s, Version) == Some(2) && RegRead(s, DeviceID) == Some(2)
    ensures RegRead(s, QueueNumMax) == Some(1024)
    ensures RegRead(s, DeviceFeatures) == Some(if s.t.deviceFeaturesSel == 1 then 1 else 0)
    ensures RegRead(s, Config).Some? && RegRead(s, Config + 1).Some?
    ensures RegRead(s, Config).value + 0x1_0000_0000 * RegRead(s, Config + 1).value == s.capacity
  {
  }

  /** The bank answers exactly twelve offsets and refuses every other one. */
  lemma RegReadOffsets(s: BlkState, addr: u32)
    requires s.Valid()
    ensures RegRead(s, addr).Some? <==> addr in {0, 1, 2, 3, 4, 13, 17, 24, 28, 63, 64, 65}
  {
  }

  /** An image of `size` bytes reports its size in sectors, rounded up. */
  lemma CapacityRegisters(s: BlkState, size: u64)
    requires s.Valid() && s.capacity == Capacity(size)
    ensures var sectors := RegRead(s, Config).value + 0x1_0000_0000 * RegRead(s, Config + 1).value;
            sectors * DISK_BLK_SIZE >= size && (sectors == 0 || (sectors - 1) * DISK_BLK_SIZE < size)
  {
    RegReadValues(s);
    CapacityIsCeiling(size);
  }

  // ---------------------------------------------------------------------
  // One request: the descriptor chain and its handlers

  /**
   * The outcome of walking a chain: a descriptor index beyond the queue,
   * a chain that needs a fourth descriptor, or the descriptors in order.
   */
  datatype Walk = IndexFault | Overlong | Chain(descs: seq<Desc>)

  /** The walk from descriptor idx, `got` holding the descriptors so far. */
  function WalkFrom(ram: seq<u32>, q: Queue, idx: u32, got: seq<Desc>): (w: Walk)
    requires |got| <= 3
    decreases 3 - |got|
  {
    if idx >= q.num then IndexFault
    else if |got| == 3 then Overlong
    else
      var d := DescAt(ram, q, idx);
      if HasNext(d) then WalkFrom(ram, q, d.next as u32, got + [d]) else Chain(got + [d])
  }

  function WalkChain(ram: seq<u32>, q: Queue, head: u32): Walk
  {
    WalkFrom(ram, q, head, [])
  }

  /**
   * A completed walk extends what it was given by descriptors read at
   * indices below QueueNum, each linked by its predecessor's `next`, all
   * but the last flagged NEXT, and at most three in all.
   */
  lemma {:induction false} WalkFromShape(ram: seq<u32>, q: Queue, idx: u32, got: seq<Desc>)
    requires |got| <= 3
    ensures var w := WalkFrom(ram, q, idx, got);
            w.Chain? ==>
              && |got| < |w.descs| <= 3
              && w.descs[..|got|] == got
              && idx < q.num && w.descs[|got|] == DescAt(ram, q, idx)
              && !HasNext(w.descs[|w.descs| - 1])
              && (forall i :: |got| <= i < |w.descs| - 1 ==> HasNext(w.descs[i]))
              && (forall i :: |got| <= i < |w.descs| - 1 ==>
                    w.descs[i].next < q.num && w.descs[i + 1] == DescAt(ram, q, w.descs[i].next))
    decreases 3 - |got|
  {
    if idx < q.num && |got| < 3 {
      var d := DescAt(ram, q, idx);
      if HasNext(d) {
        WalkFromShape(ram, q, d.next as u32, got + [d]);
        var w := WalkFrom(ram, q, idx, got);
        if w.Chain? {
          assert w.descs[..|got| + 1] == got + [d];
          assert w.descs[..|got|] == (got + [d])[..|got|];
        }
      }
    }
  }

  /** The descriptor index reached from idx after k hops along `next`. */
  function Reached(ram: seq<u32>, q: Queue, idx: u32, k: nat): u32
    decreases k
  {
    if k == 0 then idx else Reached(ram, q, DescAt(ram, q, idx).next as u32, k - 1)
  }

  /**
   * The first k descriptors from idx lie inside the queue and each is
   * flagged NEXT, so the walk goes on past all of them.
   */
  predicate Linked(ram: seq<u32>, q: Queue, idx: u32, k: nat)
    decreases k
  {
    k == 0 || (idx < q.num && HasNext(DescAt(ram, q, idx)) && Linked(ram, q, DescAt(ram, q, idx).next as u32, k - 1))
  }

  /**
   * The walk faults exactly when, within the hops it may still take, the
   * links lead to an index at or beyond QueueNum.
   */
  lemma {:induction false} WalkFromFault(ram: seq<u32>, q: Queue, idx: u32, got: seq<Desc>)
    requires |got| <= 3
    ensures WalkFrom(ram, q, idx, got).IndexFault? <==>
            exists k :: 0 <= k <= 3 - |got| && Linked(ram, q, idx, k) && Reached(ram, q, idx, k) >= q.num
    decreases 3 - |got|
  {
    var n := 3 - |got|;
    if idx >= q.num {
      assert Linked(ram, q, idx, 0) && Reached(ram, q, idx, 0) >= q.num;
    } else if |got| == 3 {
      assert !WalkFrom(ram, q, idx, got).IndexFault?;
      NoFaultWithin(ram, q, idx, 0);
    } else {
      var d := DescAt(ram, q, idx);
      var next := d.next as u32;
      if HasNext(d) {
        assert WalkFrom(ram, q, idx, got) == WalkFrom(ram, q, next, got + [d]);
        WalkFromFault(ram, q, next, got + [d]);
        if WalkFrom(ram, q, idx, got).IndexFault? {
          var k :| 0 <= k <= n - 1 && Linked(ram, q, next, k) && Reached(ram, q, next, k) >= q.num;
          var j := k + 1;
          assert Linked(ram, q, idx, j) && Reached(ram, q, idx, j) >= q.num;
          assert 0 <= j <= 3 - |got| && Linked(ram, q, idx, j) && Reached(ram, q, idx, j) >= q.num;
        } else {
          forall k | 0 <= k <= n && Linked(ram, q, idx, k)
            ensures Reached(ram, q, idx, k) < q.num
          {
            if k > 0 {
              assert Linked(ram, q, next, k - 1);
            }
          }
        }
      } else {
        assert !WalkFrom(ram, q, idx, got).IndexFault?;
        NoFaultWithin(ram, q, idx, n);
      }
    }
  }

  /**
   * From an index inside the queue whose descriptor ends the chain (or
   * with no hop left), no linked path reaches beyond the queue.
   */
  lemma NoFaultWithin(ram: seq<u32>, q: Queue, idx: u32, n: nat)
    requires idx < q.num && (n == 0 || !HasNext(DescAt(ram, q, idx)))
    ensures forall k :: 0 <= k <= n && Linked(ram, q, idx, k) ==> Reached(ram, q, idx, k) < q.num
  {
    forall k | 0 <= k <= n && Linked(ram, q, idx, k)
      ensures Reached(ram, q, idx, k) < q.num
    {
      assert k == 0;
    }
  }

  /**
   * The walk is overlong exactly when all the hops it may still take stay
   * inside the queue and keep the NEXT flag, and the index they reach is
   * inside the queue too.
   */
  lemma {:induction false} WalkFromOverlong(ram: seq<u32>, q: Queue, idx: u32, got: seq<Desc>)
    requires |got| <= 3
    ensures WalkFrom(ram, q, idx, got).Overlong? <==>
            Linked(ram, q, idx, 3 - |got|) && Reached(ram, q, idx, 3 - |got|) < q.num
    decreases 3 - |got|
  {
    if idx < q.num && |got| < 3 {
      var d := DescAt(ram, q, idx);
      if HasNext(d) {
        WalkFromOverlong(ram, q, d.next as u32, got + [d]);
      }
    }
  }

  /**
   * A head beyond the queue faults at once; an overlong chain never left
   * the queue on any of the indices it visited.
   */
  lemma FaultCases(ram: seq<u32>, q: Queue, head: u32)
    ensures head >= q.num ==> WalkChain(ram, q, head).IndexFault?
    ensures WalkChain(ram, q, head).Overlong? ==> forall k :: 0 <= k <= 3 ==> Reached(ram, q, head, k) < q.num
  {
    WalkFromFault(ram, q, head, []);
    WalkFromOverlong(ram, q, head, []);
    if WalkChain(ram, q, head).Overlong? {
      forall k | 0 <= k <= 3
        ensures Reached(ram, q, head, k) < q.num
      {
        LinkedPrefix(ram, q, head, k, 3);
      }
    }
  }

  /** Every hop short of k on a linked path stays inside the queue. */
  lemma {:induction false} LinkedPrefix(ram: seq<u32>, q: Queue, idx: u32, j: nat, k: nat)
    requires j <= k && Linked(ram, q, idx, k) && Reached(ram, q, idx, k) < q.num
    ensures Reached(ram, q, idx, j) < q.num
    decreases j
  {
    if j > 0 {
      LinkedPrefix(ram, q, DescAt(ram, q, idx).next as u32, j - 1, k - 1);
    }
  }

  /** The sum of the descriptors' lengths. */
  function SumLen(ds: seq<Desc>): nat
  {
    if ds == [] then 0 else SumLen(ds[..|ds| - 1]) + ds[|ds| - 1].len
  }

  /**
   * A request as the device reads it from a complete chain: the type (offset
   * 0 of the header buffer), the sector (offset 8), the data buffer and the
   * address of the status byte (the third buffer).
   */
  datatype Request = Request(kind: u32, sector: u64, data: Desc, statusAddr: u64)
  {
    /** The disk byte offset sector * 512, computed in 64 bits. */
    function Off(): u64
    {
      Wrap64(sector * DISK_BLK_SIZE)
    }
  }

  function Decode(ram: seq<u32>, ds: seq<Desc>): (req: Request)
    ensures req.data == Slot(ds, 1) && req.statusAddr == Slot(ds, 2).addr
    ensures req.kind == LoadU32(ram, Slot(ds, 0).addr)
  {
    var hdr := Slot(ds, 0);
    Request(LoadU32(ram, hdr.addr), LoadU64(ram, hdr.addr as int + 8),
            Slot(ds, 1), Slot(ds, 2).addr)
  }

  /** A request served: the data copy, then the status byte set to OK. */
  function Execute(s: BlkState, req: Request): BlkState
  {
    var s1 := Transfer(s, req);
    s1.(ram := WithByte(s1.ram, req.statusAddr, VIRTIO_BLK_S_OK))
  }

  /** The data copy of a request, by its type. */
  function Transfer(s: BlkState, req: Request): BlkState
  {
    if req.kind == VIRTIO_BLK_T_IN then
      s.(ram := WithBytes(s.ram, req.data.addr, DiskBytes(s.disk, req.Off(), req.data.len)))
    else if req.kind == VIRTIO_BLK_T_OUT then
      s.(disk := Paste(s.disk, req.Off(), BytesAt(s.ram, req.data.addr, req.data.len)))
    else s
  }

  /** virtio_blk_iter_desc: the new state and the reported chain length. */
  function ProcessChain(s: BlkState, q: Queue, head: u32): (BlkState, nat)
  {
    match WalkChain(s.ram, q, head)
    case IndexFault => (s.(t := SetFail(s.t)), 0)
    case Overlong => (s, 0)
    case Chain(ds) => (Execute(s, Decode(s.ram, ds)), SumLen(ds))
  }

  /**
   * A chain that leaves the queue fails the device, reports 0 and touches
   * neither RAM nor the disk; one that would need a fourth descriptor
   * changes nothing.  A complete chain reports the sum of its lengths and
   * leaves the register file alone.
   */
  lemma ChainOutcome(s: BlkState, q: Queue, head: u32)
    ensures var r := ProcessChain(s, q, head);
            match WalkChain(s.ram, q, head)
            case IndexFault => r.1 == 0 && r.0 == s.(t := SetFail(s.t))
            case Overlong => r.1 == 0 && r.0 == s
            case Chain(ds) => r.1 == SumLen(ds) && r.0.t == s.t && r.0.capacity == s.capacity
  {
  }

  /**
   * T_IN: every data byte that lies in RAM, other than the status byte,
   * holds the disk byte at off + i (0 beyond the image), and the disk is
   * unchanged.
   */
  lemma {:induction false} ExecuteRead(s: BlkState, req: Request, i: int)
    requires req.kind == VIRTIO_BLK_T_IN
    requires 0 <= i < req.data.len
    ensures var r := Execute(s, req);
            var p := req.data.addr + i;
            && r.disk == s.disk
            && (InRam(s.ram, p) && p != req.statusAddr ==>
                  ByteAt(r.ram, p) == if 0 <= req.Off() + i < |s.disk| then s.disk[req.Off() + i] else 0)
  {
    var bs := DiskBytes(s.disk, req.Off(), req.data.len);
    assert Execute(s, req) == s.(ram := WithByte(WithBytes(s.ram, req.data.addr, bs), req.statusAddr, VIRTIO_BLK_S_OK));
    BlockThenByte(s.ram, req.data.addr, bs, req.statusAddr, VIRTIO_BLK_S_OK, i);
    assert bs[i] == DiskAt(s.disk, req.Off() + i);
  }

  /** A block write followed by a byte write elsewhere keeps the block's bytes. */
  lemma BlockThenByte(ram: seq<u32>, a: int, bs: seq<u8>, st: int, b: u8, i: int)
    requires 0 <= i < |bs|
    ensures var p := a + i;
            InRam(ram, p) && p != st ==> ByteAt(WithByte(WithBytes(ram, a, bs), st, b), p) == bs[i]
  {
    var p := a + i;
    ByteAtWithByte(WithBytes(ram, a, bs), st, b, p);
    ByteAtWithBytes(ram, a, bs, p);
  }

  /** Whatever the request, the status byte reads VIRTIO_BLK_S_OK afterwards. */
  lemma ExecuteStatus(s: BlkState, req: Request)
    requires InRam(s.ram, req.statusAddr)
    ensures ByteAt(Execute(s, req).ram, req.statusAddr) == VIRTIO_BLK_S_OK
  {
    ByteAtWithByte(Transfer(s, req).ram, req.statusAddr, VIRTIO_BLK_S_OK, req.statusAddr);
  }

  /**
   * T_OUT: every disk byte of the request's range holds the RAM byte it
   * was copied from and the rest of the disk is unchanged.
   */
  lemma ExecuteWrite(s: BlkState, req: Request, j: int)
    requires req.kind == VIRTIO_BLK_T_OUT
    requires 0 <= j < |s.disk|
    ensures var r := Execute(s, req);
            && |r.disk| == |s.disk|
            && r.disk[j] == (if req.Off() <= j < req.Off() + req.data.len then ByteAt(s.ram, req.data.addr + j - req.Off()) else s.disk[j])
  {
    assert Execute(s, req).disk == Transfer(s, req).disk;
  }

  /**
   * Any request other than T_IN leaves RAM as it was except for the status
   * byte, which reads VIRTIO_BLK_S_OK; one that is not T_OUT either leaves
   * the disk and the registers alone.
   */
  lemma ExecuteOther(s: BlkState, req: Request, p: int)
    requires req.kind != VIRTIO_BLK_T_IN
    ensures var r := Execute(s, req);
            && ByteAt(r.ram, p) == (if p == req.statusAddr && InRam(s.ram, p) then VIRTIO_BLK_S_OK else ByteAt(s.ram, p))
            && (req.kind != VIRTIO_BLK_T_OUT ==> r.disk == s.disk && r.t == s.t)
  {
    ByteAtWithByte(s.ram, req.statusAddr, VIRTIO_BLK_S_OK, p);
  }

  // ---------------------------------------------------------------------
  // The queue engine

  /**
   * n turns of a loop body `step` that is handed the local copy of the used
   * index, which each turn advances by one: the state and the final used
   * index.
   */
  function Loop(step: (BlkState, u16) -> BlkState, s: BlkState, n: nat, newUsed: u16): (BlkState, u16)
    decreases n
  {
    if n == 0 then (s, newUsed) else Loop(step, step(s, newUsed), n - 1, Wrap16(newUsed + 1))
  }

  /** n turns advance the local used index by n modulo 2^16. */
  lemma {:induction false} LoopUsedCount(step: (BlkState, u16) -> BlkState, s: BlkState, n: nat, newUsed: u16)
    ensures Loop(step, s, n, newUsed).1 == Wrap16(newUsed + n)
    decreases n
  {
    if n > 0 {
      LoopUsedCount(step, step(s, newUsed), n - 1, Wrap16(newUsed + 1));
      Wrap16Succ(newUsed, n - 1);
    }
  }

  /** What one turn on queue qi does to the registers: last_avail moves on. */
  ghost predicate Advances(s': BlkState, s: BlkState, qi: nat)
  {
    && s.Valid() && s'.Valid() && qi < QUEUE_COUNT
    && |s'.ram| == |s.ram|
    && SameConfig(s'.t, s.t, qi)
    && s'.t.queues[qi].lastAvail == Wrap16(s.t.queues[qi].lastAvail + 1)
  }

  /** A loop body that advances queue qi by one entry each turn. */
  ghost predicate AdvancesAlways(step: (BlkState, u16) -> BlkState, qi: nat)
  {
    forall s1: BlkState, u: u16 :: s1.Valid() && qi < QUEUE_COUNT && s1.t.queues[qi].num > 0 ==> Advances(step(s1, u), s1, qi)
  }

  /**
   * n turns of a body that advances queue qi advance last_avail by n
   * modulo 2^16 and leave every register but Status and InterruptStatus as
   * it was.
   */
  lemma {:induction false} LoopConfig(step: (BlkState, u16) -> BlkState, qi: nat, s: BlkState, n: nat, newUsed: u16)
    requires s.Valid() && qi < QUEUE_COUNT && s.t.queues[qi].num > 0
    requires AdvancesAlways(step, qi)
    ensures var r := Loop(step, s, n, newUsed).0;
            && r.Valid()
            && |r.ram| == |s.ram|
            && r.t.queues[qi] == s.t.queues[qi].(lastAvail := Wrap16(s.t.queues[qi].lastAvail + n))
            && SameConfig(r.t, s.t, qi)
    decreases n
  {
    if n > 0 {
      var s1 := step(s, newUsed);
      assert Advances(s1, s, qi);
      LoopConfig(step, qi, s1, n - 1, Wrap16(newUsed + 1));
      Wrap16Succ(s.t.queues[qi].lastAvail, n - 1);
    }
  }

  /**
   * One turn of the loop on queue qi: serve the chain the next avail slot
   * names, advance last_avail, and record (head, length) in the used ring
   * at position newUsed % QueueNum.  The loop only runs on a queue whose
   * size is set; elsewhere a turn does nothing.
   */
  function Consume(s: BlkState, qi: nat, newUsed: u16): BlkState
  {
    if qi < |s.t.queues| && s.t.queues[qi].num > 0 then
      var q := s.t.queues[qi];
      var slot := Wrap16(q.lastAvail % q.num);
      var head := AvailEntry(s.ram, q, slot);
      var step := ProcessChain(s, q, head as u32);
      var s1 := step.0;
      var q' := q.(lastAvail := Wrap16(q.lastAvail + 1));
      s1.(t := s1.t.(queues := s1.t.queues[qi := q']),
          ram := WithUsedElem(s1.ram, q, newUsed, head as u32, Wrap32(step.1)))
    else s
  }

  /** A turn is the served chain followed by the used ring bookkeeping. */
  lemma ConsumeSplit(s: BlkState, qi: nat, newUsed: u16, r: (BlkState, nat))
    requires qi < |s.t.queues| && s.t.queues[qi].num > 0
    requires var q := s.t.queues[qi];
             r == ProcessChain(s, q, AvailEntry(s.ram, q, Wrap16(q.lastAvail % q.num)) as u32)
    ensures var q := s.t.queues[qi];
            var head := AvailEntry(s.ram, q, Wrap16(q.lastAvail % q.num));
            Consume(s, qi, newUsed) ==
              r.0.(t := r.0.t.(queues := r.0.t.queues[qi := q.(lastAvail := Wrap16(q.lastAvail as int + 1))]),
                   ram := WithUsedElem(r.0.ram, q, newUsed, head as u32, Wrap32(r.1)))
  {
  }

  /** The loop body of the handler on queue qi. */
  function Turn(qi: nat): (BlkState, u16) -> BlkState
  {
    (s: BlkState, newUsed: u16) => Consume(s, qi, newUsed)
  }

  /**
   * `step` is the loop body of the handler on queue qi.  The trigger keeps
   * the body of Consume out of contexts that only use `step`.
   */
  ghost predicate IsTurn(step: (BlkState, u16) -> BlkState, qi: nat)
  {
    forall s: BlkState, u: u16 {:trigger Consume(s, qi, u)} :: step(s, u) == Consume(s, qi, u)
  }

  lemma TurnIsTurn(qi: nat)
    ensures IsTurn(Turn(qi), qi)
  {
  }

  /** A turn advances last_avail by one and keeps the configuration. */
  lemma TurnAdvances(qi: nat)
    requires qi < QUEUE_COUNT
    ensures AdvancesAlways(Turn(qi), qi)
  {
    forall s1: BlkState, u: u16 | s1.Valid() && qi < QUEUE_COUNT && s1.t.queues[qi].num > 0
      ensures Advances(Turn(qi)(s1, u), s1, qi)
    {
      ConsumeAdvances(s1, qi, u);
    }
  }

  lemma ConsumeAdvances(s: BlkState, qi: nat, newUsed: u16)
    requires s.Valid() && qi < QUEUE_COUNT && s.t.queues[qi].num > 0
    ensures Advances(Consume(s, qi, newUsed), s, qi)
  {
    var q := s.t.queues[qi];
    var head := AvailEntry(s.ram, q, Wrap16(q.lastAvail % q.num));
    var r := ProcessChain(s, q, head as u32);
    ChainOutcome(s, q, head as u32);
    assert r.0.Valid() && |r.0.ram| == |s.ram| && (r.0.t == s.t || r.0.t == SetFail(s.t));
    ConsumeSplit(s, qi, newUsed, r);
  }

  /** The used element just written holds the buffer id and the length. */
  lemma UsedElemWritten(ram: seq<u32>, q: Queue, usedIdx: u16, id: u32, len: u32, j: int)
    requires q.num > 0
    requires WordInRam(ram, q.used + 1 + (usedIdx % q.num) * 2 + 1)
    ensures var i := q.used + 1 + (usedIdx % q.num) * 2;
            var r := WithUsedElem(ram, q, usedIdx, id, len);
            && q.used < i < i + 1 <= q.used + 2 * q.num
            && WordAt(r, i) == id && WordAt(r, i + 1) == len
            && (j != i && j != i + 1 ==> WordAt(r, j) == WordAt(ram, j))
  {
  }

  /**
   * virtio_queue_notify_handler on queue qi.  `None` is the division by a
   * zero QueueNum that the slot computation reaches when a driver publishes
   * an avail index below last_avail on a queue whose size was never set.
   */
  function Notify(s: BlkState, qi: nat): (r: Option<BlkState>)
    requires s.Valid() && qi < QUEUE_COUNT
    ensures r.Some? ==> r.value.Valid()
  {
    var q := s.t.queues[qi];
    if And(s.t.status, STATUS_DEVICE_NEEDS_RESET) != 0 then Some(s)
    else if !(And(s.t.status, STATUS_DRIVER_OK) != 0 && q.ready) then Some(s.(t := SetFail(s.t)))
    else
      var newAvail := AvailIdx(s.ram, q);
      if AvailOverrun(newAvail, q.lastAvail, q.num) then Some(s.(t := SetFail(s.t)))
      else if q.lastAvail == newAvail then Some(s)
      else if q.num == 0 then None
      else
        TurnAdvances(qi);
        Some(Drain(Turn(qi), s, qi, newAvail))
  }

  /**
   * The loop of the notify handler, with body `step`, and what follows it:
   * the entries from last_avail up to newAvail are consumed, then the used
   * index is published and the interrupt raised.
   */
  function Drain(step: (BlkState, u16) -> BlkState, s: BlkState, qi: nat, newAvail: u16): (r: BlkState)
    requires s.Valid() && qi < QUEUE_COUNT && s.t.queues[qi].num > 0
    requires AdvancesAlways(step, qi)
    ensures r.Valid()
  {
    var q := s.t.queues[qi];
    var n := Pending(newAvail, q.lastAvail);
    var b := Loop(step, s, n, UsedIdx(s.ram, q));
    LoopConfig(step, qi, s, n, UsedIdx(s.ram, q));
    var p := Publish(b.0.ram, b.0.t.interruptStatus, q, b.1);
    b.0.(ram := p.0, t := b.0.t.(interruptStatus := p.1))
  }

  /**
   * The guards of the notify handler: nothing happens under
   * DEVICE_NEEDS_RESET; the device fails when DRIVER_OK is clear, the queue
   * is not ready or the avail index ran more than QueueNum ahead; nothing
   * happens when there is nothing new; otherwise the batch runs, unless
   * QueueNum is 0.
   */
  lemma NotifyGuards(s: BlkState, qi: nat)
    requires s.Valid() && qi < QUEUE_COUNT
    ensures AdvancesAlways(Turn(qi), qi)
    ensures var q := s.t.queues[qi];
            var newAvail := AvailIdx(s.ram, q);
            && (Bit(s.t.status, 6) ==> Notify(s, qi) == Some(s))
            && (!Bit(s.t.status, 6) && !(Bit(s.t.status, 2) && q.ready) ==>
                  Notify(s, qi) == Some(s.(t := SetFail(s.t))))
            && (!Bit(s.t.status, 6) && Bit(s.t.status, 2) && q.ready ==>
                  && (newAvail - q.lastAvail > q.num % 0x1_0000 ==> Notify(s, qi) == Some(s.(t := SetFail(s.t))))
                  && (newAvail == q.lastAvail ==> Notify(s, qi) == Some(s))
                  && (newAvail - q.lastAvail <= q.num % 0x1_0000 && newAvail != q.lastAvail ==>
                        Notify(s, qi) == if q.num == 0 then None else Some(Drain(Turn(qi), s, qi, newAvail))))
  {
    TurnAdvances(qi);
    Pow2Constants();
    assert Pow2(6) == 64 && Pow2(2) == 4;
    AndPow2(s.t.status, 6);
    AndPow2(s.t.status, 2);
  }

  /**
   * After a batch, last_avail has caught up with the avail index and the
   * rest of the configuration is as it was.
   */
  lemma DrainCatchesUp(step: (BlkState, u16) -> BlkState, s: BlkState, qi: nat, newAvail: u16)
    requires s.Valid() && qi < QUEUE_COUNT && s.t.queues[qi].num > 0
    requires AdvancesAlways(step, qi)
    ensures var r := Drain(step, s, qi, newAvail);
            && SameConfig(r.t, s.t, qi)
            && r.t.queues[qi].lastAvail == newAvail
  {
    var q := s.t.queues[qi];
    var n := Pending(newAvail, q.lastAvail);
    LoopConfig(step, qi, s, n, UsedIdx(s.ram, q));
    PendingCatchesUp(newAvail, q.lastAvail);
  }

  /**
   * After a batch the used index has advanced by the number of entries
   * consumed modulo 2^16, the ring flags in the low half of the used word
   * are kept, and USED_RING is raised, with no other interrupt bit,
   * exactly when the driver did not suppress interrupts.
   */
  lemma DrainPublishes(step: (BlkState, u16) -> BlkState, s: BlkState, qi: nat, newAvail: u16)
    requires s.Valid() && qi < QUEUE_COUNT && s.t.queues[qi].num > 0
    requires AdvancesAlways(step, qi)
    requires WordInRam(s.ram, s.t.queues[qi].used)
    ensures var q := s.t.queues[qi];
            var n := Pending(newAvail, q.lastAvail);
            var b := Loop(step, s, n, UsedIdx(s.ram, q)).0;
            var r := Drain(step, s, qi, newAvail);
            && UsedIdx(r.ram, q) == Wrap16(UsedIdx(s.ram, q) + n)
            && WordAt(r.ram, q.used) % 0x1_0000 == WordAt(b.ram, q.used) % 0x1_0000
            && (Bit(r.t.interruptStatus, 0) <==> Bit(b.t.interruptStatus, 0) || !NoInterrupt(r.ram, q))
            && (forall k: nat :: k != 0 ==> (Bit(r.t.interruptStatus, k) <==> Bit(b.t.interruptStatus, k)))
  {
    var q := s.t.queues[qi];
    var n := Pending(newAvail, q.lastAvail);
    var b := Loop(step, s, n, UsedIdx(s.ram, q));
    LoopConfig(step, qi, s, n, UsedIdx(s.ram, q));
    LoopUsedCount(step, s, n, UsedIdx(s.ram, q));
    PublishEffect(b.0.ram, b.0.t.interruptStatus, q, b.1, q.used);
  }

  // ---------------------------------------------------------------------
  // Register writes

  /** virtio_blk_reg_write on word offset addr. */
  function RegWrite(s: BlkState, addr: u32, value: u32): (r: Access<BlkState>)
    requires s.Valid()
    ensures r.Done? ==> r.state.Valid()
  {
    if addr == QueueNotify then
      if value < QUEUE_COUNT as u32 then
        match Notify(s, value as nat)
        case Some(s') => Done(s', true)
        case None => Halted
      else Done(s.(t := SetFail(s.t)), true)
    else if addr == Status then Done(UpdateStatus(s, value), true)
    else
      match TransportWrite(s.t, s.ram, VBLK_QUEUE_NUM_MAX, addr, value)
      case Some(t') => Done(s.(t := t'), true)
      case None => Done(s, false)
  }

  /**
   * A notification of a queue that does not exist fails the device; the
   * offsets the bank does not have are refused without any change.
   */
  lemma RegWriteEdges(s: BlkState, addr: u32, value: u32)
    requires s.Valid()
    ensures value >= 2 ==> RegWrite(s, QueueNotify, value) == Done(s.(t := SetFail(s.t)), true)
    ensures RegWrite(s, addr, value) == Done(s, false) <==>
            addr !in {5, 8, 9, 12, 14, 17, 20, 25, 28, 32, 33, 36, 37, 40, 41}
  {
    if addr == QueueNotify && value < 2 {
      match Notify(s, value as nat)
      case Some(s') =>
        assert RegWrite(s, addr, value).accepted;
      case None =>
    }
  }
}
