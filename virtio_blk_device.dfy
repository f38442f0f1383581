/**
 * The virtio block device record of virtio-blk.c as an object: its register
 * fields, the RAM and disk arrays it points into and the capacity.  Every
 * method is proved to move the record exactly as the corresponding function
 * of VirtioBlk moves a `BlkState` snapshot, so the properties proved there
 * hold of the object.
 */
module VirtioBlkDevice {
  import opened Common
  import opened GuestRam
  import opened Virtio
  import opened VirtioBlk

  /** `memcpy` into the disk image from byte offset off; bytes past its end are dropped. */
  method StoreDiskBytes(disk: array<u8>, off: int, bs: seq<u8>)
    modifies disk
    ensures disk[..] == Paste(old(disk[..]), off, bs)
  {
    var i := 0;
    while i < |bs|
      invariant 0 <= i <= |bs|
      invariant forall j :: 0 <= j < disk.Length ==>
                  disk[j] == if off <= j < off + i then bs[j - off] else old(disk[j])
    {
      if 0 <= off + i < disk.Length {
        disk[off + i] := bs[i];
      }
      i := i + 1;
    }
  }

  /** One more turn of the notify loop, from the front. */
  lemma LoopUnroll(step: (BlkState, u16) -> BlkState, s: BlkState, n: nat, newUsed: u16)
    requires n > 0
    ensures Loop(step, s, n, newUsed) == Loop(step, step(s, newUsed), n - 1, Wrap16(newUsed + 1))
  {
  }

  class BlkDevice {
    var deviceFeaturesSel: u32
    var driverFeatures: u32
    var driverFeaturesSel: u32
    var queueSel: u32
    var queues: seq<Queue>
    var status: u32
    var interruptStatus: u32
    /** Guest RAM, one 32-bit word per element. */
    const ram: array<u32>
    /** The memory-mapped disk image. */
    const disk: array<u8>
    var capacity: u64

    ghost predicate Valid()
      reads this
    {
      |queues| == QUEUE_COUNT && queueSel < QUEUE_COUNT as u32
    }

    /** The register file as a value. */
    function Regs(): Transport
      reads this
    {
      Transport(deviceFeaturesSel, driverFeatures, driverFeaturesSel, queueSel, queues, status, interruptStatus)
    }

    /** Everything the device reads or writes, as a value. */
    function State(): BlkState
      reads this, ram, disk
    {
      BlkState(Regs(), ram[..], disk[..], capacity)
    }

    /**
     * virtio_blk_init with an image: a zeroed record whose capacity is the
     * image size in sectors, rounded up.  Without an image the disk is
     * empty and the capacity 0.
     */
    constructor (ram: array<u32>, disk: array<u8>)
      requires disk.Length < 0x1_0000_0000_0000_0000
      ensures Valid()
      ensures State() == BlkState(ZeroTransport, ram[..], disk[..], Capacity(disk.Length))
    {
      deviceFeaturesSel, driverFeatures, driverFeaturesSel, queueSel := 0, 0, 0, 0;
      queues := [ZeroQueue, ZeroQueue];
      status, interruptStatus := 0, 0;
      this.ram := ram;
      this.disk := disk;
      var size: u64 := disk.Length;
      var sectors: u64 := size / DISK_BLK_SIZE;
      sectors := sectors + if size % DISK_BLK_SIZE != 0 then 1 else 0;
      capacity := sectors;
    }

    /** virtio_blk_set_fail */
    method SetFail()
      requires Valid()
      modifies this
      ensures Valid() && State() == old(State()).(t := Virtio.SetFail(old(Regs())))
    {
      status := Or32(status, STATUS_DEVICE_NEEDS_RESET);
      if And(status, STATUS_DRIVER_OK) != 0 {
        interruptStatus := Or32(interruptStatus, INT_CONF_CHANGE);
      }
    }

    /** virtio_blk_update_status */
    method UpdateStatus(value: u32)
      requires Valid()
      modifies this
      ensures Valid() && State() == VirtioBlk.UpdateStatus(old(State()), value)
    {
      status := Or32(status, value);
      if value != 0 {
        return;
      }
      var cap: u32 := Wrap32(capacity);
      deviceFeaturesSel, driverFeatures, driverFeaturesSel, queueSel := 0, 0, 0, 0;
      queues := [ZeroQueue, ZeroQueue];
      status, interruptStatus := 0, 0;
      capacity := cap;
    }

    /** virtio_blk_read_handler: disk bytes from sector * 512 into RAM. */
    method ReadHandler(sector: u64, descAddr: u32, len: u32)
      modifies ram
      ensures ram[..] == WithBytes(old(ram[..]), descAddr, DiskBytes(disk[..], Wrap64(sector * DISK_BLK_SIZE), len))
    {
      StoreBytes(ram, descAddr, DiskBytes(disk[..], Wrap64(sector * DISK_BLK_SIZE), len));
    }

    /** virtio_blk_write_handler: RAM bytes onto the disk from sector * 512. */
    method WriteHandler(sector: u64, descAddr: u32, len: u32)
      modifies disk
      ensures disk[..] == Paste(old(disk[..]), Wrap64(sector * DISK_BLK_SIZE), BytesAt(ram[..], descAddr, len))
    {
      StoreDiskBytes(disk, Wrap64(sector * DISK_BLK_SIZE), BytesAt(ram[..], descAddr, len));
    }

    /**
     * The collecting loop of virtio_blk_iter_desc: follow the chain from
     * head; an index beyond the queue fails the device.
     */
    method CollectChain(q: Queue, head: u32) returns (w: Walk)
      requires Valid()
      modifies this
      ensures Valid() && w == WalkChain(ram[..], q, head)
      ensures State() == if w.IndexFault? then old(State()).(t := Virtio.SetFail(old(Regs()))) else old(State())
    {
      var ds: seq<Desc> := [];
      var idx: u32 := head;
      while true
        invariant |ds| <= 3 && WalkFrom(ram[..], q, idx, ds) == WalkChain(ram[..], q, head)
        invariant Regs() == old(Regs())
        decreases 3 - |ds|
      {
        if idx >= q.num {
          SetFail();
          return IndexFault;
        }
        if |ds| == 3 {
          // the fourth descriptor has no slot in vq_desc
          return Overlong;
        }
        var d := DescAt(ram[..], q, idx);
        ds := ds + [d];
        if !HasNext(d) {
          return Chain(ds);
        }
        idx := d.next as u32;
      }
    }

    /**
     * The request part of virtio_blk_iter_desc: the data transfer its type
     * asks for, then the status byte.
     */
    method Serve(req: Request)
      modifies ram, disk
      ensures State() == Execute(old(State()), req)
    {
      if req.kind == VIRTIO_BLK_T_IN {
        ReadHandler(req.sector, req.data.addr, req.data.len);
      } else if req.kind == VIRTIO_BLK_T_OUT {
        WriteHandler(req.sector, req.data.addr, req.data.len);
      }
      StoreByte(ram, req.statusAddr, VIRTIO_BLK_S_OK);
    }

    /**
     * virtio_blk_iter_desc: collect the chain from head, serve the request
     * and report the summed length.
     */
    method IterDesc(q: Queue, head: u32) returns (plen: nat)
      requires Valid()
      modifies this, ram, disk
      ensures Valid() && (State(), plen) == ProcessChain(old(State()), q, head)
      ensures queues == old(queues) && queueSel == old(queueSel)
    {
      var w := CollectChain(q, head);
      if !w.Chain? {
        return 0;
      }
      var ds := w.descs;
      plen := SumLen(ds);
      Serve(Decode(ram[..], ds));
    }

    /**
     * One turn of the notify loop on queue qi: the chain named by the next
     * avail slot is served, last_avail advances and (head, length) goes to
     * used ring position newUsed % QueueNum.
     */
    method ConsumeOne(qi: nat, newUsed: u16, ghost step: (BlkState, u16) -> BlkState)
      requires Valid() && qi < QUEUE_COUNT && queues[qi].num > 0
      requires IsTurn(step, qi)
      modifies this, ram, disk
      ensures Valid() && State() == step(old(State()), newUsed)
      ensures queues == old(queues)[qi := old(queues[qi]).(lastAvail := Wrap16(old(queues[qi].lastAvail) + 1))]
    {
      var q := queues[qi];
      var queueIdx := Wrap16(q.lastAvail % q.num);
      var bufferIdx := AvailEntry(ram[..], q, queueIdx);
      ghost var s := State();
      var plen := IterDesc(q, bufferIdx as u32);
      ghost var mid := State();
      RecordUsed(qi, newUsed, bufferIdx as u32, Wrap32(plen));
      ConsumeSplit(s, qi, newUsed, (mid, plen));
    }

    /**
     * The bookkeeping of one turn: last_avail advances and (id, len) is
     * stored at used ring position newUsed % QueueNum.
     */
    method RecordUsed(qi: nat, newUsed: u16, id: u32, len: u32)
      requires Valid() && qi < QUEUE_COUNT && queues[qi].num > 0
      modifies this, ram
      ensures Valid()
      ensures var q := old(queues[qi]);
              State() == old(State()).(t := old(Regs()).(queues := old(queues)[qi := q.(lastAvail := Wrap16(q.lastAvail as int + 1))]),
                                       ram := WithUsedElem(old(ram[..]), q, newUsed, id, len))
    {
      var q := queues[qi];
      queues := queues[qi := q.(lastAvail := Wrap16(q.lastAvail as int + 1))];
      var i := q.used + 1 + (newUsed % q.num) * 2;
      if i < ram.Length {
        ram[i] := id;
      }
      if i + 1 < ram.Length {
        ram[i + 1] := len;
      }
    }

    /**
     * virtio_queue_notify_handler on queue qi.  `halted` is the division by
     * a zero QueueNum, after which the emulator process is gone.
     */
    method NotifyHandler(qi: nat) returns (halted: bool)
      requires Valid() && qi < QUEUE_COUNT
      modifies this, ram, disk
      ensures Valid()
      ensures halted <==> Notify(old(State()), qi).None?
      ensures !halted ==> State() == Notify(old(State()), qi).value
    {
      halted := false;
      if And(status, STATUS_DEVICE_NEEDS_RESET) != 0 {
        return;
      }
      var q := queues[qi];
      if !(And(status, STATUS_DRIVER_OK) != 0 && q.ready) {
        SetFail();
        return;
      }
      var newAvail := AvailIdx(ram[..], q);
      if newAvail - q.lastAvail > Wrap16(q.num) {
        SetFail();
        return;
      }
      if q.lastAvail == newAvail {
        return;
      }
      if q.num == 0 {
        // `last_avail % QueueNum` in the first turn
        return true;
      }
      TurnAdvances(qi);
      TurnIsTurn(qi);
      Batch(qi, newAvail, Turn(qi));
    }

    /**
     * The loop of the notify handler and what follows it: the entries up to
     * newAvail are served one by one, then the used index is published and
     * USED_RING raised unless the driver suppressed interrupts.
     */
    method Batch(qi: nat, newAvail: u16, ghost step: (BlkState, u16) -> BlkState)
      requires Valid() && qi < QUEUE_COUNT && queues[qi].num > 0
      requires AdvancesAlways(step, qi) && IsTurn(step, qi)
      modifies this, ram, disk
      ensures Valid() && State() == Drain(step, old(State()), qi, newAvail)
    {
      var q := queues[qi];
      var newUsed := RunLoop(qi, newAvail, step);
      PublishUsed(q, newUsed);
    }

    /**
     * The while loop of virtio_queue_notify_handler: one turn per entry
     * from last_avail up to newAvail, with the used index kept in a local.
     */
    method RunLoop(qi: nat, newAvail: u16, ghost step: (BlkState, u16) -> BlkState) returns (newUsed: u16)
      requires Valid() && qi < QUEUE_COUNT && queues[qi].num > 0
      requires IsTurn(step, qi)
      modifies this, ram, disk
      ensures Valid()
      ensures var q := old(queues[qi]);
              Loop(step, old(State()), Pending(newAvail, q.lastAvail), UsedIdx(old(ram[..]), q)) == (State(), newUsed)
    {
      var q := queues[qi];
      ghost var s0 := State();
      ghost var n := Pending(newAvail, q.lastAvail);
      ghost var k := 0;
      newUsed := UsedIdx(ram[..], q);
      while queues[qi].lastAvail != newAvail
        invariant Valid() && k <= n
        invariant queues[qi].num == q.num && queues[qi].lastAvail == Wrap16(q.lastAvail + k)
        invariant Loop(step, s0, n, UsedIdx(s0.ram, q)) == Loop(step, State(), n - k, newUsed)
        decreases n - k
      {
        PendingNext(newAvail, q.lastAvail, k);
        ghost var before := State();
        ConsumeOne(qi, newUsed, step);
        assert State() == step(before, newUsed);
        assert queues[qi].lastAvail == Wrap16(q.lastAvail + (k + 1));
        LoopUnroll(step, before, n - k, newUsed);
        newUsed := Wrap16(newUsed as int + 1);
        k := k + 1;
      }
      PendingExit(newAvail, q.lastAvail, k);
      assert Loop(step, State(), 0, newUsed) == (State(), newUsed);
    }

    /**
     * The end of virtio_queue_notify_handler: the local used index goes to
     * the high half of used->idx, and USED_RING is raised unless the avail
     * ring's flags suppress interrupts.
     */
    method PublishUsed(q: Queue, newUsed: u16)
      modifies this, ram
      ensures var p := Publish(old(ram[..]), old(interruptStatus), q, newUsed);
              ram[..] == p.0 && Regs() == old(Regs()).(interruptStatus := p.1) && capacity == old(capacity)
    {
      var u := q.used;
      if u < ram.Length {
        MaskLowHalf(ram[u]);
        ram[u] := And(ram[u], Mask(16));
        ram[u] := Or32(ram[u], newUsed as int * 0x1_0000);
      }
      if And(WordAt(ram[..], q.avail), 1) == 0 {
        interruptStatus := Or32(interruptStatus, INT_USED_RING);
      }
    }

    /** The queue address writes: VBLK_PREPROCESS_ADDR into the selected queue. */
    method SetQueueAddr(which: u32, value: u32)
      requires Valid() && which in {QueueDescLow, QueueDriverLow, QueueDeviceLow}
      modifies this
      ensures Valid() && State() == old(State()).(t := Virtio.SetQueueAddr(old(Regs()), which, value))
    {
      var i: u32 := 0;
      if value < RAM_SIZE && And(value, 3) == 0 {
        i := value / 4;
      } else {
        SetFail();
      }
      var q := queues[queueSel];
      queues := queues[queueSel := if which == QueueDescLow then q.(desc := i)
                                   else if which == QueueDriverLow then q.(avail := i)
                                   else q.(used := i)];
    }

    /**
     * The cases of virtio_blk_reg_write that only touch the register file;
     * `accepted` is false for an offset the bank does not have.
     */
    method ConfigWrite(addr: u32, value: u32) returns (accepted: bool)
      requires Valid()
      modifies this
      ensures Valid()
      ensures var r := TransportWrite(old(Regs()), old(ram[..]), VBLK_QUEUE_NUM_MAX, addr, value);
              && accepted == r.Some?
              && State() == if r.Some? then old(State()).(t := r.value) else old(State())
    {
      accepted := true;
      if addr == DeviceFeaturesSel {
        deviceFeaturesSel := value;
      } else if addr == DriverFeatures {
        if driverFeaturesSel == 0 {
          driverFeatures := value;
        }
      } else if addr == DriverFeaturesSel {
        driverFeaturesSel := value;
      } else if addr == QueueSel {
        if value < QUEUE_COUNT as u32 {
          queueSel := value;
        } else {
          SetFail();
        }
      } else if addr == QueueNum {
        if 0 < value <= VBLK_QUEUE_NUM_MAX {
          queues := queues[queueSel := queues[queueSel].(num := value)];
        } else {
          SetFail();
        }
      } else if addr == QueueReady {
        var q := queues[queueSel].(ready := And(value, 1) != 0);
        if And(value, 1) != 0 {
          q := q.(lastAvail := AvailIdx(ram[..], q));
        }
        queues := queues[queueSel := q];
      } else if addr in {QueueDescLow, QueueDriverLow, QueueDeviceLow} {
        SetQueueAddr(addr, value);
      } else if addr in {QueueDescHigh, QueueDriverHigh, QueueDeviceHigh} {
        if value != 0 {
          SetFail();
        }
      } else if addr == InterruptACK {
        interruptStatus := AndNot32(interruptStatus, value);
      } else {
        accepted := false;
      }
    }

    /**
     * virtio_blk_reg_write on word offset addr.  `halted` is a notification
     * that stops the emulator (see NotifyHandler); otherwise the new state
     * and the acceptance are those of VirtioBlk.RegWrite.
     */
    method RegWrite(addr: u32, value: u32) returns (accepted: bool, halted: bool)
      requires Valid()
      modifies this, ram, disk
      ensures Valid()
      ensures halted <==> VirtioBlk.RegWrite(old(State()), addr, value).Halted?
      ensures !halted ==> VirtioBlk.RegWrite(old(State()), addr, value) == Done(State(), accepted)
    {
      accepted, halted := true, false;
      if addr == QueueNotify {
        if value < QUEUE_COUNT as u32 {
          halted := NotifyHandler(value as nat);
        } else {
          SetFail();
        }
      } else if addr == Status {
        UpdateStatus(value);
      } else {
        accepted := ConfigWrite(addr, value);
      }
    }

    /**
     * virtio_blk_reg_read on word offset addr; `None` is an offset the bank
     * does not have.
     */
    method RegRead(addr: u32) returns (r: Option<u32>)
      requires Valid()
      ensures r == VirtioBlk.RegRead(State(), addr)
    {
      r := Some(0);
      if addr == MagicValue {
        r := Some(MAGIC);
      } else if addr == Version {
        r := Some(2);
      } else if addr == DeviceID {
        r := Some(VIRTIO_BLK_DEVICE_ID);
      } else if addr == VendorID {
        r := Some(VIRTIO_VENDOR_ID);
      } else if addr == DeviceFeatures {
        r := Some(if deviceFeaturesSel == 0 then VBLK_FEATURES_0
                  else if deviceFeaturesSel == 1 then VBLK_FEATURES_1 else 0);
      } else if addr == QueueNumMax {
        r := Some(VBLK_QUEUE_NUM_MAX);
      } else if addr == QueueReady {
        r := Some(if queues[queueSel].ready then 1 else 0);
      } else if addr == InterruptStatus {
        r := Some(interruptStatus);
      } else if addr == Status {
        r := Some(status);
      } else if addr == ConfigGeneration {
      } else if addr == Config {
        r := Some(CapacityLow(capacity));
      } else if addr == Config + 1 {
        r := Some(capacity / 0x1_0000_0000);
      } else {
        r := None;
      }
    }

    /**
     * virtio_blk_read: a load of width `width` from byte offset addr of the
     * device's window.
     */
    method Read(addr: u32, width: u8) returns (r: Load)
      requires Valid()
      ensures r == LoadAccess(width, VirtioBlk.RegRead(State(), addr / 4))
    {
      if width == RV_MEM_LW {
        var v := RegRead(addr / 4);
        r := if v.Some? then Loaded(v.value) else LoadTrap(RV_EXC_LOAD_FAULT);
      } else if width in {RV_MEM_LBU, RV_MEM_LB, RV_MEM_LHU, RV_MEM_LH} {
        r := LoadTrap(RV_EXC_LOAD_MISALIGN);
      } else {
        r := LoadTrap(RV_EXC_ILLEGAL_INSN);
      }
    }

    /**
     * virtio_blk_write: a store of width `width` to byte offset addr of the
     * device's window.  Only word stores reach the register bank; a refused
     * offset is a store fault.  `halted` is as in RegWrite.
     */
    method Write(addr: u32, width: u8, value: u32) returns (trap: Option<nat>, halted: bool)
      requires Valid()
      modifies this, ram, disk
      ensures Valid()
      ensures width != RV_MEM_SW ==> !halted && trap == StoreWidthTrap(width) && State() == old(State())
      ensures width == RV_MEM_SW ==>
                var r := VirtioBlk.RegWrite(old(State()), addr / 4, value);
                && (halted <==> r.Halted?)
                && (!halted ==> State() == r.state && (trap == None <==> r.accepted))
                && (trap != None ==> trap == Some(RV_EXC_STORE_FAULT))
    {
      trap, halted := None, false;
      if width == RV_MEM_SW {
        var accepted;
        accepted, halted := RegWrite(addr / 4, value);
        if !accepted {
          trap := Some(RV_EXC_STORE_FAULT);
        }
      } else if width in {RV_MEM_SB, RV_MEM_SH} {
        trap := Some(RV_EXC_STORE_MISALIGN);
      } else {
        trap := Some(RV_EXC_ILLEGAL_INSN);
      }
    }
  }
}
