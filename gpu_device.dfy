/**
 * The virtio GPU device record of virtio-gpu.c as an object: its register
 * fields, the RAM array it points into, the resource list and the private
 * scanout data.  Every method is proved to move the record exactly as the
 * corresponding function of VirtioGpu, GpuCommands or GpuQueue moves a
 * `GpuState` snapshot, so the properties proved there hold of the object.
 */
module VirtioGpuDevice {
  import opened Common
  import opened GuestRam
  import opened Virtio
  import opened Edid
  import opened GpuResources
  import opened VirtioGpu
  import opened GpuCommands
  import opened GpuQueue

  /** virtio_gpu_write_response: a zeroed header carrying its type, at addr. */
  method WriteResponse(ram: array<u32>, addr: u32, kind: u32) returns (len: u32)
    modifies ram
    ensures ram[..] == Respond(old(ram[..]), addr, kind) && len == HDR_SIZE as u32
  {
    StoreBytes(ram, addr, ResponseHeader(kind));
    len := HDR_SIZE as u32;
  }

  /** virtio_gpu_set_response_fencing */
  method SetResponseFencing(ram: array<u32>, req: u32, resp: u32)
    modifies ram
    ensures ram[..] == Fence(old(ram[..]), req, resp)
  {
    var flags := FenceFlag(LoadU32(ram[..], req as int + 4));
    StoreWord(ram, req as int + 4, flags);
    if flags != 0 {
      StoreWord(ram, resp as int + 4, VIRTIO_GPU_FLAG_FENCE);
      StoreDword(ram, resp as int + 8, LoadU64(ram[..], req as int + 8));
    }
  }

  /** A zero-filled area is the zero sequence of its length. */
  lemma ZeroArea(z: seq<u8>)
    requires forall i :: 0 <= i < |z| ==> z[i] == 0
    ensures z == Zeros(|z|)
  {
  }

  /** An EDID area holding the block, then zeros, completes the response. */
  lemma BlockThenZeros(e: seq<u8>)
    requires |e| == 1024 && e[..EDID_SIZE] == Block(0, 0) && e[EDID_SIZE..] == Zeros(1024 - EDID_SIZE)
    ensures ResponseHeader(RESP_OK_EDID) + WordBytes(EDID_SIZE) + WordBytes(0) + e == EdidResponse()
  {
    assert e == e[..EDID_SIZE] + e[EDID_SIZE..];
    var h := ResponseHeader(RESP_OK_EDID) + WordBytes(EDID_SIZE) + WordBytes(0);
    assert h + (Block(0, 0) + Zeros(1024 - EDID_SIZE)) == h + Block(0, 0) + Zeros(1024 - EDID_SIZE);
  }

  /**
   * The three ways a turn on queue qi can end, by the outcome d of the
   * command of the chain at `head`.
   */
  lemma ConsumeCases(s: GpuState, qi: nat, newUsed: u16, head: u16, d: Outcome)
    requires s.Valid() && qi < QUEUE_COUNT && s.t.queues[qi].num > 0
    requires var q := s.t.queues[qi];
             head == AvailEntry(s.ram, q, Wrap16(q.lastAvail % q.num)) && d == Dispatch(s, Collect(s.ram, q, head as int))
    ensures var q := s.t.queues[qi];
            var c := Consume(s, qi, newUsed);
            && (d.Crash? <==> c.Halt?)
            && (d.Reject? ==> c == Abort(d.state.(t := Virtio.SetFail(d.state.t))))
            && (d.Reply? ==>
                  d.state.t.queues == s.t.queues &&
                  c == Next(d.state.(t := d.state.t.(queues := d.state.t.queues[qi := q.(lastAvail := Wrap16(q.lastAvail as int + 1))]),
                               ram := WithUsedElem(d.state.ram, q, newUsed, head as u32, d.len))))
  {
  }

  class GpuDevice {
    var deviceFeaturesSel: u32
    var driverFeatures: u32
    var driverFeaturesSel: u32
    var queueSel: u32
    var queues: seq<Queue>
    var status: u32
    var interruptStatus: u32
    /** Guest RAM, one 32-bit word per element. */
    const ram: array<u32>
    /** vgpu_res_2d_list */
    const resources: ResourceTable
    /** The scanouts of the private data. */
    var scanouts: seq<Scanout>
    /** vgpu_configs.num_scanouts */
    var numScanouts: u32
    /** CURSOR_WIDTH and CURSOR_HEIGHT. */
    const cursorWidth: u32
    const cursorHeight: u32

    ghost predicate Valid()
      reads this
    {
      && |queues| == QUEUE_COUNT && queueSel < QUEUE_COUNT as u32
      && |scanouts| == VIRTIO_GPU_MAX_SCANOUTS && numScanouts as nat <= VIRTIO_GPU_MAX_SCANOUTS
    }

    /** The register file as a value. */
    function Regs(): Transport
      reads this
    {
      Transport(deviceFeaturesSel, driverFeatures, driverFeaturesSel, queueSel, queues, status, interruptStatus)
    }

    /** Everything the device reads or writes, as a value. */
    function State(): GpuState
      reads this, ram, resources
    {
      GpuState(Regs(), ram[..], resources.items, scanouts, numScanouts, cursorWidth, cursorHeight)
    }

    /**
     * A zeroed device record as the emulator allocates it, with the private
     * data cleared by virtio_gpu_init, the empty resource list and no
     * scanout yet.
     */
    constructor (ram: array<u32>, cursorWidth: u32, cursorHeight: u32)
      ensures Valid() && fresh(resources)
      ensures State() == GpuState(ZeroTransport, ram[..], [], seq(VIRTIO_GPU_MAX_SCANOUTS, _ => ZeroScanout), 0, cursorWidth, cursorHeight)
    {
      deviceFeaturesSel, driverFeatures, driverFeaturesSel, queueSel := 0, 0, 0, 0;
      queues := [ZeroQueue, ZeroQueue];
      status, interruptStatus := 0, 0;
      this.ram := ram;
      resources := new ResourceTable();
      scanouts := seq(VIRTIO_GPU_MAX_SCANOUTS, _ => ZeroScanout);
      numScanouts := 0;
      this.cursorWidth, this.cursorHeight := cursorWidth, cursorHeight;
    }

    /**
     * virtio_gpu_add_scanout; `exited` is the exit of the emulator once
     * all sixteen scanouts are in use.
     */
    method AddScanout(width: u32, height: u32) returns (exited: bool)
      requires Valid()
      modifies this
      ensures exited <==> VirtioGpu.AddScanout(old(State()), width, height).None?
      ensures !exited ==> Valid() && State() == VirtioGpu.AddScanout(old(State()), width, height).value
    {
      if numScanouts as nat >= VIRTIO_GPU_MAX_SCANOUTS {
        return true;
      }
      scanouts := scanouts[numScanouts := Scanout(width, height, 1)];
      numScanouts := numScanouts + 1;
      return false;
    }

    /** virtio_gpu_set_fail */
    method SetFail()
      requires Valid()
      modifies this
      ensures Valid() && State() == old(State()).(t := Virtio.SetFail(old(Regs())))
    {
      status := Or32(status, STATUS_DEVICE_NEEDS_RESET);
      if And(status, STATUS_DRIVER_OK) != 0 {
        interruptStatus := Or32(interruptStatus, INT_CONF_CHANGE);
      }
    }

    /**
     * virtio_gpu_update_status: on 0 the record and the first byte of the
     * private data are zeroed, the scanout count is kept and every
     * resource is released.
     */
    method UpdateStatus(value: u32)
      requires Valid()
      modifies this, resources
      ensures Valid() && State() == VirtioGpu.UpdateStatus(old(State()), value)
    {
      status := Or32(status, value);
      if value != 0 {
        return;
      }
      scanouts := ClearPrivByte(scanouts);
      deviceFeaturesSel, driverFeatures, driverFeaturesSel, queueSel := 0, 0, 0, 0;
      queues := [ZeroQueue, ZeroQueue];
      status, interruptStatus := 0, 0;
      resources.Clear();
    }

    // -------------------------------------------------------------------
    // Command handlers

    /**
     * virtio_gpu_get_display_info_handler: the mode of each configured
     * scanout, in order, after a zeroed header with the response type.
     */
    method GetDisplayInfoHandler(ds: seq<Desc>) returns (plen: u32)
      requires Valid()
      modifies ram
      ensures Valid() && Reply(State(), plen) == GetDisplayInfo(old(State()), ds)
    {
      var modes: seq<u8> := [];
      var i := 0;
      while i < numScanouts
        invariant i <= numScanouts && modes == Modes(scanouts[..i])
      {
        assert scanouts[..i + 1][..i] == scanouts[..i];
        modes := modes + Mode(scanouts[i]);
        i := i + 1;
      }
      assert scanouts[..numScanouts] == scanouts[..i];
      StoreBytes(ram, Resp(ds), ResponseHeader(RESP_OK_DISPLAY_INFO) + modes
                                + Zeros(24 * (VIRTIO_GPU_MAX_SCANOUTS - numScanouts as nat)));
      plen := DISPLAY_INFO_SIZE as u32;
    }

    /**
     * virtio_gpu_resource_create_2d_handler: the record is linked in first
     * and configured only when the format is one of the eight accepted.
     */
    method ResourceCreate2DHandler(ds: seq<Desc>) returns (plen: u32)
      requires Valid()
      modifies this, ram, resources
      ensures Valid() && Reply(State(), plen) == ResourceCreate2D(old(State()), ds)
    {
      ghost var s0 := State();
      var req := Req(ds);
      var id := Field(ram[..], req, 24);
      var format := Field(ram[..], req, 28);
      var i := resources.Create(id);
      assert State() == s0.(resources := s0.resources + [Fresh(id)]);
      if !SupportedFormat(format) {
        SetFail();
        return 0;
      }
      var res := Configured(id, format, Field(ram[..], req, 32), Field(ram[..], req, 36));
      resources.Update(i, res);
      assert resources.items == s0.resources + [res];
      plen := WriteResponse(ram, Resp(ds), RESP_OK_NODATA);
      SetResponseFencing(ram, req, Resp(ds));
      assert State() == s0.(resources := s0.resources + [res], ram := FencedAck(s0.ram, req, Resp(ds)));
    }

    /** virtio_gpu_cmd_resource_unref_handler */
    method ResourceUnrefHandler(ds: seq<Desc>) returns (plen: u32)
      requires Valid()
      modifies this, ram, resources
      ensures Valid() && Reply(State(), plen) == ResourceUnref(old(State()), ds)
    {
      var result := resources.Destroy(Field(ram[..], Req(ds), 24));
      if result != 0 {
        SetFail();
        return 0;
      }
      plen := WriteResponse(ram, Resp(ds), RESP_OK_NODATA);
    }

    /**
     * virtio_gpu_get_edid_handler: the block is generated into a zeroed
     * local response, which is then copied out whole.
     */
    method GetEdidHandler(ds: seq<Desc>) returns (plen: u32)
      requires Valid()
      modifies ram
      ensures Valid() && Reply(State(), plen) == GetEdid(old(State()), ds)
    {
      var edid := new u8[1024](_ => 0);
      ZeroArea(edid[EDID_SIZE..]);
      GenerateEdid(edid, 0, 0);
      BlockThenZeros(edid[..]);
      StoreBytes(ram, Resp(ds), ResponseHeader(RESP_OK_EDID) + WordBytes(EDID_SIZE) + WordBytes(0) + edid[..]);
      plen := EDID_RESPONSE_SIZE as u32;
    }

    /**
     * virtio_gpu_cmd_set_scanout_handler; `crashed` is the dereference of
     * the null pointer the lookup returns for a missing nonzero id.
     */
    method SetScanoutHandler(ds: seq<Desc>) returns (plen: u32, crashed: bool)
      requires Valid()
      modifies ram, resources
      ensures Valid()
      ensures var r := SetScanout(old(State()), ds);
              && (crashed <==> r.Crash?)
              && (!crashed ==> Reply(State(), plen) == r)
    {
      var req := Req(ds);
      var id := Field(ram[..], req, 44);
      var found := resources.Acquire(id);
      if id != 0 {
        if found.None? {
          return 0, true;
        }
        var res := resources.items[found.value];
        resources.Update(found.value, res.(scanoutId := Field(ram[..], req, 40), scanoutAttached := true));
      }
      plen := WriteResponse(ram, Resp(ds), RESP_OK_NODATA);
      crashed := false;
    }

    /**
     * virtio_gpu_cmd_resource_flush_handler without the window rendering;
     * `crashed` is the dereference of a failed lookup.
     */
    method ResourceFlushHandler(ds: seq<Desc>) returns (plen: u32, crashed: bool)
      requires Valid()
      modifies ram
      ensures Valid()
      ensures var r := ResourceFlush(old(State()), ds);
              && (crashed <==> r.Crash?)
              && (!crashed ==> Reply(State(), plen) == r)
    {
      var found := resources.Acquire(Field(ram[..], Req(ds), 40));
      if found.None? {
        return 0, true;
      }
      plen := WriteResponse(ram, Resp(ds), RESP_OK_NODATA);
      crashed := false;
    }

    /**
     * virtio_gpu_cmd_transfer_to_host_2d_handler without the pixel copy:
     * the lookup and the boundary check, sums in 32 bits, then the fenced
     * answer; `crashed` is the cursor copy from a resource without pages.
     */
    method TransferToHost2DHandler(ds: seq<Desc>) returns (plen: u32, crashed: bool)
      requires Valid()
      modifies this, ram
      ensures Valid()
      ensures var r := TransferToHost2D(old(State()), ds);
              && (crashed <==> r.Crash?)
              && (!crashed ==> Reply(State(), plen) == r)
    {
      ghost var s := State();
      var req := Req(ds);
      var found := resources.Acquire(Field(ram[..], req, 48));
      assert found == Find(s.resources, Field(s.ram, req, 48));
      if found.None? {
        SetFail();
        return 0, false;
      }
      var res := resources.items[found.value];
      var r := RectAt(ram[..], req);
      if OutOfBounds(r, res) {
        SetFail();
        return 0, false;
      }
      var width := if r.width < res.width then r.width else res.width;
      var height := if r.height < res.height then r.height else res.height;
      if width == cursorWidth && height == cursorHeight && |res.pages| == 0 {
        return 0, true;
      }
      plen := WriteResponse(ram, Resp(ds), RESP_OK_NODATA);
      SetResponseFencing(ram, req, Resp(ds));
      assert ram[..] == FencedAck(s.ram, req, Resp(ds));
      crashed := false;
    }

    /**
     * virtio_gpu_cmd_resource_attach_backing_handler: one page per entry
     * of the second descriptor's buffer, then the fenced answer at the
     * third; `crashed` is the dereference of a failed lookup.
     */
    method AttachBackingHandler(ds: seq<Desc>) returns (plen: u32, crashed: bool)
      requires Valid()
      modifies ram, resources
      ensures Valid()
      ensures var r := AttachBacking(old(State()), ds);
              && (crashed <==> r.Crash?)
              && (!crashed ==> Reply(State(), plen) == r)
    {
      var req := Req(ds);
      var found := resources.Acquire(Field(ram[..], req, 24));
      if found.None? {
        return 0, true;
      }
      var n := Field(ram[..], req, 28);
      var entries := Slot(ds, 1).addr;
      var pages: seq<Page> := [];
      var i: u32 := 0;
      while i < n
        invariant i <= n && |pages| == i as nat
        invariant forall k :: 0 <= k < i ==> pages[k] == PageAt(ram[..], entries, k)
      {
        var addr := LoadU64(ram[..], entries as int + 16 * i);
        pages := pages + [Page(Wrap32(addr), LoadU32(ram[..], entries as int + 16 * i + 8))];
        i := i + 1;
      }
      assert pages == Pages(ram[..], entries, n);
      resources.Update(found.value, resources.items[found.value].(pages := pages));
      plen := WriteResponse(ram, Slot(ds, 2).addr, RESP_OK_NODATA);
      SetResponseFencing(ram, req, Slot(ds, 2).addr);
      crashed := false;
    }

    /** The cursor handlers without the window calls: a plain answer. */
    method CursorHandler(ds: seq<Desc>) returns (plen: u32)
      requires Valid()
      modifies ram
      ensures Valid() && Reply(State(), plen) == Ack(old(State()), ds)
    {
      plen := WriteResponse(ram, Resp(ds), RESP_OK_NODATA);
    }

    // -------------------------------------------------------------------
    // The queue

    /** The collecting loop of virtio_gpu_desc_handler. */
    method CollectDescs(q: Queue, head: int) returns (ds: seq<Desc>)
      ensures ds == Collect(ram[..], q, head)
    {
      ds := [];
      var idx := head;
      var i := 0;
      while i < 3
        invariant 0 <= i <= 3 && |ds| == i
        invariant i < 3 ==> CollectFrom(ram[..], q, idx, ds) == Collect(ram[..], q, head)
        invariant i == 3 ==> ds == Collect(ram[..], q, head)
      {
        var d := DescAt(ram[..], q, idx);
        ds := ds + [d];
        idx := d.next as int;
        if !HasNext(d) {
          return;
        }
        i := i + 1;
      }
    }

    /**
     * virtio_gpu_desc_handler: collect the chain from head and run the
     * command its request header names.
     */
    method DescHandler(q: Queue, head: u16) returns (plen: u32, rejected: bool, crashed: bool)
      requires Valid()
      modifies this, ram, resources
      ensures Valid()
      ensures var r := Dispatch(old(State()), Collect(old(ram[..]), q, head as int));
              && (crashed <==> r.Crash?) && (rejected <==> r.Reject?)
              && (r.Reply? ==> Reply(State(), plen) == r)
              && (r.Reject? ==> State() == r.state)
    {
      var ds := CollectDescs(q, head as int);
      var kind := Field(ram[..], Req(ds), 0);
      plen, rejected, crashed := 0, false, false;
      if kind == CMD_GET_DISPLAY_INFO {
        plen := GetDisplayInfoHandler(ds);
      } else if kind == CMD_RESOURCE_CREATE_2D {
        plen := ResourceCreate2DHandler(ds);
      } else if kind == CMD_RESOURCE_UNREF {
        plen := ResourceUnrefHandler(ds);
      } else if kind == CMD_SET_SCANOUT {
        plen, crashed := SetScanoutHandler(ds);
      } else if kind == CMD_RESOURCE_FLUSH {
        plen, crashed := ResourceFlushHandler(ds);
      } else if kind == CMD_TRANSFER_TO_HOST_2D {
        plen, crashed := TransferToHost2DHandler(ds);
      } else if kind == CMD_RESOURCE_ATTACH_BACKING {
        plen, crashed := AttachBackingHandler(ds);
      } else if kind == CMD_GET_EDID {
        plen := GetEdidHandler(ds);
      } else if kind == CMD_UPDATE_CURSOR || kind == CMD_MOVE_CURSOR {
        plen := CursorHandler(ds);
      } else if !Known(kind) {
        SetFail();
        rejected := true;
      }
    }

    /**
     * The bookkeeping of one turn: last_avail advances and (id, len) is
     * stored at used ring position newUsed % QueueNum.
     */
    method RecordUsed(qi: nat, newUsed: u16, id: u32, len: u32)
      requires Valid() && qi < QUEUE_COUNT && queues[qi].num > 0
      modifies this, ram
      ensures Valid()
      ensures var q := old(queues[qi]);
              State() == old(State()).(t := old(Regs()).(queues := old(queues)[qi := q.(lastAvail := Wrap16(q.lastAvail as int + 1))]),
                                       ram := WithUsedElem(old(ram[..]), q, newUsed, id, len))
    {
      var q := queues[qi];
      queues := queues[qi := q.(lastAvail := Wrap16(q.lastAvail as int + 1))];
      var i := q.used + 1 + (newUsed % q.num) * 2;
      if i < ram.Length {
        ram[i] := id;
      }
      if i + 1 < ram.Length {
        ram[i + 1] := len;
      }
    }

    /**
     * One turn of the notify loop on queue qi.  `aborted` is a rejected
     * command, after which the device is failed once more and the handler
     * returns; `crashed` is the end of the emulator.
     */
    method ConsumeOne(qi: nat, newUsed: u16, ghost step: (GpuState, u16) -> Step) returns (aborted: bool, crashed: bool)
      requires Valid() && qi < QUEUE_COUNT && queues[qi].num > 0
      requires IsTurn(step, qi)
      modifies this, ram, resources
      ensures var r := step(old(State()), newUsed);
              && (crashed <==> r.Halt?) && (aborted <==> r.Abort?)
              && (!crashed ==> Valid() && State() == r.state)
    {
      ghost var s := State();
      var q := queues[qi];
      var bufferIdx := AvailEntry(ram[..], q, Wrap16(q.lastAvail % q.num));
      ghost var d := Dispatch(s, Collect(s.ram, q, bufferIdx as int));
      ConsumeCases(s, qi, newUsed, bufferIdx, d);
      assert step(s, newUsed) == Consume(s, qi, newUsed);
      var plen, rejected;
      plen, rejected, crashed := DescHandler(q, bufferIdx);
      aborted := false;
      if !crashed {
        aborted := Settle(qi, newUsed, bufferIdx, plen, rejected, s, d);
      }
    }

    /**
     * The rest of a turn once the command has run: a rejected command
     * fails the device, any other is recorded in the used ring.
     */
    method Settle(qi: nat, newUsed: u16, head: u16, plen: u32, rejected: bool, ghost s: GpuState, ghost d: Outcome) returns (aborted: bool)
      requires Valid() && s.Valid() && qi < QUEUE_COUNT && s.t.queues[qi].num > 0
      requires !d.Crash? && State() == d.state && (rejected <==> d.Reject?) && (d.Reply? ==> plen == d.len)
      requires d.Reply? ==> d.state.t.queues == s.t.queues
      modifies this, ram
      ensures aborted == rejected && Valid()
      ensures var q := s.t.queues[qi];
              State() == if rejected then d.state.(t := Virtio.SetFail(d.state.t))
                         else d.state.(t := d.state.t.(queues := d.state.t.queues[qi := q.(lastAvail := Wrap16(q.lastAvail as int + 1))]),
                                       ram := WithUsedElem(d.state.ram, q, newUsed, head as u32, d.len))
    {
      if rejected {
        SetFail();
        return true;
      }
      RecordUsed(qi, newUsed, head as u32, plen);
      aborted := false;
    }

    /**
     * One turn of the loop, seen from the batch: m turns from here run as
     * this one and then m - 1 more from the state it leaves.
     */
    method RunTurn(qi: nat, newUsed: u16, ghost step: (GpuState, u16) -> Step, ghost m: nat) returns (aborted: bool, crashed: bool)
      requires Valid() && qi < QUEUE_COUNT && queues[qi].num > 0 && m > 0
      requires IsTurn(step, qi) && AdvancesAlways(step, qi)
      modifies this, ram, resources
      ensures crashed ==> Run(step, old(State()), m, newUsed) == Crashed
      ensures aborted ==> !crashed && Valid() && Run(step, old(State()), m, newUsed) == Aborted(State())
      ensures !aborted && !crashed ==>
                && Valid()
                && queues[qi].num == old(queues[qi].num)
                && queues[qi].lastAvail == Wrap16(old(queues[qi].lastAvail) as int + 1)
                && Run(step, old(State()), m, newUsed) == Run(step, State(), m - 1, Wrap16(newUsed as int + 1))
    {
      ghost var before := State();
      RunUnroll(step, before, m, newUsed);
      assert TurnEffect(step(before, newUsed), before, qi);
      aborted, crashed := ConsumeOne(qi, newUsed, step);
    }

    /**
     * The while loop of virtio_queue_notify_handler: one turn per entry
     * from last_avail up to newAvail, with the used index kept in a local;
     * a turn that aborts or crashes ends it.
     */
    method RunLoop(qi: nat, newAvail: u16, ghost step: (GpuState, u16) -> Step) returns (newUsed: u16, aborted: bool, crashed: bool)
      requires Valid() && qi < QUEUE_COUNT && queues[qi].num > 0
      requires IsTurn(step, qi) && AdvancesAlways(step, qi)
      modifies this, ram, resources
      ensures var q := old(queues[qi]);
              var b := Run(step, old(State()), Pending(newAvail, q.lastAvail), UsedIdx(old(ram[..]), q));
              && (crashed <==> b.Crashed?) && (aborted <==> b.Aborted?)
              && (b.Finished? ==> Valid() && State() == b.state && newUsed == b.newUsed)
              && (b.Aborted? ==> Valid() && State() == b.state)
    {
      var q := queues[qi];
      ghost var s0 := State();
      ghost var n := Pending(newAvail, q.lastAvail);
      ghost var k := 0;
      newUsed := UsedIdx(ram[..], q);
      aborted, crashed := false, false;
      while queues[qi].lastAvail != newAvail
        invariant Valid() && k <= n && !aborted && !crashed
        invariant queues[qi].num == q.num && queues[qi].lastAvail == Wrap16(q.lastAvail + k)
        invariant Run(step, s0, n, UsedIdx(s0.ram, q)) == Run(step, State(), n - k, newUsed)
        decreases n - k
      {
        PendingNext(newAvail, q.lastAvail, k);
        aborted, crashed := RunTurn(qi, newUsed, step, n - k);
        if aborted || crashed {
          return;
        }
        newUsed := Wrap16(newUsed as int + 1);
        k := k + 1;
      }
      PendingExit(newAvail, q.lastAvail, k);
    }

    /**
     * The loop of the notify handler and what follows it: a batch that
     * runs to the end publishes the used index and raises USED_RING unless
     * the driver suppressed interrupts.
     */
    method Batch(qi: nat, newAvail: u16, ghost step: (GpuState, u16) -> Step) returns (crashed: bool)
      requires Valid() && qi < QUEUE_COUNT && queues[qi].num > 0
      requires IsTurn(step, qi) && AdvancesAlways(step, qi)
      modifies this, ram, resources
      ensures var r := Drain(step, old(State()), qi, newAvail);
              && (crashed <==> r.None?)
              && (!crashed ==> Valid() && State() == r.value)
    {
      var q := queues[qi];
      var newUsed, aborted;
      newUsed, aborted, crashed := RunLoop(qi, newAvail, step);
      if aborted || crashed {
        return;
      }
      PublishUsed(q, newUsed);
    }

    /**
     * The end of virtio_queue_notify_handler: the local used index goes to
     * the high half of used->idx, and USED_RING is raised unless the avail
     * ring's flags suppress interrupts.
     */
    method PublishUsed(q: Queue, newUsed: u16)
      modifies this, ram
      ensures var p := Publish(old(ram[..]), old(interruptStatus), q, newUsed);
              State() == old(State()).(ram := p.0, t := old(Regs()).(interruptStatus := p.1))
    {
      var u := q.used;
      if u < ram.Length {
        MaskLowHalf(ram[u]);
        ram[u] := And(ram[u], Mask(16));
        ram[u] := Or32(ram[u], newUsed as int * 0x1_0000);
      }
      if And(WordAt(ram[..], q.avail), 1) == 0 {
        interruptStatus := Or32(interruptStatus, INT_USED_RING);
      }
    }

    /**
     * virtio_queue_notify_handler on queue qi.  `halted` is the end of the
     * emulator: a command that dereferenced a missing resource, or the
     * division by a zero QueueNum.
     */
    method NotifyHandler(qi: nat) returns (halted: bool)
      requires Valid() && qi < QUEUE_COUNT
      modifies this, ram, resources
      ensures halted <==> Notify(old(State()), qi).None?
      ensures !halted ==> Valid() && State() == Notify(old(State()), qi).value
    {
      halted := false;
      if And(status, STATUS_DEVICE_NEEDS_RESET) != 0 {
        return;
      }
      var q := queues[qi];
      if !(And(status, STATUS_DRIVER_OK) != 0 && q.ready) {
        SetFail();
        return;
      }
      var newAvail := AvailIdx(ram[..], q);
      if newAvail - q.lastAvail > Wrap16(q.num) {
        SetFail();
        return;
      }
      if q.lastAvail == newAvail {
        return;
      }
      if q.num == 0 {
        // `last_avail % QueueNum` in the first turn
        return true;
      }
      TurnAdvances(qi);
      TurnIsTurn(qi);
      halted := Batch(qi, newAvail, Turn(qi));
    }

    // -------------------------------------------------------------------
    // Registers

    /** vgpu_preprocess into the selected queue's ring address. */
    method SetQueueAddr(which: u32, value: u32)
      requires Valid() && which in {QueueDescLow, QueueDriverLow, QueueDeviceLow}
      modifies this
      ensures Valid() && State() == old(State()).(t := Virtio.SetQueueAddr(old(Regs()), which, value))
    {
      var i: u32 := 0;
      if value < RAM_SIZE && And(value, 3) == 0 {
        i := value / 4;
      } else {
        SetFail();
      }
      var q := queues[queueSel];
      queues := queues[queueSel := if which == QueueDescLow then q.(desc := i)
                                   else if which == QueueDriverLow then q.(avail := i)
                                   else q.(used := i)];
    }

    /**
     * The cases of virtio_gpu_reg_write that only touch the register file;
     * `accepted` is false for an offset they do not cover.
     */
    method ConfigWrite(addr: u32, value: u32) returns (accepted: bool)
      requires Valid()
      modifies this
      ensures Valid()
      ensures var r := TransportWrite(old(Regs()), old(ram[..]), VGPU_QUEUE_NUM_MAX, addr, value);
              && accepted == r.Some?
              && State() == if r.Some? then old(State()).(t := r.value) else old(State())
    {
      accepted := true;
      if addr == DeviceFeaturesSel {
        deviceFeaturesSel := value;
      } else if addr == DriverFeatures {
        if driverFeaturesSel == 0 {
          driverFeatures := value;
        }
      } else if addr == DriverFeaturesSel {
        driverFeaturesSel := value;
      } else if addr == QueueSel {
        if value < QUEUE_COUNT as u32 {
          queueSel := value;
        } else {
          SetFail();
        }
      } else if addr == QueueNum {
        if 0 < value <= VGPU_QUEUE_NUM_MAX {
          queues := queues[queueSel := queues[queueSel].(num := value)];
        } else {
          SetFail();
        }
      } else if addr == QueueReady {
        var q := queues[queueSel].(ready := And(value, 1) != 0);
        if And(value, 1) != 0 {
          q := q.(lastAvail := AvailIdx(ram[..], q));
        }
        queues := queues[queueSel := q];
      } else if addr in {QueueDescLow, QueueDriverLow, QueueDeviceLow} {
        SetQueueAddr(addr, value);
      } else if addr in {QueueDescHigh, QueueDriverHigh, QueueDeviceHigh} {
        if value != 0 {
          SetFail();
        }
      } else if addr == InterruptACK {
        interruptStatus := AndNot32(interruptStatus, value);
      } else {
        accepted := false;
      }
    }

    /**
     * virtio_gpu_reg_write on word offset addr.  `halted` is a notification
     * that ends the emulator (see NotifyHandler); otherwise the new state
     * and the acceptance are those of GpuQueue.RegWrite.
     */
    method RegWrite(addr: u32, value: u32) returns (accepted: bool, halted: bool)
      requires Valid()
      modifies this, ram, resources
      ensures halted <==> GpuQueue.RegWrite(old(State()), addr, value).Halted?
      ensures !halted ==> Valid() && GpuQueue.RegWrite(old(State()), addr, value) == Done(State(), accepted)
    {
      accepted, halted := true, false;
      if addr == QueueNotify {
        if value < QUEUE_COUNT as u32 {
          halted := NotifyHandler(value as nat);
        } else {
          SetFail();
        }
      } else if addr == Status {
        UpdateStatus(value);
      } else if addr == SHMSel {
      } else {
        accepted := ConfigWrite(addr, value);
        if !accepted {
          // the configuration window: only events_clear takes a write
          accepted := RangeCheck(addr, Config, CONFIG_SIZE) && Wrap32((addr - Config) * 4) == 4;
        }
      }
    }

    /**
     * virtio_gpu_reg_read on word offset addr; `None` is an offset the bank
     * does not have.
     */
    method RegRead(addr: u32) returns (r: Option<u32>)
      requires Valid()
      ensures r == VirtioGpu.RegRead(State(), addr)
    {
      r := Some(0);
      if addr == MagicValue {
        r := Some(MAGIC);
      } else if addr == Version {
        r := Some(2);
      } else if addr == DeviceID {
        r := Some(VIRTIO_GPU_DEVICE_ID);
      } else if addr == VendorID {
        r := Some(VIRTIO_VENDOR_ID);
      } else if addr == DeviceFeatures {
        r := Some(if deviceFeaturesSel != 0 then VIRTIO_F_VERSION_1 else VIRTIO_GPU_F_EDID);
      } else if addr == QueueNumMax {
        r := Some(VGPU_QUEUE_NUM_MAX);
      } else if addr == QueueReady {
        r := Some(if queues[queueSel].ready then 1 else 0);
      } else if addr == InterruptStatus {
        r := Some(interruptStatus);
      } else if addr == Status {
        r := Some(status);
      } else if addr == SHMLenLow || addr == SHMLenHigh {
        // shared memory is not implemented: -1 in 32 bits
        r := Some(0xFFFF_FFFF);
      } else if addr == SHMBaseLow || addr == SHMBaseHigh || addr == ConfigGeneration {
      } else if !RangeCheck(addr, Config, CONFIG_SIZE) {
        r := None;
      } else {
        var offset := Wrap32((addr - Config) * 4);
        if offset == 8 {
          r := Some(numScanouts);
        } else if offset != 0 && offset != 12 {
          r := None;
        }
      }
    }

    /**
     * virtio_gpu_read: a load of width `width` from byte offset addr of the
     * device's window.
     */
    method Read(addr: u32, width: u8) returns (r: Load)
      requires Valid()
      ensures r == LoadAccess(width, VirtioGpu.RegRead(State(), addr / 4))
    {
      if width == RV_MEM_LW {
        var v := RegRead(addr / 4);
        r := if v.Some? then Loaded(v.value) else LoadTrap(RV_EXC_LOAD_FAULT);
      } else if width in {RV_MEM_LBU, RV_MEM_LB, RV_MEM_LHU, RV_MEM_LH} {
        r := LoadTrap(RV_EXC_LOAD_MISALIGN);
      } else {
        r := LoadTrap(RV_EXC_ILLEGAL_INSN);
      }
    }

    /**
     * virtio_gpu_write: a store of width `width` to byte offset addr of the
     * device's window.  Only word stores reach the register bank; a refused
     * offset is a store fault.  `halted` is as in RegWrite.
     */
    method Write(addr: u32, width: u8, value: u32) returns (trap: Option<nat>, halted: bool)
      requires Valid()
      modifies this, ram, resources
      ensures width != RV_MEM_SW ==> !halted && trap == StoreWidthTrap(width) && State() == old(State())
      ensures width == RV_MEM_SW ==>
                var r := GpuQueue.RegWrite(old(State()), addr / 4, value);
                && (halted <==> r.Halted?)
                && (!halted ==> Valid() && State() == r.state && (trap == None <==> r.accepted))
                && (trap != None ==> trap == Some(RV_EXC_STORE_FAULT))
    {
      trap, halted := None, false;
      if width == RV_MEM_SW {
        var accepted;
        accepted, halted := RegWrite(addr / 4, value);
        if !accepted {
          trap := Some(RV_EXC_STORE_FAULT);
        }
      } else if width in {RV_MEM_SB, RV_MEM_SH} {
        trap := Some(RV_EXC_STORE_MISALIGN);
      } else {
        trap := Some(RV_EXC_ILLEGAL_INSN);
      }
    }
  }
}
