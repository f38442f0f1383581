/**
 * The virtio GPU device (virtio-gpu.c) with the software 2-D backend, the
 * build without virglrenderer: its register bank, its reset rule, and the
 * control commands with the responses they write into guest RAM.
 *
 * A command sees the device as a `GpuState` snapshot and the descriptors
 * of its chain; its outcome is the new state and the length reported to
 * the used ring.  The queue engine that feeds commands in is GpuQueue; the
 * device record as an object is GpuDevice.
 */
module VirtioGpu {
  import opened Common
  import opened GuestRam
  import opened Virtio
  import opened Edid
  import opened GpuResources

  const VIRTIO_GPU_DEVICE_ID: u32 := 16
  const VGPU_QUEUE_NUM_MAX: u32 := 1024
  const VIRTIO_F_VERSION_1: u32 := 1
  const VIRTIO_GPU_F_EDID: u32 := 2
  const VIRTIO_GPU_FLAG_FENCE: u32 := 1
  const VIRTIO_GPU_MAX_SCANOUTS: nat := 16
  const STRIDE_SIZE: u32 := 4096

  /** sizeof(struct vgpu_config): events_read, events_clear, num_scanouts, num_capsets. */
  const CONFIG_SIZE: u64 := 16

  // Sizes of the structures the commands write.
  /** struct vgpu_ctrl_hdr */
  const HDR_SIZE: nat := 24
  /** struct vgpu_resp_disp_info: the header and sixteen 24-byte modes. */
  const DISPLAY_INFO_SIZE: nat := HDR_SIZE + 24 * VIRTIO_GPU_MAX_SCANOUTS
  /** struct vgpu_resp_edid: the header, size, padding and 1024 EDID bytes. */
  const EDID_RESPONSE_SIZE: nat := HDR_SIZE + 8 + 1024

  // Command types, section 5.7.6.7 of the VIRTIO 1.2 specification.
  const CMD_GET_DISPLAY_INFO: u32 := 0x0100
  const CMD_RESOURCE_CREATE_2D: u32 := 0x0101
  const CMD_RESOURCE_UNREF: u32 := 0x0102
  const CMD_SET_SCANOUT: u32 := 0x0103
  const CMD_RESOURCE_FLUSH: u32 := 0x0104
  const CMD_TRANSFER_TO_HOST_2D: u32 := 0x0105
  const CMD_RESOURCE_ATTACH_BACKING: u32 := 0x0106
  const CMD_GET_EDID: u32 := 0x010a
  /** The last 2-D command, VIRTIO_GPU_CMD_SET_SCANOUT_BLOB. */
  const CMD_LAST_2D: u32 := 0x010d
  /** VIRTIO_GPU_CMD_CTX_CREATE through VIRTIO_GPU_CMD_RESOURCE_UNMAP_BLOB. */
  const CMD_FIRST_3D: u32 := 0x0200
  const CMD_LAST_3D: u32 := 0x0209
  const CMD_UPDATE_CURSOR: u32 := 0x0300
  const CMD_MOVE_CURSOR: u32 := 0x0301

  // Response types.
  const RESP_OK_NODATA: u32 := 0x1100
  const RESP_OK_DISPLAY_INFO: u32 := 0x1101
  const RESP_OK_CAPSET_INFO: u32 := 0x1102
  const RESP_OK_CAPSET: u32 := 0x1103
  const RESP_OK_EDID: u32 := 0x1104
  const RESP_ERR_INVALID_RESOURCE_ID: u32 := 0x1203
  const RESP_ERR_INVALID_PARAMETER: u32 := 0x1205

  // Pixel formats, section 5.7.6.8 of the VIRTIO 1.2 specification.
  const FORMAT_B8G8R8A8_UNORM: u32 := 1
  const FORMAT_B8G8R8X8_UNORM: u32 := 2
  const FORMAT_A8R8G8B8_UNORM: u32 := 3
  const FORMAT_X8R8G8B8_UNORM: u32 := 4
  const FORMAT_R8G8B8A8_UNORM: u32 := 67
  const FORMAT_X8B8G8R8_UNORM: u32 := 68
  const FORMAT_A8B8G8R8_UNORM: u32 := 121
  const FORMAT_R8G8B8X8_UNORM: u32 := 134

  /** struct vgpu_scanout_info */
  datatype Scanout = Scanout(width: u32, height: u32, enabled: u32)

  const ZeroScanout := Scanout(0, 0, 0)

  /**
   * Everything the GPU device reads or writes: its register file, guest
   * RAM, the resource list, the scanouts of its private data and
   * `vgpu_configs.num_scanouts`; and the build constants CURSOR_WIDTH and
   * CURSOR_HEIGHT, whose values are not part of this model and which no
   * command changes.
   */
  datatype GpuState = GpuState(
    t: Transport,
    ram: seq<u32>,
    resources: seq<Resource2D>,
    scanouts: seq<Scanout>,
    numScanouts: u32,
    cursorWidth: u32,
    cursorHeight: u32)
  {
    predicate Valid()
    {
      t.Valid() && |scanouts| == VIRTIO_GPU_MAX_SCANOUTS && numScanouts as nat <= VIRTIO_GPU_MAX_SCANOUTS
    }
  }

  // ---------------------------------------------------------------------
  // Status

  /**
   * `memset(vgpu->priv, 0, sizeof(*vgpu->priv))` with `priv` a `void *`:
   * GNU C takes sizeof(void) as 1, so only the first byte of the private
   * data is cleared, the low byte of the first scanout's width.
   */
  function ClearPrivByte(scanouts: seq<Scanout>): (r: seq<Scanout>)
    requires |scanouts| > 0
    ensures |r| == |scanouts|
  {
    scanouts[0 := scanouts[0].(width := scanouts[0].width / 256 * 256)]
  }

  /**
   * virtio_gpu_update_status: a nonzero value is OR'd into Status; 0 resets
   * the register file, clears one byte of the private data, keeps RAM and
   * the scanout count, and releases every resource.
   */
  function UpdateStatus(s: GpuState, value: u32): (r: GpuState)
    requires s.Valid()
    ensures r.Valid()
  {
    if value != 0 then s.(t := AddStatus(s.t, value))
    else s.(t := ZeroTransport, scanouts := ClearPrivByte(s.scanouts), resources := [])
  }

  /**
   * A reset zeroes the register file and empties the resource list; RAM,
   * the scanout count and the scanouts survive but for the low byte of
   * the first width.  A second reset changes nothing more.
   */
  lemma ResetClears(s: GpuState)
    requires s.Valid()
    ensures var r := UpdateStatus(s, 0);
            && r.t == ZeroTransport && r.resources == []
            && r.ram == s.ram && r.numScanouts == s.numScanouts
            && r.scanouts[1..] == s.scanouts[1..]
            && r.scanouts[0] == s.scanouts[0].(width := s.scanouts[0].width - s.scanouts[0].width % 256)
            && UpdateStatus(r, 0) == r
  {
  }


  // ---------------------------------------------------------------------
  // Scanouts

  /**
   * virtio_gpu_add_scanout: the next free scanout gets the size and is
   * enabled, and the count grows by one.  With all sixteen in use the
   * emulator exits, which is `None`.
   */
  function AddScanout(s: GpuState, width: u32, height: u32): (r: Option<GpuState>)
    requires s.Valid()
    ensures r.Some? ==> r.value.Valid()
  {
    if s.numScanouts as nat >= VIRTIO_GPU_MAX_SCANOUTS then None
    else Some(s.(scanouts := s.scanouts[s.numScanouts := Scanout(width, height, 1)],
                 numScanouts := s.numScanouts + 1))
  }

  // ---------------------------------------------------------------------
  // Register reads

  /**
   * virtio_gpu_reg_read on word offset addr; `None` is an offset the bank
   * does not have.  The configuration space is `struct vgpu_config`,
   * addressed by byte offset within it.
   */
  function RegRead(s: GpuState, addr: u32): Option<u32>
    requires s.Valid()
  {
    if addr == MagicValue then Some(MAGIC)
    else if addr == Version then Some(2)
    else if addr == DeviceID then Some(VIRTIO_GPU_DEVICE_ID)
    else if addr == VendorID then Some(VIRTIO_VENDOR_ID)
    else if addr == DeviceFeatures then
      Some(if s.t.deviceFeaturesSel != 0 then VIRTIO_F_VERSION_1 else VIRTIO_GPU_F_EDID)
    else if addr == QueueNumMax then Some(VGPU_QUEUE_NUM_MAX)
    else if addr == QueueReady then Some(if s.t.Sel().ready then 1 else 0)
    else if addr == InterruptStatus then Some(s.t.interruptStatus)
    else if addr == Status then Some(s.t.status)
    else if addr == SHMLenLow || addr == SHMLenHigh then Some(0xFFFF_FFFF)
    else if addr == SHMBaseLow || addr == SHMBaseHigh then Some(0)
    else if addr == ConfigGeneration then Some(0)
    else if !RangeCheck(addr, Config, CONFIG_SIZE) then None
    else ConfigRead(s, Wrap32((addr - Config) * 4))
  }

  /** The configuration fields a driver may read, by byte offset. */
  function ConfigRead(s: GpuState, offset: u32): Option<u32>
  {
    if offset == 0 then Some(0)
    else if offset == 8 then Some(s.numScanouts)
    else if offset == 12 then Some(0)
    else None
  }

  /**
   * The identification registers and the feature words: EDID in the
   * first, VERSION_1 in every other.
   */
  lemma RegReadValues(s: GpuState)
    requires s.Valid()
    ensures RegRead(s, MagicValue) == Some(0x74726976)
    ensures RegRead(s, Version) == Some(2) && RegRead(s, DeviceID) == Some(16)
    ensures RegRead(s, QueueNumMax) == Some(1024)
    ensures RegRead(s, DeviceFeatures) == Some(if s.t.deviceFeaturesSel == 0 then 2 else 1)
  {
  }

  /** The configuration reads: no events, the scanout count, no capability sets. */
  lemma ConfigValues(s: GpuState)
    requires s.Valid()
    ensures RegRead(s, Config) == Some(0)
    ensures RegRead(s, Config + 2) == Some(s.numScanouts)
    ensures RegRead(s, Config + 3) == Some(0)
  {
    ConfigWindow(s, Config);
    ConfigWindow(s, Config + 2);
    ConfigWindow(s, Config + 3);
  }

  /**
   * The bank answers exactly seventeen word offsets of the window; the
   * write-only events_clear and everything else read as refused.
   */
  lemma RegReadOffsets(s: GpuState, addr: u32)
    requires s.Valid() && addr < 0x4000_0000
    ensures RegRead(s, addr).Some? <==>
            addr in {0, 1, 2, 3, 4, 13, 17, 24, 28, 44, 45, 46, 47, 63, 64, 66, 67}
  {
    if addr >= Config {
      ConfigOffsets(s, addr);
    } else {
      ConfigRange(addr);
    }
  }

  /** Within and past the configuration window. */
  lemma ConfigOffsets(s: GpuState, addr: u32)
    requires s.Valid() && Config <= addr < 0x4000_0000
    ensures RegRead(s, addr).Some? <==> addr in {64, 66, 67}
  {
    ConfigWindow(s, addr);
    if addr < Config + 16 {
      var k := addr - Config;
      assert ConfigRead(s, k * 4).Some? <==> k in {0, 2, 3};
    }
  }

  /** Past the registers, the bank reads the sixteen words of the configuration. */
  lemma ConfigWindow(s: GpuState, addr: u32)
    requires s.Valid() && Config <= addr < 0x4000_0000
    ensures RegRead(s, addr) == if addr < Config + 16 then ConfigRead(s, (addr - Config) * 4) else None
  {
    ConfigRange(addr);
    if addr < Config + 16 {
      ConfigOffset(addr);
    }
  }

  /** RANGE_CHECK on the configuration window: the sixteen words from Config. */
  lemma ConfigRange(addr: u32)
    requires addr < 0x4000_0000
    ensures RangeCheck(addr, Config, CONFIG_SIZE) <==> Config <= addr < Config + 16
  {
    RangeCheckIsInterval(addr, Config, CONFIG_SIZE);
  }

  /** The byte offset of a configuration word does not wrap. */
  lemma ConfigOffset(addr: u32)
    requires Config <= addr < Config + 16
    ensures Wrap32((addr - Config) * 4) == (addr - Config) * 4
  {
  }

  // ---------------------------------------------------------------------
  // Responses

  /** A response header as virtio_gpu_write_response leaves it: all zero but the type. */
  function ResponseHeader(kind: u32): (h: seq<u8>)
    ensures |h| == HDR_SIZE
  {
    WordBytes(kind) + Zeros(HDR_SIZE - 4)
  }

  /** virtio_gpu_write_response: the header written at addr. */
  function Respond(ram: seq<u32>, addr: u32, kind: u32): (r: seq<u32>)
    ensures |r| == |ram|
  {
    WithBytes(ram, addr, ResponseHeader(kind))
  }

  /** `flags & VIRTIO_GPU_FLAG_FENCE` */
  function FenceFlag(flags: u32): (f: u32)
    ensures f == flags % 2
  {
    Pow2Constants();
    AndLowMask(flags, 1);
    And(flags, VIRTIO_GPU_FLAG_FENCE)
  }

  /**
   * virtio_gpu_set_response_fencing for the request header at req and the
   * response header at resp: the request's flags word is cut down to its
   * FENCE bit in place; when that bit is set, the response gets the FENCE
   * flag and the request's fence id.
   */
  function Fence(ram: seq<u32>, req: u32, resp: u32): (r: seq<u32>)
    ensures |r| == |ram|
  {
    var flags := FenceFlag(LoadU32(ram, req as int + 4));
    var ram1 := StoreU32(ram, req as int + 4, flags);
    if flags == 0 then ram1
    else
      var ram2 := StoreU32(ram1, resp as int + 4, VIRTIO_GPU_FLAG_FENCE);
      StoreU64(ram2, resp as int + 8, LoadU64(ram2, req as int + 8))
  }

  /** The 24 bytes of a header from a lie in RAM. */
  predicate HeaderInRam(ram: seq<u32>, a: int)
  {
    0 <= a && a + HDR_SIZE <= 4 * |ram|
  }

  /** Two headers that do not overlap. */
  predicate Apart(a: int, b: int)
  {
    a + HDR_SIZE <= b || b + HDR_SIZE <= a
  }

  /** A word store leaves every word around it as it was. */
  lemma StoreU32Keeps(ram: seq<u32>, a: int, v: u32, p: int)
    requires p + 4 <= a || a + 4 <= p
    ensures LoadU32(StoreU32(ram, a, v), p) == LoadU32(ram, p)
  {
    LoadU32Frame(ram, a, WordBytes(v), p);
  }

  /** A word store leaves a double word beside it as it was. */
  lemma StoreU32KeepsU64(ram: seq<u32>, a: int, v: u32, p: int)
    requires p + 8 <= a || a + 4 <= p
    ensures LoadU64(StoreU32(ram, a, v), p) == LoadU64(ram, p)
  {
    LoadU32Frame(ram, a, WordBytes(v), p);
    LoadU32Frame(ram, a, WordBytes(v), p + 4);
  }

  /** A double-word store leaves every word around it as it was. */
  lemma StoreU64Keeps(ram: seq<u32>, a: int, v: u64, p: int)
    requires p + 4 <= a || a + 8 <= p
    ensures LoadU32(StoreU64(ram, a, v), p) == LoadU32(ram, p)
  {
    var lo, hi := v % 0x1_0000_0000, v / 0x1_0000_0000;
    StoreU32Keeps(ram, a, lo, p);
    StoreU32Keeps(StoreU32(ram, a, lo), a + 4, hi, p);
  }

  /** A word of a header in RAM is in RAM. */
  lemma HeaderWord(ram: seq<u32>, a: int, k: nat)
    requires HeaderInRam(ram, a) && k + 4 <= HDR_SIZE
    ensures InRam(ram, a + k) && InRam(ram, a + k + 3)
  {
  }

  /** A word stored into a header in RAM reads back. */
  lemma StoreReads(ram: seq<u32>, a: int, k: nat, v: u32)
    requires HeaderInRam(ram, a) && k + 4 <= HDR_SIZE
    ensures LoadU32(StoreU32(ram, a + k, v), a + k) == v
  {
    HeaderWord(ram, a, k);
    LoadStoreU32(ram, a + k, v);
  }

  /**
   * A response followed by fencing, with request and response headers in
   * RAM and apart: the response has its type, the request's flags word
   * keeps only bit 0, and the response carries FENCE and the request's
   * fence id exactly when that bit was set (flags and fence id 0
   * otherwise).
   */
  lemma FencedResponse(ram: seq<u32>, req: u32, resp: u32, kind: u32)
    requires HeaderInRam(ram, req) && HeaderInRam(ram, resp) && Apart(req, resp)
    ensures var flags := LoadU32(ram, req as int + 4);
            var r := Fence(Respond(ram, resp, kind), req, resp);
            && LoadU32(r, resp) == kind
            && LoadU32(r, req as int + 4) == flags % 2
            && LoadU32(r, resp as int + 4) == flags % 2
            && LoadU64(r, resp as int + 8) == if flags % 2 == 1 then LoadU64(ram, req as int + 8) else 0
  {
    var a, b := req as int, resp as int;
    var ram0 := Respond(ram, resp, kind);
    HeaderFields(ram, resp, kind);
    RespondKeepsRequest(ram, a, b, kind);
    var flags := FenceFlag(LoadU32(ram0, a + 4));
    var ram1 := StoreU32(ram0, a + 4, flags);
    OwnFlagsStore(ram0, a, flags);
    OtherFlagsStore(ram0, a, b, flags);
    if flags != 0 {
      FenceStores(ram1, a, b);
    }
  }

  /** The response header does not touch the request's flags and fence id. */
  lemma RespondKeepsRequest(ram: seq<u32>, a: int, b: int, kind: u32)
    requires Apart(a, b)
    ensures var r := WithBytes(ram, b, ResponseHeader(kind));
            && LoadU32(r, a + 4) == LoadU32(ram, a + 4)
            && LoadU64(r, a + 8) == LoadU64(ram, a + 8)
  {
    var h := ResponseHeader(kind);
    var r := WithBytes(ram, b, h);
    LoadU32Frame(ram, b, h, a + 4);
    LoadU32Frame(ram, b, h, a + 8);
    LoadU32Frame(ram, b, h, a + 12);
    assert LoadU64(r, a + 8) == LoadU64(ram, a + 8);
  }

  /**
   * Storing the flags word of a header: it reads back, and the header's
   * type and fence id stay.
   */
  lemma OwnFlagsStore(ram: seq<u32>, a: int, v: u32)
    requires HeaderInRam(ram, a)
    ensures var r := StoreU32(ram, a + 4, v);
            && LoadU32(r, a + 4) == v
            && LoadU32(r, a) == LoadU32(ram, a)
            && LoadU64(r, a + 8) == LoadU64(ram, a + 8)
  {
    StoreReads(ram, a, 4, v);
    StoreU32Keeps(ram, a + 4, v, a);
    StoreU32KeepsU64(ram, a + 4, v, a + 8);
  }

  /** Storing the flags word of a header leaves another header apart from it alone. */
  lemma OtherFlagsStore(ram: seq<u32>, a: int, b: int, v: u32)
    requires Apart(a, b)
    ensures var r := StoreU32(ram, a + 4, v);
            && LoadU32(r, b) == LoadU32(ram, b)
            && LoadU32(r, b + 4) == LoadU32(ram, b + 4)
            && LoadU64(r, b + 8) == LoadU64(ram, b + 8)
  {
    StoreU32Keeps(ram, a + 4, v, b);
    StoreU32Keeps(ram, a + 4, v, b + 4);
    StoreU32KeepsU64(ram, a + 4, v, b + 8);
  }

  /** The stores of a set fence flag, seen from both headers. */
  lemma FenceStores(ram1: seq<u32>, a: int, b: int)
    requires HeaderInRam(ram1, b) && Apart(a, b)
    ensures var ram2 := StoreU32(ram1, b + 4, VIRTIO_GPU_FLAG_FENCE);
            var r := StoreU64(ram2, b + 8, LoadU64(ram2, a + 8));
            && LoadU32(r, b) == LoadU32(ram1, b)
            && LoadU32(r, a + 4) == LoadU32(ram1, a + 4)
            && LoadU32(r, b + 4) == 1
            && LoadU64(r, b + 8) == LoadU64(ram1, a + 8)
  {
    var ram2 := StoreU32(ram1, b + 4, VIRTIO_GPU_FLAG_FENCE);
    OwnFlagsStore(ram1, b, VIRTIO_GPU_FLAG_FENCE);
    OtherFlagsStore(ram1, b, a, VIRTIO_GPU_FLAG_FENCE);
    FenceIdStore(ram2, a, b, LoadU64(ram2, a + 8));
  }

  /** Storing the fence id into the response. */
  lemma FenceIdStore(ram2: seq<u32>, a: int, b: int, v: u64)
    requires HeaderInRam(ram2, b) && Apart(a, b)
    ensures var r := StoreU64(ram2, b + 8, v);
            && LoadU32(r, b) == LoadU32(ram2, b)
            && LoadU32(r, a + 4) == LoadU32(ram2, a + 4)
            && LoadU32(r, b + 4) == LoadU32(ram2, b + 4)
            && LoadU64(r, b + 8) == v
  {
    FenceIdReads(ram2, b, v);
    StoreU64Keeps(ram2, b + 8, v, b);
    StoreU64Keeps(ram2, b + 8, v, b + 4);
    StoreU64Keeps(ram2, b + 8, v, a + 4);
  }

  /** The fence id reads back from the response. */
  lemma FenceIdReads(ram2: seq<u32>, b: int, v: u64)
    requires HeaderInRam(ram2, b)
    ensures LoadU64(StoreU64(ram2, b + 8, v), b + 8) == v
  {
    HeaderWord(ram2, b, 8);
    HeaderWord(ram2, b, 12);
    LoadStoreU64(ram2, b + 8, v);
  }

  /** The header fields of a fresh response: the type, then zero flags and fence id. */
  lemma HeaderFields(ram: seq<u32>, resp: u32, kind: u32)
    requires HeaderInRam(ram, resp)
    ensures var r := Respond(ram, resp, kind);
            && LoadU32(r, resp) == kind
            && LoadU32(r, resp as int + 4) == 0
            && LoadU64(r, resp as int + 8) == 0
  {
    HeaderBytes(kind);
    HeaderField(ram, resp, kind, 0);
    HeaderField(ram, resp, kind, 4);
    HeaderField(ram, resp, kind, 8);
    HeaderField(ram, resp, kind, 12);
  }

  /** One word of a fresh response header reads as the header's bytes. */
  lemma HeaderField(ram: seq<u32>, resp: u32, kind: u32, off: nat)
    requires HeaderInRam(ram, resp) && off + 4 <= HDR_SIZE
    ensures var h := ResponseHeader(kind);
            LoadU32(Respond(ram, resp, kind), resp as int + off) == WordOf(h[off..off + 4])
  {
    HeaderWord(ram, resp, off);
    LoadU32WithBytes(ram, resp, ResponseHeader(kind), off);
  }

  /** The words of a response header: its type, then zeroes. */
  lemma HeaderBytes(kind: u32)
    ensures var h := ResponseHeader(kind);
            && WordOf(h[0..4]) == kind
            && WordOf(h[4..8]) == 0 && WordOf(h[8..12]) == 0 && WordOf(h[12..16]) == 0
  {
    var h := ResponseHeader(kind);
    assert h[0..4] == WordBytes(kind);
    WordOfWordBytes(kind);
    ZeroWord(h[4..8]);
    ZeroWord(h[8..12]);
    ZeroWord(h[12..16]);
  }

  /** Four zero bytes read as the word 0. */
  lemma ZeroWord(bs: seq<u8>)
    requires |bs| == 4 && forall i :: 0 <= i < 4 ==> bs[i] == 0
    ensures WordOf(bs) == 0
  {
  }
}
