/**
 * The control commands of the GPU device (virtio-gpu.c:195-692) and the
 * dispatch of virtio_gpu_desc_handler (virtio-gpu.c:779-905) over the
 * software command table of virtio-gpu.c:694-751.
 *
 * A command sees the device as a `GpuState` and the descriptors its chain
 * filled in; the request is read at the first descriptor's address and the
 * response written at the second's (the third's for ATTACH_BACKING), each
 * an offset into guest RAM.
 */
module GpuCommands {
  import opened Common
  import opened GuestRam
  import opened Virtio
  import opened Edid
  import opened GpuResources
  import opened VirtioGpu

  /**
   * What a command leaves: the new state and the length to report in the
   * used ring; a command the device does not know, which fails the device
   * and ends the batch; or a dereference of a missing resource, which ends
   * the emulator.
   */
  datatype Outcome = Reply(state: GpuState, len: u32) | Reject(state: GpuState) | Crash

  /** A 32-bit field of the request at base. */
  function Field(ram: seq<u32>, base: u32, off: nat): u32
  {
    LoadU32(ram, base as int + off)
  }

  /** The request header: the first descriptor's buffer. */
  function Req(ds: seq<Desc>): u32
  {
    Slot(ds, 0).addr
  }

  /** The response buffer: the second descriptor's. */
  function Resp(ds: seq<Desc>): u32
  {
    Slot(ds, 1).addr
  }

  /** A plain OK_NODATA answer at the second descriptor. */
  function Ack(s: GpuState, ds: seq<Desc>): (r: Outcome)
    requires s.Valid()
    ensures r.Reply? && r.state.Valid() && r.len == HDR_SIZE
    ensures r.state == s.(ram := r.state.ram) && |r.state.ram| == |s.ram|
  {
    Reply(s.(ram := Respond(s.ram, Resp(ds), RESP_OK_NODATA)), HDR_SIZE as u32)
  }

  /**
   * The plain answer changes nothing but RAM, and the guest reads back an
   * OK_NODATA header with zero flags and fence id at the response buffer.
   */
  lemma AckEffect(s: GpuState, ds: seq<Desc>)
    requires s.Valid() && HeaderInRam(s.ram, Resp(ds))
    ensures var r := Ack(s, ds);
            && r.state == s.(ram := r.state.ram)
            && LoadU32(r.state.ram, Resp(ds)) == RESP_OK_NODATA
            && LoadU32(r.state.ram, Resp(ds) as int + 4) == 0
            && LoadU64(r.state.ram, Resp(ds) as int + 8) == 0
  {
    HeaderFields(s.ram, Resp(ds), RESP_OK_NODATA);
  }

  /** An OK_NODATA answer at resp, fenced after the request header. */
  function FencedAck(ram: seq<u32>, req: u32, resp: u32): (r: seq<u32>)
    ensures |r| == |ram|
  {
    Fence(Respond(ram, resp, RESP_OK_NODATA), req, resp)
  }

  // ---------------------------------------------------------------------
  // GET_DISPLAY_INFO

  /** One `virtio_gpu_display_one`: a rectangle at (0, 0), enabled, no flags. */
  function Mode(sc: Scanout): (m: seq<u8>)
    ensures |m| == 24
  {
    Zeros(8) + WordBytes(sc.width) + WordBytes(sc.height) + WordBytes(sc.enabled) + Zeros(4)
  }

  /** The modes of a run of scanouts, in order. */
  function Modes(sc: seq<Scanout>): (ms: seq<u8>)
    ensures |ms| == 24 * |sc|
  {
    if |sc| == 0 then [] else Modes(sc[..|sc| - 1]) + Mode(sc[|sc| - 1])
  }

  /**
   * The display information response: a zeroed structure with its type,
   * and the first n scanouts' modes.
   */
  function DisplayInfo(sc: seq<Scanout>, n: nat): (d: seq<u8>)
    requires n <= |sc| == VIRTIO_GPU_MAX_SCANOUTS
    ensures |d| == DISPLAY_INFO_SIZE
  {
    ResponseHeader(RESP_OK_DISPLAY_INFO) + Modes(sc[..n]) + Zeros(24 * (VIRTIO_GPU_MAX_SCANOUTS - n))
  }

  /** virtio_gpu_get_display_info_handler */
  function GetDisplayInfo(s: GpuState, ds: seq<Desc>): (r: Outcome)
    requires s.Valid()
  {
    var d := DisplayInfo(s.scanouts, s.numScanouts as nat);
    Reply(s.(ram := WithBytes(s.ram, Resp(ds), d)), DISPLAY_INFO_SIZE as u32)
  }

  lemma {:induction false} ModesAt(sc: seq<Scanout>, i: nat)
    requires i < |sc|
    ensures Modes(sc)[24 * i .. 24 * i + 24] == Mode(sc[i])
    decreases |sc|
  {
    var init := sc[..|sc| - 1];
    assert Modes(sc) == Modes(init) + Mode(sc[|sc| - 1]);
    if i < |sc| - 1 {
      ModesAt(init, i);
      assert init[i] == sc[i];
    }
  }

  /**
   * Mode i of the display information is scanout i's for the first n
   * scanouts and all zero for the others; the header carries
   * OK_DISPLAY_INFO and zero flags.
   */
  lemma DisplayInfoLayout(sc: seq<Scanout>, n: nat, i: nat)
    requires n <= |sc| == VIRTIO_GPU_MAX_SCANOUTS && i < VIRTIO_GPU_MAX_SCANOUTS
    ensures var d := DisplayInfo(sc, n);
            && d[..HDR_SIZE] == ResponseHeader(RESP_OK_DISPLAY_INFO)
            && d[HDR_SIZE + 24 * i .. HDR_SIZE + 24 * i + 24] == if i < n then Mode(sc[i]) else Zeros(24)
  {
    var d := DisplayInfo(sc, n);
    var h := ResponseHeader(RESP_OK_DISPLAY_INFO);
    var ms := Modes(sc[..n]);
    var z := Zeros(24 * (VIRTIO_GPU_MAX_SCANOUTS - n));
    assert d == h + ms + z;
    if i < n {
      ModesAt(sc[..n], i);
      assert d[HDR_SIZE + 24 * i .. HDR_SIZE + 24 * i + 24] == ms[24 * i .. 24 * i + 24];
    } else {
      assert d[HDR_SIZE + 24 * i .. HDR_SIZE + 24 * i + 24] == z[24 * (i - n) .. 24 * (i - n) + 24];
    }
  }

  /**
   * Adding a scanout fails only once all sixteen exist.  Otherwise the
   * display information reports the new scanout, enabled and with its
   * size, in the next slot, and every other slot as before.
   */
  lemma AddedScanoutReported(s: GpuState, width: u32, height: u32, i: nat)
    requires s.Valid() && i < VIRTIO_GPU_MAX_SCANOUTS
    ensures AddScanout(s, width, height).None? <==> s.numScanouts as nat == VIRTIO_GPU_MAX_SCANOUTS
    ensures match AddScanout(s, width, height)
            case None => true
            case Some(r) =>
              var d := DisplayInfo(r.scanouts, r.numScanouts as nat);
              var d0 := DisplayInfo(s.scanouts, s.numScanouts as nat);
              && r.numScanouts == s.numScanouts + 1
              && r.ram == s.ram && r.t == s.t && r.resources == s.resources
              && d[HDR_SIZE + 24 * i .. HDR_SIZE + 24 * i + 24] ==
                 if i == s.numScanouts as nat then Mode(Scanout(width, height, 1))
                 else d0[HDR_SIZE + 24 * i .. HDR_SIZE + 24 * i + 24]
  {
    match AddScanout(s, width, height)
    case None =>
    case Some(r) =>
      DisplayInfoLayout(r.scanouts, r.numScanouts as nat, i);
      DisplayInfoLayout(s.scanouts, s.numScanouts as nat, i);
  }

  // ---------------------------------------------------------------------
  // RESOURCE_CREATE_2D

  /** The eight 32-bit formats the 2-D backend accepts. */
  predicate SupportedFormat(format: u32)
  {
    format in {FORMAT_B8G8R8A8_UNORM, FORMAT_B8G8R8X8_UNORM, FORMAT_A8R8G8B8_UNORM, FORMAT_X8R8G8B8_UNORM,
               FORMAT_R8G8B8A8_UNORM, FORMAT_X8B8G8R8_UNORM, FORMAT_A8B8G8R8_UNORM, FORMAT_R8G8B8X8_UNORM}
  }

  /** The record of a created resource once its format is accepted. */
  function Configured(id: u32, format: u32, width: u32, height: u32): Resource2D
  {
    Fresh(id).(format := format, width := width, height := height, bitsPerPixel := 32, stride := STRIDE_SIZE)
  }

  /**
   * virtio_gpu_resource_create_2d_handler: struct vgpu_res_create_2d holds
   * resource_id, format, width and height after the header.  The record is
   * linked in before the format is checked, so a rejected format leaves a
   * zeroed record behind and fails the device.
   */
  function ResourceCreate2D(s: GpuState, ds: seq<Desc>): (r: Outcome)
    requires s.Valid()
  {
    var req := Req(ds);
    var id := Field(s.ram, req, 24);
    var format := Field(s.ram, req, 28);
    if !SupportedFormat(format) then
      Reply(s.(resources := s.resources + [Fresh(id)], t := SetFail(s.t)), 0)
    else
      var res := Configured(id, format, Field(s.ram, req, 32), Field(s.ram, req, 36));
      Reply(s.(resources := s.resources + [res], ram := FencedAck(s.ram, req, Resp(ds))), HDR_SIZE as u32)
  }

  /**
   * Creation always appends exactly one record with the requested id; with
   * a supported format it carries the requested format and size, 32 bits
   * per pixel and the 4096-byte stride, and the command answers with 24
   * bytes; otherwise the device fails and reports nothing.  A later lookup
   * of the id finds the new record only when no older record has that id.
   */
  lemma CreateEffect(s: GpuState, ds: seq<Desc>)
    requires s.Valid()
    ensures var r := ResourceCreate2D(s, ds);
            var id := Field(s.ram, Req(ds), 24);
            var format := Field(s.ram, Req(ds), 28);
            && r.Reply? && r.state.Valid()
            && |r.state.resources| == |s.resources| + 1
            && r.state.resources[..|s.resources|] == s.resources
            && r.state.resources[|s.resources|].id == id
            && (SupportedFormat(format) <==> r.len == 24)
            && (SupportedFormat(format) ==>
                  && r.state.t == s.t
                  && r.state.resources[|s.resources|] ==
                       Configured(id, format, Field(s.ram, Req(ds), 32), Field(s.ram, Req(ds), 36)))
            && (!SupportedFormat(format) ==> r.state.t == SetFail(s.t) && r.len == 0 && r.state.ram == s.ram)
            && (Find(s.resources, id).None? ==> Find(r.state.resources, id) == Some(|s.resources|))
  {
    var r := ResourceCreate2D(s, ds);
    var id := Field(s.ram, Req(ds), 24);
    if Find(s.resources, id).None? {
      FindUnique(r.state.resources, id, Some(|s.resources|));
    }
  }

  // ---------------------------------------------------------------------
  // RESOURCE_UNREF

  /**
   * virtio_gpu_cmd_resource_unref_handler: destroy the first record with
   * the id; a missing id fails the device.
   */
  function ResourceUnref(s: GpuState, ds: seq<Desc>): (r: Outcome)
    requires s.Valid()
  {
    var d := Destroyed(s.resources, Field(s.ram, Req(ds), 24));
    if d.0 != 0 then Reply(s.(t := SetFail(s.t)), 0)
    else Reply(s.(resources := d.1, ram := Respond(s.ram, Resp(ds), RESP_OK_NODATA)), HDR_SIZE as u32)
  }

  /**
   * Unref answers exactly when some record has the id, and then removes one
   * such record and no other; otherwise it fails the device and keeps the
   * list.
   */
  lemma UnrefEffect(s: GpuState, ds: seq<Desc>)
    requires s.Valid()
    ensures var r := ResourceUnref(s, ds);
            var id := Field(s.ram, Req(ds), 24);
            && r.Reply? && r.state.Valid()
            && (r.len == 24 <==> Count(s.resources, id) > 0)
            && (r.len == 24 ==>
                  && r.state.t == s.t
                  && Count(r.state.resources, id) == Count(s.resources, id) - 1
                  && forall other: u32 :: other != id ==> Count(r.state.resources, other) == Count(s.resources, other))
            && (r.len != 24 ==> r.state == s.(t := SetFail(s.t)) && r.len == 0)
  {
    DestroyRemovesOne(s.resources, Field(s.ram, Req(ds), 24));
  }

  // ---------------------------------------------------------------------
  // GET_EDID

  /**
   * struct vgpu_resp_edid as the handler fills it: the header with
   * OK_EDID, size 128, and the generated block at the start of the
   * 1024-byte area, zero elsewhere.
   */
  function EdidResponse(): (e: seq<u8>)
    ensures |e| == EDID_RESPONSE_SIZE
  {
    ResponseHeader(RESP_OK_EDID) + WordBytes(EDID_SIZE) + WordBytes(0) + Block(0, 0) + Zeros(1024 - EDID_SIZE)
  }

  /** virtio_gpu_get_edid_handler */
  function GetEdid(s: GpuState, ds: seq<Desc>): (r: Outcome)
    requires s.Valid()
  {
    Reply(s.(ram := WithBytes(s.ram, Resp(ds), EdidResponse())), EDID_RESPONSE_SIZE as u32)
  }

  /**
   * The EDID response announces 128 bytes and carries a well-formed block
   * for a display of unknown size.
   */
  lemma EdidResponseLayout()
    ensures var e := EdidResponse();
            && e[..HDR_SIZE] == ResponseHeader(RESP_OK_EDID)
            && WordOf(e[HDR_SIZE .. HDR_SIZE + 4]) == 128
            && e[HDR_SIZE + 8 .. HDR_SIZE + 8 + EDID_SIZE] == Block(0, 0)
            && SumBytes(e[HDR_SIZE + 8 .. HDR_SIZE + 8 + EDID_SIZE]) % 256 == 0
            && forall k :: HDR_SIZE + 8 + EDID_SIZE <= k < EDID_RESPONSE_SIZE ==> e[k] == 0
  {
    var e := EdidResponse();
    assert e[HDR_SIZE .. HDR_SIZE + 4] == WordBytes(EDID_SIZE);
    WordOfWordBytes(EDID_SIZE);
    assert e[HDR_SIZE + 8 .. HDR_SIZE + 8 + EDID_SIZE] == Block(0, 0);
    BlockIsWellFormed(0, 0);
  }

  // ---------------------------------------------------------------------
  // SET_SCANOUT, RESOURCE_FLUSH

  /**
   * virtio_gpu_cmd_set_scanout_handler: struct vgpu_set_scanout holds the
   * scanout id at 40 and the resource id at 44.  Resource 0 only answers;
   * any other id must name a resource, which is attached to the scanout.
   * The lookup result is dereferenced unchecked, so a missing id crashes.
   */
  function SetScanout(s: GpuState, ds: seq<Desc>): (r: Outcome)
    requires s.Valid()
  {
    var req := Req(ds);
    var scanoutId := Field(s.ram, req, 40);
    var id := Field(s.ram, req, 44);
    if id == 0 then Ack(s, ds)
    else match Find(s.resources, id)
      case None => Crash
      case Some(i) =>
        var res := s.resources[i].(scanoutId := scanoutId, scanoutAttached := true);
        Ack(s.(resources := s.resources[i := res]), ds)
  }

  /**
   * Set-scanout crashes exactly on a nonzero id no record has; otherwise it
   * answers, attaching the first record with the id and changing no other.
   */
  lemma SetScanoutEffect(s: GpuState, ds: seq<Desc>)
    requires s.Valid()
    ensures var r := SetScanout(s, ds);
            var id := Field(s.ram, Req(ds), 44);
            && (r.Crash? <==> id != 0 && Count(s.resources, id) == 0)
            && (r.Reply? ==> r.len == 24 && r.state.t == s.t && |r.state.resources| == |s.resources|)
            && (r.Reply? && id != 0 ==>
                  var i := Find(s.resources, id).value;
                  && r.state.resources[i].scanoutAttached
                  && r.state.resources[i].scanoutId == Field(s.ram, Req(ds), 40)
                  && r.state.resources[i].pages == s.resources[i].pages
                  && forall j :: 0 <= j < |s.resources| && j != i ==> r.state.resources[j] == s.resources[j])
  {
    CountZero(s.resources, Field(s.ram, Req(ds), 44));
  }

  /**
   * virtio_gpu_cmd_resource_flush_handler: the resource id is at 40; the
   * window rendering is left to the host, the lookup is dereferenced
   * unchecked.
   */
  function ResourceFlush(s: GpuState, ds: seq<Desc>): (r: Outcome)
    requires s.Valid()
  {
    if Find(s.resources, Field(s.ram, Req(ds), 40)).None? then Crash else Ack(s, ds)
  }

  /**
   * A flush crashes exactly when no resource has the requested id, and
   * otherwise is the plain OK_NODATA answer, unfenced, changing nothing
   * but the response buffer.
   */
  lemma FlushEffect(s: GpuState, ds: seq<Desc>)
    requires s.Valid()
    ensures var r := ResourceFlush(s, ds);
            var id := Field(s.ram, Req(ds), 40);
            && (r.Crash? <==> forall j :: 0 <= j < |s.resources| ==> s.resources[j].id != id)
            && (!r.Crash? ==> r == Ack(s, ds) && r.len == 24 && r.state == s.(ram := Respond(s.ram, Resp(ds), RESP_OK_NODATA)))
  {
  }

  // ---------------------------------------------------------------------
  // TRANSFER_TO_HOST_2D

  /** A rectangle of struct vgpu_rect. */
  datatype Rect = Rect(x: u32, y: u32, width: u32, height: u32)

  function RectAt(ram: seq<u32>, req: u32): Rect
  {
    Rect(Field(ram, req, 24), Field(ram, req, 28), Field(ram, req, 32), Field(ram, req, 36))
  }

  /**
   * The boundary check of the transfer, with the sums x + width and
   * y + height taken in 32 bits.
   */
  predicate OutOfBounds(r: Rect, res: Resource2D)
  {
    || r.x > res.width || r.y > res.height
    || r.width > res.width || r.height > res.height
    || Wrap32(r.x + r.width) > res.width
    || Wrap32(r.y + r.height) > res.height
  }

  /**
   * Whether the transfer takes the cursor path: the rectangle's width and
   * height, each clipped to the resource's, equal CURSOR_WIDTH and
   * CURSOR_HEIGHT.
   */
  predicate CursorSized(s: GpuState, r: Rect, res: Resource2D)
  {
    && (if r.width < res.width then r.width else res.width) == s.cursorWidth
    && (if r.height < res.height then r.height else res.height) == s.cursorHeight
  }

  /**
   * virtio_gpu_cmd_transfer_to_host_2d_handler: struct
   * vgpu_trans_to_host_2d holds the rectangle after the header and the
   * resource id at 48.  A missing resource or a rectangle outside it fails
   * the device.  A cursor-sized transfer copies from the first page, which
   * a resource never given pages does not have: the process crashes.
   * Otherwise the command answers, fenced.
   */
  function TransferToHost2D(s: GpuState, ds: seq<Desc>): (r: Outcome)
    requires s.Valid()
  {
    var req := Req(ds);
    match Find(s.resources, Field(s.ram, req, 48))
    case None => Reply(s.(t := SetFail(s.t)), 0)
    case Some(i) =>
      var rc := RectAt(s.ram, req);
      if OutOfBounds(rc, s.resources[i]) then Reply(s.(t := SetFail(s.t)), 0)
      else if CursorSized(s, rc, s.resources[i]) && |s.resources[i].pages| == 0 then Crash
      else Reply(s.(ram := FencedAck(s.ram, req, Resp(ds))), HDR_SIZE as u32)
  }

  /**
   * When neither sum wraps, a rectangle within an existing resource is
   * answered, unless it is cursor-sized on a resource without pages, which
   * crashes; any other rectangle fails the device.
   */
  lemma TransferBounds(s: GpuState, ds: seq<Desc>)
    requires s.Valid()
    requires var rc := RectAt(s.ram, Req(ds));
             rc.x + rc.width < 0x1_0000_0000 && rc.y + rc.height < 0x1_0000_0000
    ensures var r := TransferToHost2D(s, ds);
            var rc := RectAt(s.ram, Req(ds));
            var found := Find(s.resources, Field(s.ram, Req(ds), 48));
            var inside := && found.Some?
                          && rc.x + rc.width <= s.resources[found.value].width
                          && rc.y + rc.height <= s.resources[found.value].height;
            var unbacked := found.Some? && rc.width == s.cursorWidth && rc.height == s.cursorHeight
                            && |s.resources[found.value].pages| == 0;
            && (r.Crash? <==> inside && unbacked)
            && (r.Reply? ==> r.state.resources == s.resources)
            && (r.Reply? && r.len == 24 <==> inside && !unbacked)
            && (!inside ==> r == Reply(s.(t := SetFail(s.t)), 0))
  {
    var rc := RectAt(s.ram, Req(ds));
    assert Wrap32(rc.x + rc.width) == rc.x + rc.width;
    assert Wrap32(rc.y + rc.height) == rc.y + rc.height;
  }

  /**
   * Over all rectangles: the transfer passes its checks exactly when the
   * resource exists, each coordinate and each extent is within it, and
   * each edge x + width, y + height either lies within it or runs past
   * 2^32, where the 32-bit sum wraps to a value the check lets through.
   * A refusal fails the device and reports 0; a passing transfer of the
   * cursor size on a resource without pages crashes; any other answers 24.
   */
  lemma TransferAccepts(s: GpuState, ds: seq<Desc>)
    requires s.Valid()
    ensures var r := TransferToHost2D(s, ds);
            var rc := RectAt(s.ram, Req(ds));
            var found := Find(s.resources, Field(s.ram, Req(ds), 48));
            var passes := && found.Some?
                          && rc.x <= s.resources[found.value].width && rc.width <= s.resources[found.value].width
                          && rc.y <= s.resources[found.value].height && rc.height <= s.resources[found.value].height
                          && (rc.x + rc.width <= s.resources[found.value].width || rc.x + rc.width >= 0x1_0000_0000)
                          && (rc.y + rc.height <= s.resources[found.value].height || rc.y + rc.height >= 0x1_0000_0000);
            var unbacked := found.Some? && rc.width == s.cursorWidth && rc.height == s.cursorHeight
                            && |s.resources[found.value].pages| == 0;
            && (r.Crash? <==> passes && unbacked)
            && (r.Reply? ==> r.state.resources == s.resources)
            && (r.Reply? && r.len == 24 <==> passes && !unbacked)
            && (!passes ==> r == Reply(s.(t := SetFail(s.t)), 0))
            && (passes && !unbacked ==> r == Reply(s.(ram := FencedAck(s.ram, Req(ds), Resp(ds))), 24))
  {
    var rc := RectAt(s.ram, Req(ds));
    var found := Find(s.resources, Field(s.ram, Req(ds), 48));
    if found.Some? {
      var res := s.resources[found.value];
      SumWithin(rc.x, rc.width, res.width);
      SumWithin(rc.y, rc.height, res.height);
    }
  }

  /**
   * For a and b each at most w, the 32-bit sum a + b is at most w exactly
   * when the true sum is, or when the true sum reaches 2^32.
   */
  lemma SumWithin(a: u32, b: u32, w: u32)
    ensures a <= w && b <= w ==> (Wrap32(a + b) <= w <==> a + b <= w || a + b >= 0x1_0000_0000)
  {
    if a + b >= 0x1_0000_0000 {
      assert Wrap32(a + b) == a + b - 0x1_0000_0000;
    } else {
      assert Wrap32(a + b) == a + b;
    }
  }

  /**
   * The check as written lets a rectangle through whose right edge lies
   * past the resource, once x + width wraps: for a resource 0xFFFFFFFF
   * wide, x = width = 0x80000000.
   */
  lemma TransferWrapAccepted()
    ensures var res := Configured(1, FORMAT_B8G8R8A8_UNORM, 0xFFFF_FFFF, 1);
            var rc := Rect(0x8000_0000, 0, 0x8000_0000, 1);
            && !OutOfBounds(rc, res)
            && rc.x + rc.width > res.width
  {
  }

  // ---------------------------------------------------------------------
  // RESOURCE_ATTACH_BACKING

  /**
   * The n `vgpu_mem_entry` records at p: a 64-bit address, cut to the 32
   * bits the address translation takes, and a 32-bit length, 16 bytes
   * apart.
   */
  function Pages(ram: seq<u32>, p: u32, n: nat): (ps: seq<Page>)
    ensures |ps| == n
  {
    seq(n, i requires 0 <= i < n => PageAt(ram, p, i))
  }

  function PageAt(ram: seq<u32>, p: u32, i: nat): Page
  {
    Page(Wrap32(LoadU64(ram, p as int + 16 * i)), LoadU32(ram, p as int + 16 * i + 8))
  }

  /**
   * virtio_gpu_cmd_resource_attach_backing_handler: struct
   * vgpu_res_attach_backing holds the resource id at 24 and the entry count
   * at 28; the entries are the second descriptor's buffer and the answer
   * goes to the third.  The lookup is dereferenced unchecked.  A translated
   * page address is never null, so the per-page failure branch cannot be
   * taken.
   */
  function AttachBacking(s: GpuState, ds: seq<Desc>): (r: Outcome)
    requires s.Valid()
  {
    var req := Req(ds);
    match Find(s.resources, Field(s.ram, req, 24))
    case None => Crash
    case Some(i) =>
      var pages := Pages(s.ram, Slot(ds, 1).addr, Field(s.ram, req, 28));
      var resp := Slot(ds, 2).addr;
      Reply(s.(resources := s.resources[i := s.resources[i].(pages := pages)],
               ram := FencedAck(s.ram, req, resp)), HDR_SIZE as u32)
  }

  /**
   * Attaching crashes exactly on an id no record has; otherwise the first
   * record with the id gets one page per entry, in order, and keeps every
   * other field, and no other record changes.
   */
  lemma AttachEffect(s: GpuState, ds: seq<Desc>)
    requires s.Valid()
    ensures var r := AttachBacking(s, ds);
            var id := Field(s.ram, Req(ds), 24);
            && (r.Crash? <==> Count(s.resources, id) == 0)
            && (r.Reply? ==>
                  var i := Find(s.resources, id).value;
                  var n := Field(s.ram, Req(ds), 28);
                  && r.len == 24 && r.state.t == s.t
                  && |r.state.resources| == |s.resources|
                  && r.state.resources[i] == s.resources[i].(pages := r.state.resources[i].pages)
                  && |r.state.resources[i].pages| == n
                  && (forall k :: 0 <= k < n ==>
                        r.state.resources[i].pages[k] == PageAt(s.ram, Slot(ds, 1).addr, k))
                  && forall j :: 0 <= j < |s.resources| && j != i ==> r.state.resources[j] == s.resources[j])
  {
    CountZero(s.resources, Field(s.ram, Req(ds), 24));
  }

  // ---------------------------------------------------------------------
  // Dispatch

  /**
   * The command types the dispatch switch names: the 2-D commands, the
   * 3-D commands and the two cursor commands.
   */
  predicate Known(kind: u32)
  {
    || CMD_GET_DISPLAY_INFO <= kind <= CMD_LAST_2D
    || CMD_FIRST_3D <= kind <= CMD_LAST_3D
    || kind == CMD_UPDATE_CURSOR || kind == CMD_MOVE_CURSOR
  }

  /** The commands with a handler in the software table. */
  predicate Handled(kind: u32)
  {
    || CMD_GET_DISPLAY_INFO <= kind <= CMD_RESOURCE_ATTACH_BACKING
    || kind == CMD_GET_EDID || kind == CMD_UPDATE_CURSOR || kind == CMD_MOVE_CURSOR
  }

  /**
   * virtio_gpu_desc_handler after the descriptors are collected: the
   * command type is read from the request header; a known command with no
   * handler does nothing and reports length 0; an unknown one fails the
   * device.
   */
  function Dispatch(s: GpuState, ds: seq<Desc>): (r: Outcome)
    requires s.Valid()
    ensures r.Reply? ==> Keeps(r.state, s)
    ensures r.Reject? ==> r.state == s.(t := SetFail(s.t))
  {
    var kind := Field(s.ram, Req(ds), 0);
    if kind == CMD_GET_DISPLAY_INFO then GetDisplayInfo(s, ds)
    else if kind == CMD_RESOURCE_CREATE_2D then ResourceCreate2D(s, ds)
    else if kind == CMD_RESOURCE_UNREF then ResourceUnref(s, ds)
    else if kind == CMD_SET_SCANOUT then SetScanout(s, ds)
    else if kind == CMD_RESOURCE_FLUSH then ResourceFlush(s, ds)
    else if kind == CMD_TRANSFER_TO_HOST_2D then TransferToHost2D(s, ds)
    else if kind == CMD_RESOURCE_ATTACH_BACKING then AttachBacking(s, ds)
    else if kind == CMD_GET_EDID then GetEdid(s, ds)
    else if kind == CMD_UPDATE_CURSOR || kind == CMD_MOVE_CURSOR then Ack(s, ds)
    else if Known(kind) then Reply(s, 0)
    else Reject(s.(t := SetFail(s.t)))
  }

  /**
   * What any command leaves alone: the queues, the selectors and features,
   * the scanouts and their count.  The registers change only by set_fail.
   */
  ghost predicate Keeps(r: GpuState, s: GpuState)
  {
    && r.Valid()
    && |r.ram| == |s.ram|
    && r.scanouts == s.scanouts && r.numScanouts == s.numScanouts
    && (r.t == s.t || r.t == SetFail(s.t))
  }

  /**
   * Unknown types are rejected with the device failed and nothing else
   * changed; known types without a handler change nothing and report 0;
   * every handled command answers or crashes, and keeps the registers but
   * for set_fail, and the scanouts.
   */
  lemma DispatchCases(s: GpuState, ds: seq<Desc>)
    requires s.Valid()
    ensures var kind := Field(s.ram, Req(ds), 0);
            var r := Dispatch(s, ds);
            && (!Known(kind) ==> r == Reject(s.(t := SetFail(s.t))))
            && (Known(kind) && !Handled(kind) ==> r == Reply(s, 0))
            && (Known(kind) ==> !r.Reject?)
            && (r.Reply? ==> r.len in {0, 24, 408, 1056})
            && (r.Crash? ==> kind in {CMD_SET_SCANOUT, CMD_RESOURCE_FLUSH, CMD_TRANSFER_TO_HOST_2D, CMD_RESOURCE_ATTACH_BACKING})
  {
  }
}
