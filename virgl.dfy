/**
 * The parts of the virgl backend (virgl.c) that the device decides on its
 * own: the queue of commands waiting for a fence and its resolution by
 * virgl_write_fence, the id-0 check of resource creation, and the answers
 * of the two capability-set commands.  Whatever the renderer library
 * reports is a parameter.
 */
module Virgl {
  import opened Common
  import opened GuestRam
  import opened Virtio
  import opened VirtioGpu
  import opened GpuCommands
  import opened IntrusiveList
  import opened VirtioGpuDevice

  /** VIRTIO_GPU_CAPSET_VIRGL2 (section 5.7.6.7 of the VIRTIO 1.2 specification). */
  const CAPSET_VIRGL2: u32 := 2

  /** sizeof(struct vgpu_resp_capset_info): header, id, version, size, padding. */
  const CAPSET_INFO_SIZE: nat := 40

  /** sizeof(struct virtio_gpu_resp_capset): header and a data pointer. */
  const CAPSET_SIZE: nat := 32

  // ---------------------------------------------------------------------
  // The fence queue

  /** struct virgl_cmd, seen through the fence id of the header it points to. */
  datatype VirglCmd = VirglCmd(fenceId: u64)

  /** The commands a completed `fence` resolves: those with an id up to it. */
  function Completed(fence: u32): VirglCmd -> bool
  {
    (c: VirglCmd) => c.fenceId <= fence as int
  }

  /** The queue once `fence` has completed. */
  function Outstanding(nodes: seq<ListHead<VirglCmd>>, fence: u32): seq<ListHead<VirglCmd>>
  {
    Kept(nodes, Completed(fence))
  }

  /**
   * virgl_write_fence: every queued command whose fence id does not exceed
   * the completed fence is unlinked, in one pass of list_for_each_safe.
   * Nothing is written to guest memory (the response is still a TODO).
   */
  method WriteFence(queue: ListHead<VirglCmd>, ghost nodes: seq<ListHead<VirglCmd>>, fence: u32)
    requires IsList(queue, nodes)
    modifies queue, nodes
    ensures IsList(queue, Outstanding(nodes, fence))
  {
    DeleteWhere(queue, nodes, Completed(fence));
  }

  /** A command waiting for its fence joins the tail of the queue. */
  method Enqueue(queue: ListHead<VirglCmd>, ghost nodes: seq<ListHead<VirglCmd>>, fenceId: u64)
    returns (node: ListHead<VirglCmd>)
    requires IsList(queue, nodes)
    modifies queue, queue.prev
    ensures fresh(node) && node.item == VirglCmd(fenceId)
    ensures IsList(queue, nodes + [node])
  {
    node := new ListHead(VirglCmd(fenceId));
    ListAdd(node, queue, nodes);
  }

  /**
   * After a fence, exactly the commands with a larger fence id are still
   * queued.
   */
  lemma OutstandingMembers(nodes: seq<ListHead<VirglCmd>>, fence: u32, n: ListHead<VirglCmd>)
    ensures n in Outstanding(nodes, fence) <==> n in nodes && n.item.fenceId > fence as int
  {
    KeptMembership(nodes, Completed(fence), n);
  }

  /**
   * The survivors keep their arrival order: the commands queued before a
   * given point still come before those queued after it.
   */
  lemma OutstandingOrder(a: seq<ListHead<VirglCmd>>, b: seq<ListHead<VirglCmd>>, fence: u32)
    ensures Outstanding(a + b, fence) == Outstanding(a, fence) + Outstanding(b, fence)
  {
    KeptAppend(a, b, Completed(fence));
  }

  /** The pass never adds commands. */
  lemma OutstandingShrinks(nodes: seq<ListHead<VirglCmd>>, fence: u32)
    ensures |Outstanding(nodes, fence)| <= |nodes|
  {
    KeptLength(nodes, Completed(fence));
  }

  /** Resolving the same fence twice is resolving it once. */
  lemma OutstandingTwice(nodes: seq<ListHead<VirglCmd>>, fence: u32)
    ensures Outstanding(Outstanding(nodes, fence), fence) == Outstanding(nodes, fence)
  {
    KeptIdempotent(nodes, Completed(fence));
  }

  /**
   * Two fences, in either order, leave what the larger of them leaves on
   * its own.
   */
  lemma {:induction false} OutstandingTwoFences(nodes: seq<ListHead<VirglCmd>>, f: u32, g: u32)
    ensures Outstanding(Outstanding(nodes, f), g) == Outstanding(nodes, if f < g then g else f)
  {
    if |nodes| > 0 {
      var init, last := nodes[..|nodes| - 1], nodes[|nodes| - 1];
      var m := if f < g then g else f;
      OutstandingTwoFences(init, f, g);
      var tail := if Completed(f)(last.item) then [] else [last];
      KeptAppend(Outstanding(init, f), tail, Completed(g));
      if tail != [] {
        assert Kept(tail, Completed(g)) == Kept([], Completed(g)) + (if Completed(g)(last.item) then [] else [last]) by {
          assert tail[..0] == [];
        }
      }
    }
  }

  // ---------------------------------------------------------------------
  // Locally decided answers

  /** The bytes of `bs` with the 32-bit field at `off` set to w. */
  function Put32(bs: seq<u8>, off: nat, w: u32): (r: seq<u8>)
    requires off + 4 <= |bs|
    ensures |r| == |bs|
    ensures r[off..off + 4] == WordBytes(w)
    ensures forall i :: 0 <= i < |bs| && !(off <= i < off + 4) ==> r[i] == bs[i]
  {
    bs[..off] + WordBytes(w) + bs[off + 4..]
  }

  /**
   * virgl_cmd_resource_create_2d_handler up to the renderer call: resource
   * id 0 is answered with ERR_INVALID_RESOURCE_ID, unfenced; `None` is a
   * request passed on to the renderer.
   */
  function Create2DCheck(s: GpuState, ds: seq<Desc>): Option<Outcome>
  {
    if Field(s.ram, Req(ds), 24) == 0 then
      Some(Reply(s.(ram := Respond(s.ram, Resp(ds), RESP_ERR_INVALID_RESOURCE_ID)), HDR_SIZE as u32))
    else None
  }

  /**
   * Only resource id 0 is refused; the refusal answers with a 24-byte
   * ERR_INVALID_RESOURCE_ID header and creates nothing.
   */
  lemma Create2DZeroId(s: GpuState, ds: seq<Desc>)
    requires HeaderInRam(s.ram, Resp(ds))
    ensures var r := Create2DCheck(s, ds);
            && (r.Some? <==> Field(s.ram, Req(ds), 24) == 0)
            && (r.Some? ==>
                  && r.value.Reply? && r.value.len == 24
                  && LoadU32(r.value.state.ram, Resp(ds)) == RESP_ERR_INVALID_RESOURCE_ID
                  && r.value.state.resources == s.resources
                  && r.value.state.t == s.t && r.value.state.scanouts == s.scanouts)
  {
    HeaderFields(s.ram, Resp(ds), RESP_ERR_INVALID_RESOURCE_ID);
  }

  /**
   * The id-0 branch on guest RAM; `rendered` is a request the renderer
   * takes over, with RAM untouched up to that call.
   */
  method Create2DHandler(ram: array<u32>, ds: seq<Desc>, ghost s: GpuState) returns (plen: u32, rendered: bool)
    requires s.ram == ram[..]
    modifies ram
    ensures var r := Create2DCheck(s, ds);
            && (rendered <==> r.None?)
            && (rendered ==> ram[..] == s.ram)
            && (!rendered ==> Reply(s.(ram := ram[..]), plen) == r.value)
  {
    var id := Field(ram[..], Req(ds), 24);
    if id == 0 {
      plen := WriteResponse(ram, Resp(ds), RESP_ERR_INVALID_RESOURCE_ID);
      return plen, false;
    }
    return 0, true;
  }

  /**
   * struct vgpu_resp_capset_info for capset_index `index`; maxVersion and
   * maxSize are what the renderer reports for VIRGL2.
   */
  function CapsetInfoBytes(index: u32, maxVersion: u32, maxSize: u32): (bs: seq<u8>)
    ensures |bs| == CAPSET_INFO_SIZE
  {
    var known := index == 0 || index == 1;
    ResponseHeader(RESP_OK_CAPSET_INFO)
      + WordBytes(if known then CAPSET_VIRGL2 else 0)
      + WordBytes(if known then maxVersion else 0)
      + WordBytes(if known then maxSize else 0)
      + Zeros(4)
  }

  /** The response as it stands after the memset and the type store. */
  function CapsetInfoCleared(ram: seq<u32>, a: u32): (r: seq<u32>)
    ensures |r| == |ram|
  {
    WithBytes(ram, a, ResponseHeader(RESP_OK_CAPSET_INFO) + Zeros(CAPSET_INFO_SIZE - HDR_SIZE))
  }

  /**
   * capset_index as the handler reads it: after the response has been
   * cleared and typed, so a request sharing bytes with the response sees
   * the cleared bytes.
   */
  function CapsetIndex(ram: seq<u32>, ds: seq<Desc>): u32
  {
    Field(CapsetInfoCleared(ram, Resp(ds)), Req(ds), 24)
  }

  /**
   * virgl_cmd_get_capset_info_handler: clear and type the response, read
   * the index, then fill the capability fields.
   */
  function GetCapsetInfo(s: GpuState, ds: seq<Desc>, maxVersion: u32, maxSize: u32): Outcome
  {
    var cleared := CapsetInfoCleared(s.ram, Resp(ds));
    var index := CapsetIndex(s.ram, ds);
    Reply(s.(ram := WithBytes(cleared, Resp(ds), CapsetInfoBytes(index, maxVersion, maxSize))), CAPSET_INFO_SIZE as u32)
  }

  /** The 40 bytes of a capability-set answer at a lie in RAM. */
  predicate CapsetInfoInRam(ram: seq<u32>, a: int)
  {
    0 <= a && a + CAPSET_INFO_SIZE <= 4 * |ram|
  }

  /** A 32-bit field of a block written inside RAM reads back. */
  lemma FieldReadsBack(ram: seq<u32>, a: int, bs: seq<u8>, off: nat, w: u32)
    requires 0 <= a && a + |bs| <= 4 * |ram| && off + 4 <= |bs|
    requires bs[off..off + 4] == WordBytes(w)
    ensures LoadU32(WithBytes(ram, a, bs), a + off) == w
  {
    LoadU32WithBytes(ram, a, bs, off);
    WordOfWordBytes(w);
  }

  /** Where the fields of the capability-set answer lie. */
  lemma CapsetInfoLayout(index: u32, maxVersion: u32, maxSize: u32)
    ensures var bs := CapsetInfoBytes(index, maxVersion, maxSize);
            var known := index == 0 || index == 1;
            && bs[0..4] == WordBytes(RESP_OK_CAPSET_INFO)
            && bs[4..24] == Zeros(20)
            && bs[24..28] == WordBytes(if known then CAPSET_VIRGL2 else 0)
            && bs[28..32] == WordBytes(if known then maxVersion else 0)
            && bs[32..36] == WordBytes(if known then maxSize else 0)
            && bs[36..] == Zeros(4)
  {
    var known := index == 0 || index == 1;
    var h := ResponseHeader(RESP_OK_CAPSET_INFO);
    var w1 := WordBytes(if known then CAPSET_VIRGL2 else 0);
    var w2 := WordBytes(if known then maxVersion else 0);
    var w3 := WordBytes(if known then maxSize else 0);
    var bs := h + w1 + w2 + w3 + Zeros(4);
    assert bs == CapsetInfoBytes(index, maxVersion, maxSize);
    assert bs[0..24] == h;
    assert h[0..4] == WordBytes(RESP_OK_CAPSET_INFO);
    assert h[4..24] == Zeros(20);
    assert bs[24..28] == w1;
    assert bs[28..32] == w2;
    assert bs[32..36] == w3;
  }

  /** The fields of the capability-set answer read back from RAM. */
  lemma CapsetInfoReadBack(ram: seq<u32>, a: int, index: u32, maxVersion: u32, maxSize: u32)
    requires CapsetInfoInRam(ram, a)
    ensures var r := WithBytes(ram, a, CapsetInfoBytes(index, maxVersion, maxSize));
            var known := index == 0 || index == 1;
            && LoadU32(r, a) == RESP_OK_CAPSET_INFO
            && LoadU32(r, a + 24) == (if known then CAPSET_VIRGL2 else 0)
            && LoadU32(r, a + 28) == (if known then maxVersion else 0)
            && LoadU32(r, a + 32) == (if known then maxSize else 0)
  {
    var bs := CapsetInfoBytes(index, maxVersion, maxSize);
    var known := index == 0 || index == 1;
    var id, version, size := if known then CAPSET_VIRGL2 else 0, if known then maxVersion else 0, if known then maxSize else 0;
    assert && bs[0..4] == WordBytes(RESP_OK_CAPSET_INFO)
           && bs[24..28] == WordBytes(id) && bs[28..32] == WordBytes(version) && bs[32..36] == WordBytes(size) by {
      CapsetInfoLayout(index, maxVersion, maxSize);
    }
    AnswerReadsBack(ram, a, bs, id, version, size);
  }

  /** The type word and the three capability words of a 40-byte block read back. */
  lemma AnswerReadsBack(ram: seq<u32>, a: int, bs: seq<u8>, id: u32, version: u32, size: u32)
    requires CapsetInfoInRam(ram, a) && |bs| == CAPSET_INFO_SIZE
    requires && bs[0..4] == WordBytes(RESP_OK_CAPSET_INFO)
             && bs[24..28] == WordBytes(id) && bs[28..32] == WordBytes(version) && bs[32..36] == WordBytes(size)
    ensures var r := WithBytes(ram, a, bs);
            && LoadU32(r, a) == RESP_OK_CAPSET_INFO
            && LoadU32(r, a + 24) == id && LoadU32(r, a + 28) == version && LoadU32(r, a + 32) == size
  {
    FieldReadsBack(ram, a, bs, 0, RESP_OK_CAPSET_INFO);
    FieldReadsBack(ram, a, bs, 24, id);
    FieldReadsBack(ram, a, bs, 28, version);
    FieldReadsBack(ram, a, bs, 32, size);
  }

  /**
   * The answer is always OK_CAPSET_INFO with length 40; indexes 0 and 1
   * name VIRGL2 with the renderer's version and size, any other index
   * reads back id, version and size 0.
   */
  lemma CapsetInfoAnswer(s: GpuState, ds: seq<Desc>, maxVersion: u32, maxSize: u32)
    requires CapsetInfoInRam(s.ram, Resp(ds))
    ensures var r := GetCapsetInfo(s, ds, maxVersion, maxSize);
            var a := Resp(ds) as int;
            var index := CapsetIndex(s.ram, ds);
            var known := index == 0 || index == 1;
            && r.Reply? && r.len == 40
            && r.state.t == s.t && r.state.resources == s.resources && r.state.scanouts == s.scanouts
            && LoadU32(r.state.ram, a) == RESP_OK_CAPSET_INFO
            && LoadU32(r.state.ram, a + 24) == (if known then CAPSET_VIRGL2 else 0)
            && LoadU32(r.state.ram, a + 28) == (if known then maxVersion else 0)
            && LoadU32(r.state.ram, a + 32) == (if known then maxSize else 0)
  {
    CapsetInfoReadBack(CapsetInfoCleared(s.ram, Resp(ds)), Resp(ds) as int, CapsetIndex(s.ram, ds), maxVersion, maxSize);
  }

  /**
   * A request whose index field lies apart from the 40 response bytes is
   * read as the driver wrote it.
   */
  lemma CapsetIndexApart(ram: seq<u32>, ds: seq<Desc>)
    requires Req(ds) as int + 28 <= Resp(ds) as int || Resp(ds) as int + CAPSET_INFO_SIZE <= Req(ds) as int + 24
    ensures CapsetIndex(ram, ds) == Field(ram, Req(ds), 24)
  {
    LoadU32Frame(ram, Resp(ds) as int, ResponseHeader(RESP_OK_CAPSET_INFO) + Zeros(CAPSET_INFO_SIZE - HDR_SIZE), Req(ds) as int + 24);
  }

  /**
   * A request in the same buffer as the response reads index 0 from the
   * cleared bytes, whatever the driver wrote there, and is answered with
   * VIRGL2 and the renderer's limits.
   */
  lemma CapsetIndexShared(s: GpuState, ds: seq<Desc>, maxVersion: u32, maxSize: u32)
    requires Req(ds) == Resp(ds) && CapsetInfoInRam(s.ram, Resp(ds))
    ensures CapsetIndex(s.ram, ds) == 0
    ensures var r := GetCapsetInfo(s, ds, maxVersion, maxSize);
            && LoadU32(r.state.ram, Resp(ds) as int + 24) == CAPSET_VIRGL2
            && LoadU32(r.state.ram, Resp(ds) as int + 28) == maxVersion
            && LoadU32(r.state.ram, Resp(ds) as int + 32) == maxSize
  {
    var bs := ResponseHeader(RESP_OK_CAPSET_INFO) + Zeros(CAPSET_INFO_SIZE - HDR_SIZE);
    assert bs[24..28] == WordBytes(0) by {
      assert bs[24..28] == Zeros(4);
      assert WordBytes(0) == Zeros(4);
    }
    FieldReadsBack(s.ram, Resp(ds) as int, bs, 24, 0);
    CapsetInfoAnswer(s, ds, maxVersion, maxSize);
  }

  /**
   * The handler on guest RAM: the response is cleared and typed, the index
   * read, and the capability fields filled by branch on it.
   */
  method GetCapsetInfoHandler(ram: array<u32>, ds: seq<Desc>, maxVersion: u32, maxSize: u32, ghost s: GpuState)
    returns (plen: u32)
    requires s.ram == ram[..]
    modifies ram
    ensures Reply(s.(ram := ram[..]), plen) == GetCapsetInfo(s, ds, maxVersion, maxSize)
  {
    var response := Zeros(CAPSET_INFO_SIZE);
    response := Put32(response, 0, RESP_OK_CAPSET_INFO);
    assert response == ResponseHeader(RESP_OK_CAPSET_INFO) + Zeros(CAPSET_INFO_SIZE - HDR_SIZE);
    StoreBytes(ram, Resp(ds), response);
    var index := Field(ram[..], Req(ds), 24);
    response := FillCapsetInfo(response, index, maxVersion, maxSize);
    StoreBytes(ram, Resp(ds), response);
    plen := CAPSET_INFO_SIZE as u32;
  }

  /**
   * The branch on the index over the cleared, typed response: VIRGL2 and
   * the renderer's limits for index 0 or 1, zero version and size (the id
   * left cleared) for any other.
   */
  method FillCapsetInfo(cleared: seq<u8>, index: u32, maxVersion: u32, maxSize: u32) returns (response: seq<u8>)
    requires cleared == ResponseHeader(RESP_OK_CAPSET_INFO) + Zeros(CAPSET_INFO_SIZE - HDR_SIZE)
    ensures response == CapsetInfoBytes(index, maxVersion, maxSize)
  {
    response := cleared;
    assert response == Put32(Zeros(CAPSET_INFO_SIZE), 0, RESP_OK_CAPSET_INFO);
    if index == 0 {
      response := Put32(response, 24, CAPSET_VIRGL2);
      response := Put32(response, 28, maxVersion);
      response := Put32(response, 32, maxSize);
    } else if index == 1 {
      response := Put32(response, 24, CAPSET_VIRGL2);
      response := Put32(response, 28, maxVersion);
      response := Put32(response, 32, maxSize);
    } else {
      response := Put32(response, 28, 0);
      response := Put32(response, 32, 0);
      assert response[24..28] == WordBytes(0) by {
        assert response[24..28] == Zeros(4);
        assert WordBytes(0) == Zeros(4);
      }
    }
    CapsetInfoLayout(index, maxVersion, maxSize);
    SameBlocks(response, CapsetInfoBytes(index, maxVersion, maxSize));
  }

  /** Two 40-byte answers that agree field by field are equal. */
  lemma SameBlocks(x: seq<u8>, y: seq<u8>)
    requires |x| == |y| == CAPSET_INFO_SIZE
    requires x[0..4] == y[0..4] && x[24..28] == y[24..28] && x[28..32] == y[28..32] && x[32..36] == y[32..36]
    requires forall i :: 4 <= i < 24 || 36 <= i < 40 ==> x[i] == 0 && y[i] == 0
    ensures x == y
  {
    forall i | 0 <= i < CAPSET_INFO_SIZE
      ensures x[i] == y[i]
    {
      if i < 4 {
        assert x[i] == x[0..4][i];
        assert y[i] == y[0..4][i];
      } else if 24 <= i < 28 {
        assert x[i] == x[24..28][i - 24];
        assert y[i] == y[24..28][i - 24];
      } else if 28 <= i < 32 {
        assert x[i] == x[28..32][i - 28];
        assert y[i] == y[28..32][i - 28];
      } else if 32 <= i < 36 {
        assert x[i] == x[32..36][i - 32];
        assert y[i] == y[32..36][i - 32];
      }
    }
  }

  /**
   * struct virtio_gpu_resp_capset as written: cleared, then the type; the
   * renderer's fill is not part of this model.
   */
  function CapsetBytes(maxSize: u32): (bs: seq<u8>)
    ensures |bs| == CAPSET_SIZE
  {
    ResponseHeader(if maxSize == 0 then RESP_ERR_INVALID_PARAMETER else RESP_OK_CAPSET) + Zeros(8)
  }

  /**
   * virgl_get_capset_handler, maxSize being what the renderer reports for
   * the requested capset; the length is the structure size plus maxSize,
   * cut to 32 bits.
   */
  function GetCapset(s: GpuState, ds: seq<Desc>, maxSize: u32): Outcome
  {
    Reply(s.(ram := WithBytes(s.ram, Resp(ds), CapsetBytes(maxSize))), Wrap32(CAPSET_SIZE + maxSize))
  }

  /**
   * An empty capability set is refused with ERR_INVALID_PARAMETER and any
   * other answered with OK_CAPSET; either way the length counts maxSize
   * bytes of data after the structure.
   */
  lemma CapsetAnswer(s: GpuState, ds: seq<Desc>, maxSize: u32)
    requires HeaderInRam(s.ram, Resp(ds))
    ensures var r := GetCapset(s, ds, maxSize);
            var kind := LoadU32(r.state.ram, Resp(ds));
            && r.Reply?
            && r.state.t == s.t && r.state.resources == s.resources && r.state.scanouts == s.scanouts
            && (kind == RESP_ERR_INVALID_PARAMETER <==> maxSize == 0)
            && (kind == RESP_OK_CAPSET <==> maxSize != 0)
            && (maxSize < 0x1_0000_0000 - CAPSET_SIZE ==> r.len as int == CAPSET_SIZE + maxSize)
  {
    var kind := if maxSize == 0 then RESP_ERR_INVALID_PARAMETER else RESP_OK_CAPSET;
    var bs := CapsetBytes(maxSize);
    HeaderWord(s.ram, Resp(ds), 0);
    LoadU32WithBytes(s.ram, Resp(ds), bs, 0);
    HeaderBytes(kind);
    assert bs[0..4] == ResponseHeader(kind)[0..4];
  }

  /** The handler on guest RAM. */
  method GetCapsetHandler(ram: array<u32>, ds: seq<Desc>, maxSize: u32, ghost s: GpuState) returns (plen: u32)
    requires s.ram == ram[..]
    modifies ram
    ensures Reply(s.(ram := ram[..]), plen) == GetCapset(s, ds, maxSize)
  {
    var response := Zeros(CAPSET_SIZE);
    if maxSize == 0 {
      response := Put32(response, 0, RESP_ERR_INVALID_PARAMETER);
    } else {
      response := Put32(response, 0, RESP_OK_CAPSET);
    }
    assert response == CapsetBytes(maxSize);
    StoreBytes(ram, Resp(ds), response);
    plen := Wrap32(CAPSET_SIZE + maxSize);
  }
}
