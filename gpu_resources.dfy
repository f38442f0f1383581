/**
 * The table of 2-D resources of the GPU device (virtio-gpu.c:79-125): the
 * global list `vgpu_res_2d_list`, which create_vgpu_resource_2d extends
 * at its tail and destroy_vgpu_resource_2d unlinks from.  The list is
 * modelled as the sequence of its records in list order, which is creation
 * order; host pointers (the image buffer, the iovec array) are left out.
 */
module GpuResources {
  import opened Common

  /**
   * One backing page as resource_attach_backing records it: the guest
   * address, cut to the 32 bits the address translation takes, and the
   * length.
   */
  datatype Page = Page(addr: u32, len: u32)

  /** struct vgpu_resource_2d */
  datatype Resource2D = Resource2D(
    id: u32,
    scanoutId: u32,
    format: u32,
    width: u32,
    height: u32,
    stride: u32,
    bitsPerPixel: u32,
    scanoutAttached: bool,
    pages: seq<Page>)

  /** The record create_vgpu_resource_2d links in: all zero but the id. */
  function Fresh(id: u32): Resource2D
  {
    Resource2D(id, 0, 0, 0, 0, 0, 0, false, [])
  }

  /**
   * acquire_vgpu_resource_2d: the position of the first record with the
   * given id in list order, or `None`.
   */
  function Find(rs: seq<Resource2D>, id: u32): (r: Option<nat>)
    ensures r.Some? ==> r.value < |rs| && rs[r.value].id == id
    ensures r.Some? ==> forall j :: 0 <= j < r.value ==> rs[j].id != id
    ensures r.None? <==> forall j :: 0 <= j < |rs| ==> rs[j].id != id
  {
    if |rs| == 0 then None
    else if rs[0].id == id then Some(0)
    else match Find(rs[1..], id)
      case None => None
      case Some(k) => Some(k + 1)
  }

  /** The list with position i unlinked (list_del). */
  function Without(rs: seq<Resource2D>, i: nat): (r: seq<Resource2D>)
    requires i < |rs|
    ensures |r| == |rs| - 1
    ensures forall j :: 0 <= j < i ==> r[j] == rs[j]
    ensures forall j :: i <= j < |r| ==> r[j] == rs[j + 1]
  {
    rs[..i] + rs[i + 1..]
  }

  /**
   * destroy_vgpu_resource_2d: -1 and the list unchanged when no record has
   * the id, otherwise 0 and the list without the first such record.
   */
  function Destroyed(rs: seq<Resource2D>, id: u32): (int, seq<Resource2D>)
  {
    match Find(rs, id)
    case None => (-1, rs)
    case Some(i) => (0, Without(rs, i))
  }

  /** The number of records with the given id. */
  function Count(rs: seq<Resource2D>, id: u32): nat
  {
    if |rs| == 0 then 0 else Count(rs[..|rs| - 1], id) + if rs[|rs| - 1].id == id then 1 else 0
  }

  lemma {:induction false} CountAppend(a: seq<Resource2D>, b: seq<Resource2D>, id: u32)
    ensures Count(a + b, id) == Count(a, id) + Count(b, id)
    decreases |b|
  {
    if |b| > 0 {
      assert (a + b)[..|a + b| - 1] == a + b[..|b| - 1];
      CountAppend(a, b[..|b| - 1], id);
    } else {
      assert a + b == a;
    }
  }

  /** Count is zero exactly when no record has the id. */
  lemma {:induction false} CountZero(rs: seq<Resource2D>, id: u32)
    ensures Count(rs, id) == 0 <==> forall j :: 0 <= j < |rs| ==> rs[j].id != id
    decreases |rs|
  {
    if |rs| > 0 {
      CountZero(rs[..|rs| - 1], id);
      assert forall j :: 0 <= j < |rs| - 1 ==> rs[..|rs| - 1][j] == rs[j];
    }
  }

  /**
   * Creation appends a fresh record at the tail and keeps the others in
   * order; the new record is found by its id only when no older record
   * has the same id, so a duplicate id stays hidden behind the first.
   */
  lemma CreateAppends(rs: seq<Resource2D>, id: u32)
    ensures var r := rs + [Fresh(id)];
            && r[..|rs|] == rs && r[|rs|].id == id && !r[|rs|].scanoutAttached
            && Find(r, id) == (if Find(rs, id).Some? then Find(rs, id) else Some(|rs|))
            && forall other: u32 :: other != id ==> Find(r, other) == Find(rs, other)
  {
    var r := rs + [Fresh(id)];
    assert forall j :: 0 <= j < |rs| ==> r[j] == rs[j];
    forall other: u32 | other != id
      ensures Find(r, other) == Find(rs, other)
    {
      FindUnique(r, other, Find(rs, other));
    }
    if Find(rs, id).None? {
      FindUnique(r, id, Some(|rs|));
    } else {
      FindUnique(r, id, Find(rs, id));
    }
  }

  /** Find is determined by its contract: the first match, or none. */
  lemma FindUnique(rs: seq<Resource2D>, id: u32, r: Option<nat>)
    requires r.Some? ==> r.value < |rs| && rs[r.value].id == id && forall j :: 0 <= j < r.value ==> rs[j].id != id
    requires r.None? ==> forall j :: 0 <= j < |rs| ==> rs[j].id != id
    ensures Find(rs, id) == r
  {
  }

  /**
   * Destroying an absent id returns -1 and changes nothing; destroying a
   * present id returns 0 and removes exactly one record with that id,
   * the first, keeping every other record in order.
   */
  lemma DestroyRemovesOne(rs: seq<Resource2D>, id: u32)
    ensures var d := Destroyed(rs, id);
            && (d.0 == -1 <==> Count(rs, id) == 0)
            && (d.0 == -1 ==> d.1 == rs)
            && (d.0 == 0 ==>
                  && Count(d.1, id) == Count(rs, id) - 1
                  && d.1 == rs[..Find(rs, id).value] + rs[Find(rs, id).value + 1..])
            && forall other: u32 :: other != id ==> Count(d.1, other) == Count(rs, other)
  {
    CountZero(rs, id);
    match Find(rs, id)
    case None =>
    case Some(i) =>
      assert rs == rs[..i] + [rs[i]] + rs[i + 1..];
      CountAppend(rs[..i] + [rs[i]], rs[i + 1..], id);
      CountAppend(rs[..i], [rs[i]], id);
      CountAppend(rs[..i], rs[i + 1..], id);
      assert Count([rs[i]], id) == 1 by {
        assert [rs[i]][..0] == [];
      }
      forall other: u32 | other != id
        ensures Count(Without(rs, i), other) == Count(rs, other)
      {
        CountAppend(rs[..i] + [rs[i]], rs[i + 1..], other);
        CountAppend(rs[..i], [rs[i]], other);
        CountAppend(rs[..i], rs[i + 1..], other);
        assert [rs[i]][..0] == [];
      }
  }

  /**
   * The resource list as the device holds it.  Its methods follow the
   * pointer walks of virtio-gpu.c over the list and are proved against
   * the functions above.
   */
  class ResourceTable {
    /** The records in list order. */
    var items: seq<Resource2D>

    /** `static LIST_HEAD(vgpu_res_2d_list)`: the empty list. */
    constructor ()
      ensures items == []
    {
      items := [];
    }

    /** create_vgpu_resource_2d: a fresh record linked in at the tail. */
    method Create(id: u32) returns (i: nat)
      modifies this
      ensures items == old(items) + [Fresh(id)] && i == |old(items)|
    {
      i := |items|;
      items := items + [Fresh(id)];
    }

    /** acquire_vgpu_resource_2d: the walk that stops at the first match. */
    method Acquire(id: u32) returns (r: Option<nat>)
      ensures r == Find(items, id)
    {
      var k := 0;
      while k < |items|
        invariant k <= |items|
        invariant forall j :: 0 <= j < k ==> items[j].id != id
      {
        if items[k].id == id {
          FindUnique(items, id, Some(k));
          return Some(k);
        }
        k := k + 1;
      }
      return None;
    }

    /** destroy_vgpu_resource_2d */
    method Destroy(id: u32) returns (result: int)
      modifies this
      ensures (result, items) == Destroyed(old(items), id)
    {
      var r := Acquire(id);
      if r.None? {
        return -1;
      }
      items := items[..r.value] + items[r.value + 1..];
      return 0;
    }

    /**
     * The release loop of virtio_gpu_update_status: list_for_each_safe
     * unlinking every node, front to back.
     */
    method Clear()
      modifies this
      ensures items == []
    {
      while |items| > 0
        decreases |items|
      {
        items := items[1..];
      }
    }

    /** Field stores into the record at position i. */
    method Update(i: nat, r: Resource2D)
      requires i < |items|
      modifies this
      ensures items == old(items)[i := r]
    {
      items := items[i := r];
    }
  }
}
