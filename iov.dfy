/**
 * copy_iov_to_buf of virtio-gpu.c: gather up to `bytes` bytes, starting
 * `offset` bytes into the data of a scatter-gather list, into a buffer.
 *
 * Host memory is a byte string `mem`, a pointer an index into it (0 being
 * NULL); bytes read beyond `mem` read as 0 and bytes stored beyond the
 * buffer are dropped, both of which the C code leaves undefined.
 */
module Iov {
  import opened Common
  import opened GuestRam

  /** struct iovec: a base pointer and a length. */
  datatype IoVec = IoVec(base: nat, len: nat)

  /** The entries the copy does not skip: a non-null base and some data. */
  predicate Live(v: IoVec)
  {
    v.base != 0 && v.len != 0
  }

  /** The number of bytes the live entries hold. */
  function LiveBytes(iov: seq<IoVec>): nat
  {
    if |iov| == 0 then 0
    else (if Live(iov[0]) then iov[0].len else 0) + LiveBytes(iov[1..])
  }

  function Min(a: int, b: int): int { if a < b then a else b }
  function Max(a: int, b: int): int { if a < b then b else a }

  /** n bytes of host memory from index a. */
  function MemBytes(mem: seq<u8>, a: nat, n: nat): (bs: seq<u8>)
    ensures |bs| == n
  {
    seq(n, k requires 0 <= k => if a + k < |mem| then mem[a + k] else 0)
  }

  /**
   * The loop of copy_iov_to_buf over the entries still to visit, with the
   * offset still to skip and the count `done` so far; the result is the
   * buffer and the final count.  Each chunk goes to buf + done + done: the
   * destination pointer already includes `done` and the copy adds it again.
   */
  function Copy(mem: seq<u8>, iov: seq<IoVec>, offset: nat, bytes: nat, done: nat, buf: seq<u8>): (r: (seq<u8>, nat))
    requires done <= bytes
    ensures |r.0| == |buf| && done <= r.1 <= bytes
    decreases |iov|
  {
    if |iov| == 0 then (buf, done)
    else
      var v := iov[0];
      if !Live(v) then Copy(mem, iov[1..], offset, bytes, done, buf)
      else if offset < v.len then
        var len := Min(bytes - done, v.len - offset);
        var buf' := Paste(buf, done + done, MemBytes(mem, v.base + offset, len));
        if done + len >= bytes then (buf', done + len)
        else Copy(mem, iov[1..], 0, bytes, done + len, buf')
      else Copy(mem, iov[1..], offset - v.len, bytes, done, buf)
  }

  /**
   * The count copy_iov_to_buf returns: whatever the live entries hold past
   * the offset, but no more than was asked for.
   */
  lemma {:induction false} CopyCount(mem: seq<u8>, iov: seq<IoVec>, offset: nat, bytes: nat, done: nat, buf: seq<u8>)
    requires done <= bytes
    ensures Copy(mem, iov, offset, bytes, done, buf).1 == done + Min(bytes - done, Max(0, LiveBytes(iov) - offset))
    decreases |iov|
  {
    if |iov| > 0 {
      var v := iov[0];
      if !Live(v) {
        CopyCount(mem, iov[1..], offset, bytes, done, buf);
      } else if offset < v.len {
        var len := Min(bytes - done, v.len - offset);
        var buf' := Paste(buf, done + done, MemBytes(mem, v.base + offset, len));
        if done + len < bytes {
          CopyCount(mem, iov[1..], 0, bytes, done + len, buf');
        }
      } else {
        CopyCount(mem, iov[1..], offset - v.len, bytes, done, buf);
      }
    }
  }

  /**
   * The count as the source promises it: min(bytes, max(0, S - offset))
   * for S the bytes of the live entries, never more than `bytes`.
   */
  lemma CopiedBytes(mem: seq<u8>, iov: seq<IoVec>, offset: nat, bytes: nat, buf: seq<u8>)
    ensures var n := Copy(mem, iov, offset, bytes, 0, buf).1;
            n == Min(bytes, Max(0, LiveBytes(iov) - offset)) && n <= bytes
  {
    CopyCount(mem, iov, offset, bytes, 0, buf);
  }

  /**
   * Two live pages of two bytes each, copied in full into an eight-byte
   * buffer: the second page lands at bytes 4 and 5 instead of 2 and 3,
   * which keep their old contents.
   */
  lemma SecondChunkDoubled()
    ensures var mem := [0, 1, 2, 3, 4];
            var iov := [IoVec(1, 2), IoVec(3, 2)];
            var r := Copy(mem, iov, 0, 4, 0, [9, 9, 9, 9, 9, 9, 9, 9]);
            r.1 == 4 && r.0 == [1, 2, 9, 9, 3, 4, 9, 9]
  {
    var mem: seq<u8> := [0, 1, 2, 3, 4];
    var iov := [IoVec(1, 2), IoVec(3, 2)];
    var b0: seq<u8> := [9, 9, 9, 9, 9, 9, 9, 9];
    var b1 := Paste(b0, 0, MemBytes(mem, 1, 2));
    assert MemBytes(mem, 1, 2) == [1, 2];
    assert b1 == [1, 2, 9, 9, 9, 9, 9, 9];
    var b2 := Paste(b1, 4, MemBytes(mem, 3, 2));
    assert MemBytes(mem, 3, 2) == [3, 4];
    assert b2 == [1, 2, 9, 9, 3, 4, 9, 9];
    assert iov[1..][1..] == [];
    assert Copy(mem, iov[1..][1..], 0, 4, 4, b2) == (b2, 4);
  }

  /** `memcpy(buf + at, mem + src, len)` */
  method MemCopy(buf: array<u8>, at: nat, mem: seq<u8>, src: nat, len: nat)
    modifies buf
    ensures buf[..] == Paste(old(buf[..]), at, MemBytes(mem, src, len))
  {
    var k := 0;
    while k < len
      invariant k <= len
      invariant forall j :: 0 <= j < buf.Length ==>
                  buf[j] == if at <= j < at + k then MemBytes(mem, src, len)[j - at] else old(buf[j])
    {
      if at + k < buf.Length {
        buf[at + k] := if src + k < |mem| then mem[src + k] else 0;
      }
      k := k + 1;
    }
  }

  /** copy_iov_to_buf */
  method CopyIovToBuf(iov: seq<IoVec>, offset: nat, buf: array<u8>, bytes: nat, mem: seq<u8>) returns (done: nat)
    modifies buf
    ensures (buf[..], done) == Copy(mem, iov, offset, bytes, 0, old(buf[..]))
  {
    done := 0;
    var off: nat := offset;
    var i := 0;
    while i < |iov|
      invariant i <= |iov| && done <= bytes
      invariant Copy(mem, iov[i..], off, bytes, done, buf[..]) == Copy(mem, iov, offset, bytes, 0, old(buf[..]))
    {
      assert iov[i..][1..] == iov[i + 1..];
      if iov[i].base != 0 && iov[i].len != 0 {
        if off < iov[i].len {
          var remained := bytes - done;
          var pageAvail := iov[i].len - off;
          var len: nat := if remained < pageAvail then remained else pageAvail;
          MemCopy(buf, done + done, mem, iov[i].base + off, len);
          off := 0;
          done := done + len;
          if done >= bytes {
            return;
          }
        } else {
          off := off - iov[i].len;
        }
      }
      i := i + 1;
    }
  }
}
