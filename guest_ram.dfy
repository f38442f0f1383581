/**
 * Guest physical memory as the devices see it.
 *
 * The emulator keeps guest RAM as an array of 32-bit words (`uint32_t *ram`,
 * device.h:141 and device.h:186); ring structures are read word by word at
 * index `byte_addr >> 2`, while request and response structures are reached
 * through `(char *) ram + addr` and so are byte addressed.  The host is
 * little-endian, so byte `a` is byte `a % 4` of word `a / 4`.
 *
 * Addresses are unbounded integers.  An access outside the array is
 * undefined behaviour in the emulator; here such a read yields 0 and such a
 * write is dropped.
 */
module GuestRam {
  import opened Common

  /** RAM_SIZE (device.h:8): 512 MiB. */
  const RAM_SIZE: nat := 512 * 1024 * 1024

  // ---------------------------------------------------------------------
  // Words and their little-endian bytes

  /** n zero bytes, what `memset(p, 0, n)` leaves. */
  function Zeros(n: nat): (z: seq<u8>)
    ensures |z| == n && forall i :: 0 <= i < n ==> z[i] == 0
  {
    seq(n, _ => 0)
  }

  /**
   * `memcpy(buf + at, bs, |bs|)` into a host byte buffer (a disk image, an
   * image buffer), dropping what falls outside it.
   */
  function Paste(buf: seq<u8>, at: int, bs: seq<u8>): (r: seq<u8>)
    ensures |r| == |buf|
  {
    seq(|buf|, j requires 0 <= j < |buf| => if at <= j < at + |bs| then bs[j - at] else buf[j])
  }

  lemma DivMod256(x: nat)
    ensures x == 256 * (x / 256) + x % 256
    ensures 0 <= x % 256 < 256
  {
  }

  lemma Div256Twice(x: nat)
    ensures x / 0x1_0000 == (x / 256) / 256
    ensures x / 0x100_0000 == ((x / 256) / 256) / 256
  {
  }

  /** The four bytes of a word, least significant first. */
  function WordBytes(w: u32): (bs: seq<u8>)
    ensures |bs| == 4
  {
    [w % 256, (w / 0x100) % 256, (w / 0x1_0000) % 256, w / 0x100_0000]
  }

  /** The word made of four bytes, least significant first. */
  function WordOf(bs: seq<u8>): u32
    requires |bs| == 4
  {
    var b0: int, b1: int, b2: int, b3: int := bs[0], bs[1], bs[2], bs[3];
    b0 + 0x100 * b1 + 0x1_0000 * b2 + 0x100_0000 * b3
  }

  lemma WordOfWordBytes(w: u32)
    ensures WordOf(WordBytes(w)) == w
  {
    var q1 := w / 256;
    var q2 := q1 / 256;
    DivMod256(w);
    DivMod256(q1);
    DivMod256(q2);
    Div256Twice(w);
  }

  lemma WordBytesWordOf(bs: seq<u8>)
    requires |bs| == 4
    ensures WordBytes(WordOf(bs)) == bs
  {
    var b0: int, b1: int, b2: int, b3: int := bs[0], bs[1], bs[2], bs[3];
    var x := WordOf(bs);
    var y1 := b1 + 256 * b2 + 0x1_0000 * b3;
    var y2 := b2 + 256 * b3;
    assert x == y1 * 256 + b0;
    ModUnique(x, 256, y1, b0);
    DivMod256(x);
    assert x / 256 == y1;
    assert y1 == y2 * 256 + b1;
    ModUnique(y1, 256, y2, b1);
    DivMod256(y1);
    assert y1 / 256 == y2;
    assert y2 == b3 * 256 + b2;
    ModUnique(y2, 256, b3, b2);
    DivMod256(y2);
    assert y2 / 256 == b3;
    Div256Twice(x);
  }

  // ---------------------------------------------------------------------
  // Word view

  predicate WordInRam(ram: seq<u32>, i: int)
  {
    0 <= i < |ram|
  }

  function WordAt(ram: seq<u32>, i: int): u32
  {
    if WordInRam(ram, i) then ram[i] else 0
  }

  function WithWord(ram: seq<u32>, i: int, w: u32): (r: seq<u32>)
    ensures |r| == |ram|
  {
    if WordInRam(ram, i) then ram[i := w] else ram
  }

  lemma WordAtWithWord(ram: seq<u32>, i: int, w: u32, j: int)
    ensures WordAt(WithWord(ram, i, w), j) == if j == i && WordInRam(ram, i) then w else WordAt(ram, j)
  {
  }

  // ---------------------------------------------------------------------
  // Byte view

  predicate InRam(ram: seq<u32>, a: int)
  {
    0 <= a && a / 4 < |ram|
  }

  /** Byte k of w, least significant first. */
  function ByteOf(w: nat, k: nat): u8
    decreases k
  {
    if k == 0 then w % 256 else ByteOf(w / 256, k - 1)
  }

  /** w, a value n bytes wide, with its byte k replaced by b. */
  function PutByte(w: nat, n: nat, k: nat, b: u8): (r: nat)
    requires w < Pow2(8 * n) && k < n
    ensures r < Pow2(8 * n)
    decreases k
  {
    SplitLowByte(w, n);
    if k == 0 then (w / 256) * 256 + b
    else PutByte(w / 256, n - 1, k - 1, b) * 256 + w % 256
  }

  /** An n-byte value is a byte below an (n - 1)-byte value. */
  lemma SplitLowByte(w: nat, n: nat)
    requires n > 0 && w < Pow2(8 * n)
    ensures Pow2(8 * n) == Pow2(8 * (n - 1)) * 256
    ensures w / 256 < Pow2(8 * (n - 1))
  {
    Pow2Add(8 * (n - 1), 8);
    Pow2Byte();
    assert 8 * (n - 1) + 8 == 8 * n;
  }

  /** Replacing byte k changes byte k and no other. */
  lemma {:induction false} ByteOfPutByte(w: nat, n: nat, k: nat, b: u8, j: nat)
    requires w < Pow2(8 * n) && k < n
    ensures ByteOf(PutByte(w, n, k, b), j) == if j == k then b else ByteOf(w, j)
    decreases k
  {
    var r := PutByte(w, n, k, b);
    SplitLowByte(w, n);
    if k == 0 {
      ModUnique(r, 256, w / 256, b);
    } else {
      var hi := PutByte(w / 256, n - 1, k - 1, b);
      ModUnique(r, 256, hi, w % 256);
      if j > 0 {
        ByteOfPutByte(w / 256, n - 1, k - 1, b, j - 1);
      }
    }
  }

  function ByteAt(ram: seq<u32>, a: int): u8
  {
    if InRam(ram, a) then ByteOf(ram[a / 4], a % 4) else 0
  }

  /** The word at a / 4 with the byte at a replaced. */
  function WordWithByte(w: u32, a: int, b: u8): u32
  {
    Pow2Constants();
    PutByte(w, 4, a % 4, b)
  }

  function WithByte(ram: seq<u32>, a: int, b: u8): (r: seq<u32>)
    ensures |r| == |ram|
  {
    if InRam(ram, a) then ram[a / 4 := WordWithByte(ram[a / 4], a, b)] else ram
  }

  /** Writing one byte changes that byte, if it is in RAM, and no other. */
  lemma ByteAtWithByte(ram: seq<u32>, a: int, b: u8, p: int)
    ensures ByteAt(WithByte(ram, a, b), p) == if p == a && InRam(ram, a) then b else ByteAt(ram, p)
  {
    if InRam(ram, a) && InRam(ram, p) && p / 4 == a / 4 {
      Pow2Constants();
      ByteOfPutByte(ram[a / 4], 4, a % 4, b, p % 4);
      if p != a {
        assert p % 4 != a % 4;
      }
    }
  }

  /** n consecutive bytes from address a. */
  function BytesAt(ram: seq<u32>, a: int, n: nat): (bs: seq<u8>)
    ensures |bs| == n
  {
    seq<u8>(n, i => ByteAt(ram, a + i))
  }

  /** `bs` written byte by byte from address a upwards. */
  function WithBytes(ram: seq<u32>, a: int, bs: seq<u8>): (r: seq<u32>)
    ensures |r| == |ram|
  {
    if |bs| == 0 then ram
    else WithByte(WithBytes(ram, a, bs[..|bs| - 1]), a + |bs| - 1, bs[|bs| - 1])
  }

  /**
   * After a block write, the written bytes that fall in RAM read back as
   * written and every other byte is unchanged.
   */
  lemma {:induction false} ByteAtWithBytes(ram: seq<u32>, a: int, bs: seq<u8>, p: int)
    ensures ByteAt(WithBytes(ram, a, bs), p) ==
            if a <= p < a + |bs| && InRam(ram, p) then bs[p - a] else ByteAt(ram, p)
    decreases |bs|
  {
    if |bs| > 0 {
      var init := bs[..|bs| - 1];
      var mid := WithBytes(ram, a, init);
      ByteAtWithByte(mid, a + |bs| - 1, bs[|bs| - 1], p);
      ByteAtWithBytes(ram, a, init, p);
    }
  }

  /** A block write leaves words wholly outside it unchanged. */
  lemma {:induction false} WordAtWithBytes(ram: seq<u32>, a: int, bs: seq<u8>, i: int)
    requires 4 * i + 3 < a || a + |bs| <= 4 * i
    ensures WordAt(WithBytes(ram, a, bs), i) == WordAt(ram, i)
    decreases |bs|
  {
    if |bs| > 0 {
      WordAtWithBytes(ram, a, bs[..|bs| - 1], i);
    }
  }

  // ---------------------------------------------------------------------
  // Little-endian fields of guest structures

  function LoadU32(ram: seq<u32>, a: int): u32
  {
    WordOf(BytesAt(ram, a, 4))
  }

  function StoreU32(ram: seq<u32>, a: int, v: u32): (r: seq<u32>)
    ensures |r| == |ram|
  {
    WithBytes(ram, a, WordBytes(v))
  }

  function LoadU64(ram: seq<u32>, a: int): u64
  {
    LoadU32(ram, a) + 0x1_0000_0000 * LoadU32(ram, a + 4)
  }

  /** A little-endian 64-bit store: the low word, then the high word. */
  function StoreU64(ram: seq<u32>, a: int, v: u64): (r: seq<u32>)
    ensures |r| == |ram|
  {
    StoreU32(StoreU32(ram, a, v % 0x1_0000_0000), a + 4, v / 0x1_0000_0000)
  }

  /** RAM is contiguous: a byte between two bytes in RAM is in RAM. */
  lemma InRamBetween(ram: seq<u32>, p: int, q: int, x: int)
    requires InRam(ram, p) && InRam(ram, q) && p <= x <= q
    ensures InRam(ram, x)
  {
  }

  /** n bytes of a block write that lie in RAM read back as written. */
  lemma BytesAtWithBytes(ram: seq<u32>, a: int, bs: seq<u8>, off: nat, n: nat)
    requires off + n <= |bs|
    requires n > 0 ==> InRam(ram, a + off) && InRam(ram, a + off + n - 1)
    ensures BytesAt(WithBytes(ram, a, bs), a + off, n) == bs[off..off + n]
  {
    var x := BytesAt(WithBytes(ram, a, bs), a + off, n);
    forall i | 0 <= i < n
      ensures x[i] == bs[off + i]
    {
      InRamBetween(ram, a + off, a + off + n - 1, a + off + i);
      ByteAtWithBytes(ram, a, bs, a + off + i);
    }
  }

  /** Four bytes of a block write read back as a 32-bit field. */
  lemma LoadU32WithBytes(ram: seq<u32>, a: int, bs: seq<u8>, off: nat)
    requires off + 4 <= |bs| && InRam(ram, a + off) && InRam(ram, a + off + 3)
    ensures LoadU32(WithBytes(ram, a, bs), a + off) == WordOf(bs[off..off + 4])
  {
    BytesAtWithBytes(ram, a, bs, off, 4);
  }

  /** A 32-bit field written inside RAM reads back as written. */
  lemma LoadStoreU32(ram: seq<u32>, a: int, v: u32)
    requires InRam(ram, a) && InRam(ram, a + 3)
    ensures LoadU32(StoreU32(ram, a, v), a) == v
  {
    LoadU32WithBytes(ram, a, WordBytes(v), 0);
    assert WordBytes(v)[0..4] == WordBytes(v);
    WordOfWordBytes(v);
  }

  /** Writing a field leaves the bytes outside it unchanged. */
  lemma LoadU32Frame(ram: seq<u32>, a: int, bs: seq<u8>, p: int)
    requires p + 4 <= a || a + |bs| <= p
    ensures LoadU32(WithBytes(ram, a, bs), p) == LoadU32(ram, p)
  {
    var r := WithBytes(ram, a, bs);
    var x, y := BytesAt(r, p, 4), BytesAt(ram, p, 4);
    forall i | 0 <= i < 4
      ensures x[i] == y[i]
    {
      ByteAtWithBytes(ram, a, bs, p + i);
    }
    assert x == y;
  }

  /** A 64-bit field written inside RAM reads back as written. */
  lemma LoadStoreU64(ram: seq<u32>, a: int, v: u64)
    requires InRam(ram, a) && InRam(ram, a + 7)
    ensures LoadU64(StoreU64(ram, a, v), a) == v
  {
    var lo, hi := v % 0x1_0000_0000, v / 0x1_0000_0000;
    var r1 := StoreU32(ram, a, lo);
    InRamBetween(ram, a, a + 7, a + 3);
    InRamBetween(ram, a, a + 7, a + 4);
    LoadStoreU32(ram, a, lo);
    LoadStoreU32(r1, a + 4, hi);
    LoadU32Frame(r1, a + 4, WordBytes(hi), a);
    var r2 := StoreU32(r1, a + 4, hi);
    assert LoadU32(r2, a) == lo && LoadU32(r2, a + 4) == hi;
    assert v == lo + 0x1_0000_0000 * hi;
  }

  // ---------------------------------------------------------------------
  // Stores into the RAM array

  /** `*((uint8_t *) ram + a) = b` */
  method StoreByte(ram: array<u32>, a: int, b: u8)
    modifies ram
    ensures ram[..] == WithByte(old(ram[..]), a, b)
  {
    if 0 <= a && a / 4 < ram.Length {
      ram[a / 4] := WordWithByte(ram[a / 4], a, b);
    }
  }

  /** `memcpy((char *) ram + a, bs, |bs|)` */
  method StoreBytes(ram: array<u32>, a: int, bs: seq<u8>)
    modifies ram
    ensures ram[..] == WithBytes(old(ram[..]), a, bs)
  {
    var i := 0;
    while i < |bs|
      invariant 0 <= i <= |bs|
      invariant ram[..] == WithBytes(old(ram[..]), a, bs[..i])
    {
      StoreByte(ram, a + i, bs[i]);
      assert bs[..i + 1][..i] == bs[..i];
      i := i + 1;
    }
    assert bs[..i] == bs;
  }

  /** A 32-bit structure field store. */
  method StoreWord(ram: array<u32>, a: int, v: u32)
    modifies ram
    ensures ram[..] == StoreU32(old(ram[..]), a, v)
  {
    StoreBytes(ram, a, WordBytes(v));
  }

  /** A 64-bit structure field store. */
  method StoreDword(ram: array<u32>, a: int, v: u64)
    modifies ram
    ensures ram[..] == StoreU64(old(ram[..]), a, v)
  {
    StoreWord(ram, a, v % 0x1_0000_0000);
    StoreWord(ram, a + 4, v / 0x1_0000_0000);
  }
}
