/**
 * The EDID base block the GPU device hands to the driver (virtio-gpu.c
 * virtio_gpu_generate_edid and its checksum): 128 bytes laid out after the
 * VESA Enhanced EDID standard, structure version 1 revision 4.
 */
module Edid {
  import opened Common
  import opened GuestRam

  const EDID_SIZE: nat := 128

  /** The manufacturer's three-letter PNP id. */
  const MANUFACTURER: string := "TWN"

  /**
   * Three letters packed five bits each, 'A' as 1, first letter in the
   * high bits.  The fields are disjoint, so the C `|` of the shifted
   * fields is their sum; `& 0b11111` is the remainder modulo 32.
   */
  function PnpId(m: string): (v: u16)
    requires |m| == 3
    ensures v / 1024 == (m[0] as int - '@' as int) % 32
    ensures v / 32 % 32 == (m[1] as int - '@' as int) % 32
    ensures v % 32 == (m[2] as int - '@' as int) % 32
  {
    ((m[0] as int - '@' as int) % 32) * 1024
      + ((m[1] as int - '@' as int) % 32) * 32
      + (m[2] as int - '@' as int) % 32
  }

  const VENDOR_ID: u16 := PnpId(MANUFACTURER)

  /**
   * The first 127 bytes of the block: zeroes, then the identification
   * bytes and the display parameters.
   */
  function Body(widthCm: int, heightCm: int): (body: seq<u8>)
    ensures |body| == EDID_SIZE - 1
  {
    Display(Identification(Zeros(EDID_SIZE - 1)), widthCm, heightCm)
  }

  /**
   * Bytes 0-9 as the generator stores them: the header pattern and the
   * vendor id, whose byte 9 is `vendor_id && 0xff`, a logical and.
   */
  function Identification(b: seq<u8>): (r: seq<u8>)
    requires |b| == EDID_SIZE - 1
    ensures |r| == |b|
  {
    b[0 := 0x00][1 := 0xFF][2 := 0xFF][3 := 0xFF][4 := 0xFF][5 := 0xFF][6 := 0xFF][7 := 0x00]
     [8 := VENDOR_ID / 256]
     [9 := if VENDOR_ID != 0 then 1 else 0]
  }

  /**
   * The remaining stores: the year 2023, version 1.4, a digital
   * DisplayPort input with 8 bits per colour, the screen size in cm
   * truncated to a byte, gamma 1, the feature bits, 1024x768@60Hz among the
   * established timings and no extension block.
   */
  function Display(b: seq<u8>, widthCm: int, heightCm: int): (r: seq<u8>)
    requires |b| == EDID_SIZE - 1
    ensures |r| == |b|
  {
    b[17 := 2023 - 1990]
     [18 := 1][19 := 4]
     [20 := 0x80 + 0x20 + 0x05]
     [21 := widthCm % 256][22 := heightCm % 256]
     [23 := 1]
     [24 := 6]
     [35 := 0][36 := 8][37 := 0]
     [126 := 0]
  }

  /** The sum of a byte string, folded from the left. */
  function SumBytes(bs: seq<u8>): nat
  {
    if |bs| == 0 then 0 else SumBytes(bs[..|bs| - 1]) + bs[|bs| - 1]
  }

  /** virtio_gpu_generate_edid_checksum: 0x100 minus the byte sum, in a byte. */
  function Checksum(bs: seq<u8>): (c: u8)
    ensures (SumBytes(bs) + c) % 256 == 0
  {
    (0x100 - SumBytes(bs) % 256) % 256
  }

  /** The block: the first 127 bytes and their checksum. */
  function Block(widthCm: int, heightCm: int): (e: seq<u8>)
    ensures |e| == EDID_SIZE
  {
    var body := Body(widthCm, heightCm);
    body + [Checksum(body)]
  }

  /** Appending a byte adds it to the sum. */
  lemma SumBytesSnoc(bs: seq<u8>, b: u8)
    ensures SumBytes(bs + [b]) == SumBytes(bs) + b
  {
    assert (bs + [b])[..|bs|] == bs;
  }

  /** An 8-bit accumulator that wraps after every byte wraps the whole sum. */
  lemma SumBytesStep(bs: seq<u8>, b: u8)
    ensures (SumBytes(bs) % 256 + b) % 256 == SumBytes(bs + [b]) % 256
  {
    SumBytesSnoc(bs, b);
    var x := SumBytes(bs);
    assert x == (x / 256) * 256 + x % 256;
    ModUnique(x + b, 256, x / 256 + (x % 256 + b) / 256, (x % 256 + b) % 256);
  }

  /**
   * The block is well formed after section 3 of the VESA E-EDID standard:
   * the fixed header 00 FF FF FF FF FF FF 00, version 1, revision 4, no
   * extension blocks, and its 128 bytes sum to 0 modulo 256.
   */
  lemma BlockIsWellFormed(widthCm: int, heightCm: int)
    ensures var e := Block(widthCm, heightCm);
            && e[..8] == [0x00, 0xFF, 0xFF, 0xFF, 0xFF, 0xFF, 0xFF, 0x00]
            && e[18] == 1 && e[19] == 4
            && e[126] == 0
            && SumBytes(e) % 256 == 0
  {
    var body := Body(widthCm, heightCm);
    SumBytesSnoc(body, Checksum(body));
  }

  /**
   * The manufacturer bytes: byte 8 is the high byte of the packed id "TWN"
   * (0x52EE), but byte 9 is 1 where the big-endian id would put its low
   * byte 0xEE.
   */
  lemma ManufacturerBytes(widthCm: int, heightCm: int)
    ensures VENDOR_ID == 0x52EE
    ensures var e := Block(widthCm, heightCm);
            && e[8] == 0x52 && e[9] == 1
            && e[9] != VENDOR_ID % 256
  {
  }

  /**
   * virtio_gpu_generate_edid_checksum: the byte sum of edid[..size] in an
   * 8-bit accumulator, subtracted from 0x100.
   */
  method GenerateChecksum(edid: array<u8>, size: nat) returns (c: u8)
    requires size <= edid.Length
    ensures c == Checksum(edid[..size])
  {
    var sum: u8 := 0;
    var i := 0;
    while i < size
      invariant i <= size
      invariant sum == SumBytes(edid[..i]) % 256
    {
      assert edid[..i + 1] == edid[..i] + [edid[i]];
      SumBytesStep(edid[..i], edid[i]);
      sum := (sum + edid[i]) % 256;
      i := i + 1;
    }
    assert edid[..i] == edid[..size];
    c := (0x100 - sum) % 256;
  }

  /**
   * virtio_gpu_generate_edid: the 128-byte block written over the start of
   * `edid`; bytes past it are left alone.
   */
  method GenerateEdid(edid: array<u8>, widthCm: int, heightCm: int)
    requires edid.Length >= EDID_SIZE
    modifies edid
    ensures edid[..EDID_SIZE] == Block(widthCm, heightCm)
    ensures edid[EDID_SIZE..] == old(edid[EDID_SIZE..])
  {
    FillBody(edid, widthCm, heightCm);
    var c := GenerateChecksum(edid, EDID_SIZE - 1);
    edid[EDID_SIZE - 1] := c;
    assert edid[..EDID_SIZE] == edid[..EDID_SIZE - 1] + [c];
  }

  /** The stores of virtio_gpu_generate_edid before the checksum. */
  method FillBody(edid: array<u8>, widthCm: int, heightCm: int)
    requires edid.Length >= EDID_SIZE
    modifies edid
    ensures edid[..EDID_SIZE - 1] == Body(widthCm, heightCm)
    ensures edid[EDID_SIZE - 1..] == old(edid[EDID_SIZE - 1..])
  {
    // memset(edid, 0, 128); the last byte is overwritten by the checksum
    var i := 0;
    while i < EDID_SIZE - 1
      invariant i <= EDID_SIZE - 1
      invariant forall j :: 0 <= j < i ==> edid[j] == 0
      invariant edid[EDID_SIZE - 1..] == old(edid[EDID_SIZE - 1..])
    {
      edid[i] := 0;
      i := i + 1;
    }
    assert edid[..EDID_SIZE - 1] == Zeros(EDID_SIZE - 1);
    FillIdentification(edid);
    FillDisplay(edid, widthCm, heightCm);
  }

  /** The header and vendor stores. */
  method FillIdentification(edid: array<u8>)
    requires edid.Length >= EDID_SIZE
    modifies edid
    ensures edid[..EDID_SIZE - 1] == Identification(old(edid[..EDID_SIZE - 1]))
    ensures edid[EDID_SIZE - 1..] == old(edid[EDID_SIZE - 1..])
  {
    Put(edid, 0, 0x00);
    Put(edid, 1, 0xFF);
    Put(edid, 2, 0xFF);
    Put(edid, 3, 0xFF);
    Put(edid, 4, 0xFF);
    Put(edid, 5, 0xFF);
    Put(edid, 6, 0xFF);
    Put(edid, 7, 0x00);
    var vendorId := VENDOR_ID;
    Put(edid, 8, vendorId / 256);
    Put(edid, 9, if vendorId != 0 then 1 else 0);
  }

  /** The stores from the year of manufacture on. */
  method FillDisplay(edid: array<u8>, widthCm: int, heightCm: int)
    requires edid.Length >= EDID_SIZE
    modifies edid
    ensures edid[..EDID_SIZE - 1] == Display(old(edid[..EDID_SIZE - 1]), widthCm, heightCm)
    ensures edid[EDID_SIZE - 1..] == old(edid[EDID_SIZE - 1..])
  {
    Put(edid, 17, 2023 - 1990);
    Put(edid, 18, 1);
    Put(edid, 19, 4);
    Put(edid, 20, 0x80 + 0x20 + 0x05);
    Put(edid, 21, widthCm % 256);
    Put(edid, 22, heightCm % 256);
    Put(edid, 23, 1);
    Put(edid, 24, 6);
    Put(edid, 35, 0);
    Put(edid, 36, 8);
    Put(edid, 37, 0);
    Put(edid, 126, 0);
  }

  /** `edid[k] = v` inside the first 127 bytes. */
  method Put(edid: array<u8>, k: nat, v: u8)
    requires k < EDID_SIZE - 1 < edid.Length
    modifies edid
    ensures edid[..EDID_SIZE - 1] == old(edid[..EDID_SIZE - 1])[k := v]
    ensures edid[EDID_SIZE - 1..] == old(edid[EDID_SIZE - 1..])
  {
    edid[k] := v;
  }
}
