/**
 * Host side of the device bootloader's firmware download: the transfer
 * frame, its additive checksum, the word-oriented CRC over the image and
 * the client that cuts the image into chunks and sends them in sequence.
 */
module Bootloader {
  import opened Wrappers

  const DEVICE_ADDR: bv8 := 0x01
  const FUNC_SEND_DATA: bv8 := 0x01
  const FUNC_SEND_CRC: bv8 := 0x06
  /** Largest payload of one data frame. */
  const MAX_DATA_LEN: nat := 512
  const CRC_POLY: bv32 := 0x04C1_1DB7

  function Min(a: nat, b: nat): nat
  {
    if a <= b then a else b
  }

  // ---------------------------------------------------------------------
  // Additive checksum
  // ---------------------------------------------------------------------

  /** Arithmetic sum of the bytes, without any truncation. */
  function ByteSum(s: seq<bv8>): nat
  {
    if s == [] then 0 else ByteSum(s[..|s| - 1]) + s[|s| - 1] as nat
  }

  lemma {:induction false} ByteSumAppend(a: seq<bv8>, b: seq<bv8>)
    ensures ByteSum(a + b) == ByteSum(a) + ByteSum(b)
    decreases |b|
  {
    if b == [] {
      assert a + b == a;
    } else {
      assert (a + b)[..|a + b| - 1] == a + b[..|b| - 1];
      ByteSumAppend(a, b[..|b| - 1]);
    }
  }

  /**
   * The byte whose value is x: the `as u8` cast of an in-range value,
   * counted up from zero so that its value follows by induction.
   */
  function U8(x: nat): (b: bv8)
    requires x < 256
    ensures b as nat == x
  {
    if x == 0 then 0
    else
      var prev := U8(x - 1);
      WrappingIncrement(prev);
      WrappingInc(prev)
  }

  lemma ByteSumPair(a: bv8, b: bv8)
    ensures ByteSum([a, b]) == a as nat + b as nat
  {
    assert ByteSum([a]) == a as nat by {
      assert [a][..0] == [];
    }
    assert [a, b][..1] == [a];
  }

  /**
   * The value `calc_checksum` returns: the byte sum is accumulated in a
   * wrapping 16-bit register, and the result is 256 minus its low byte,
   * masked to 8 bits (the mask of a value in 1..256 is the value mod 256).
   */
  function Checksum(data: seq<bv8>): (c: nat)
    ensures c <= 0xFF
    ensures (ByteSum(data) + c) % 256 == 0
  {
    var sum := ByteSum(data) % 0x1_0000;
    (256 - sum % 256) % 256
  }

  /** One wrapping 16-bit addition keeps the register equal to the running sum mod 2^16. */
  lemma SumStep(data: seq<bv8>, i: nat, sum: nat)
    requires i < |data| && sum == ByteSum(data[..i]) % 0x1_0000
    ensures (sum + data[i] as nat) % 0x1_0000 == ByteSum(data[..i + 1]) % 0x1_0000
  {
    assert data[..i + 1][..i] == data[..i];
    ModAdd(ByteSum(data[..i]), data[i] as nat);
  }

  lemma ModAdd(a: nat, b: nat)
    ensures (a % 0x1_0000 + b) % 0x1_0000 == (a + b) % 0x1_0000
  {
  }

  /** `calc_checksum`: a loop of 16-bit wrapping additions. */
  method CalcChecksum(data: seq<bv8>) returns (c: nat)
    ensures c == Checksum(data)
  {
    var sum: nat := 0;
    for i := 0 to |data|
      invariant sum == ByteSum(data[..i]) % 0x1_0000
    {
      SumStep(data, i, sum);
      sum := (sum + data[i] as nat) % 0x1_0000;
    }
    assert data[..|data|] == data;
    c := (256 - sum % 256) % 256;
  }

  // ---------------------------------------------------------------------
  // Transfer frame
  // ---------------------------------------------------------------------

  datatype ProtocolFrame = ProtocolFrame(deviceAddr: bv8, funcType: bv8, seqNo: bv8, data: seq<bv8>)

  /** `len as u8`: the length byte keeps only the low 8 bits of the length. */
  function LengthByte(n: nat): bv8
  {
    U8(n % 256)
  }

  /**
   * The bytes of a frame: address, function, sequence number, truncated
   * length, payload, then the checksum high byte and low byte.
   */
  function Encode(f: ProtocolFrame): (b: seq<bv8>)
    ensures |b| == 4 + |f.data| + 2
    ensures b[0] == f.deviceAddr && b[1] == f.funcType && b[2] == f.seqNo
    ensures b[3] as int == |f.data| % 256
    ensures b[4..4 + |f.data|] == f.data
    ensures b[4 + |f.data|] == 0
    ensures ByteSum(b) % 256 == 0
  {
    var body := [f.deviceAddr, f.funcType, f.seqNo, LengthByte(|f.data|)] + f.data;
    var ck := Checksum(body);
    var tail := [U8(ck / 256), U8(ck % 256)];
    ByteSumAppend(body, tail);
    ByteSumPair(tail[0], tail[1]);
    body + tail
  }

  /**
   * A full chunk's frame: the length byte of a 512-byte payload is 0, since
   * `len as u8` keeps only the low 8 bits of the length.
   */
  lemma FullChunkLengthByte(f: ProtocolFrame)
    requires |f.data| == MAX_DATA_LEN
    ensures Encode(f)[3] == 0
  {
    var n: nat := MAX_DATA_LEN % 256;
    assert n == 0;
    assert Encode(f)[3] == U8(n);
  }

  /** `ProtocolFrame::to_bytes`: pushes the header, the payload and the checksum. */
  method ToBytes(f: ProtocolFrame) returns (frame: seq<bv8>)
    ensures frame == Encode(f)
  {
    var dataLen := LengthByte(|f.data|);
    frame := [];
    frame := frame + [f.deviceAddr];
    frame := frame + [f.funcType];
    frame := frame + [f.seqNo];
    frame := frame + [dataLen];
    frame := frame + f.data;
    ghost var body := frame;
    assert body == [f.deviceAddr, f.funcType, f.seqNo, dataLen] + f.data;
    var checksum := CalcChecksum(frame);
    frame := frame + [U8(checksum / 256)];  // high byte
    frame := frame + [U8(checksum % 256)];  // low byte
    assert frame == body + [U8(checksum / 256), U8(checksum % 256)];
  }

  // ---------------------------------------------------------------------
  // Word-oriented CRC
  // ---------------------------------------------------------------------

  /** Byte k of the image, or the zero that pads the last word. */
  function ByteAt(data: seq<bv8>, k: nat): bv8
  {
    if k < |data| then data[k] else 0
  }

  /** Four bytes packed little-endian: b0 in the low-order bits. */
  function Pack(b0: bv8, b1: bv8, b2: bv8, b3: bv8): bv32
  {
    (b0 as bv32) | ((b1 as bv32) << 8) | ((b2 as bv32) << 16) | ((b3 as bv32) << 24)
  }

  /** Word w of the image, zero-padded past its end. */
  function Word(data: seq<bv8>, w: nat): bv32
  {
    Pack(ByteAt(data, 4 * w), ByteAt(data, 4 * w + 1), ByteAt(data, 4 * w + 2), ByteAt(data, 4 * w + 3))
  }

  /** Byte b moved into byte lane j of a word: `(b as u32) << (j * 8)`. */
  function Lane(b: bv8, j: nat): bv32
    requires j < 4
  {
    if j == 0 then b as bv32
    else if j == 1 then (b as bv32) << 8
    else if j == 2 then (b as bv32) << 16
    else (b as bv32) << 24
  }

  /** Lane agrees with the shift by a computed amount that the inner loop performs. */
  lemma LaneShift(b: bv8, j: nat)
    requires j < 4
    ensures (b as bv32) << (j * 8) == Lane(b, j)
  {
    if j == 0 {
    } else if j == 1 {
    } else if j == 2 {
    } else {
    }
  }

  /** The word after OR-ing in its first j bytes, as the inner loop builds it. */
  function PartialWord(data: seq<bv8>, offset: nat, j: nat): bv32
    requires j <= 4
  {
    if j == 0 then 0
    else PartialWord(data, offset, j - 1) | Lane(ByteAt(data, offset + j - 1), j - 1)
  }

  /** One pass of the inner loop: OR-ing in byte j (or nothing past the end) extends the partial word. */
  lemma PartialWordStep(data: seq<bv8>, offset: nat, j: nat, word: bv32)
    requires j < 4 && word == PartialWord(data, offset, j)
    ensures offset + j < |data| ==> word | Lane(data[offset + j], j) == PartialWord(data, offset, j + 1)
    ensures offset + j >= |data| ==> word == PartialWord(data, offset, j + 1)
  {
    if offset + j >= |data| {
      assert Lane(ByteAt(data, offset + j), j) == 0;
    }
  }

  lemma PartialWordComplete(data: seq<bv8>, w: nat)
    ensures PartialWord(data, 4 * w, 4) == Word(data, w)
  {
    var o := 4 * w;
    var b0, b1, b2, b3 := ByteAt(data, o), ByteAt(data, o + 1), ByteAt(data, o + 2), ByteAt(data, o + 3);
    assert PartialWord(data, o, 1) == b0 as bv32;
    assert PartialWord(data, o, 2) == (b0 as bv32) | ((b1 as bv32) << 8);
    assert PartialWord(data, o, 3) == (b0 as bv32) | ((b1 as bv32) << 8) | ((b2 as bv32) << 16);
  }

  /** One of the 32 shift steps: shift left, XOR the polynomial if the top bit was set. */
  function ShiftStep(crc: bv32): bv32
  {
    if crc & 0x8000_0000 != 0 then (crc << 1) ^ CRC_POLY else crc << 1
  }

  function Shifted(crc: bv32, n: nat): bv32
  {
    if n == 0 then crc else ShiftStep(Shifted(crc, n - 1))
  }

  function WordCount(len: nat): nat
  {
    (len + 3) / 4
  }

  /** The accumulator after the first n words. */
  function CrcAfter(data: seq<bv8>, n: nat): bv32
  {
    if n == 0 then 0xFFFF_FFFF else Shifted(CrcAfter(data, n - 1) ^ Word(data, n - 1), 32)
  }

  /** The final bitwise NOT of `calc_crc32`. */
  function Complement(x: bv32): bv32
  {
    !x
  }

  /** `calc_crc32`: the complement of the accumulator after every word. */
  function Crc32(data: seq<bv8>): (r: bv32)
    ensures |data| == 0 ==> r == 0
  {
    Complement(CrcAfter(data, WordCount(|data|)))
  }

  /** The inner byte loop of `calc_crc32`: word `offset / 4`, zero-padded, little-endian. */
  method ReadWord(data: seq<bv8>, offset: nat) returns (word: bv32)
    ensures word == PartialWord(data, offset, 4)
  {
    word := 0;
    for j := 0 to 4
      invariant word == PartialWord(data, offset, j)
    {
      PartialWordStep(data, offset, j, word);
      if offset + j < |data| {
        // `word |= (data[offset + j] as u32) << (j * 8)`, which is Lane by LaneShift
        LaneShift(data[offset + j], j);
        word := word | Lane(data[offset + j], j);
      }
    }
  }

  /** One pass of the shift loop: both branches take the accumulator one step further. */
  lemma ShiftedNext(start: bv32, k: nat, crc: bv32)
    requires crc == Shifted(start, k)
    ensures crc & 0x8000_0000 != 0 ==> (crc << 1) ^ CRC_POLY == Shifted(start, k + 1)
    ensures crc & 0x8000_0000 == 0 ==> crc << 1 == Shifted(start, k + 1)
  {
  }

  /** The 32-step shift loop of `calc_crc32`, applied to one accumulator value. */
  method ShiftWord(start: bv32) returns (crc: bv32)
    ensures crc == Shifted(start, 32)
  {
    crc := start;
    for k := 0 to 32
      invariant crc == Shifted(start, k)
    {
      ShiftedNext(start, k, crc);
      if crc & 0x8000_0000 != 0 {
        crc := (crc << 1) ^ CRC_POLY;
      } else {
        crc := crc << 1;
      }
    }
  }

  /** One pass of the word loop moves the accumulator from CrcAfter(i) to CrcAfter(i + 1). */
  lemma CrcStep(data: seq<bv8>, i: nat, crc: bv32, word: bv32)
    requires crc == CrcAfter(data, i) && word == PartialWord(data, 4 * i, 4)
    ensures Shifted(crc ^ word, 32) == CrcAfter(data, i + 1)
  {
    PartialWordComplete(data, i);
  }

  /** The 32 shift steps applied to the initial accumulator, one at a time. */
  lemma ShiftedInitial()
    ensures Shifted(0xFFFF_FFFF, 32) == 0xC704_DD7B
  {
    assert Shifted(0xFFFF_FFFF, 1) == 0xFB3EE249;
    assert Shifted(0xFFFF_FFFF, 2) == 0xF2BCD925;
    assert Shifted(0xFFFF_FFFF, 3) == 0xE1B8AFFD;
    assert Shifted(0xFFFF_FFFF, 4) == 0xC7B0424D;
    assert Shifted(0xFFFF_FFFF, 5) == 0x8BA1992D;
    assert Shifted(0xFFFF_FFFF, 6) == 0x13822FED;
    assert Shifted(0xFFFF_FFFF, 7) == 0x27045FDA;
    assert Shifted(0xFFFF_FFFF, 8) == 0x4E08BFB4;
    assert Shifted(0xFFFF_FFFF, 9) == 0x9C117F68;
    assert Shifted(0xFFFF_FFFF, 10) == 0x3CE3E367;
    assert Shifted(0xFFFF_FFFF, 11) == 0x79C7C6CE;
    assert Shifted(0xFFFF_FFFF, 12) == 0xF38F8D9C;
    assert Shifted(0xFFFF_FFFF, 13) == 0xE3DE068F;
    assert Shifted(0xFFFF_FFFF, 14) == 0xC37D10A9;
    assert Shifted(0xFFFF_FFFF, 15) == 0x823B3CE5;
    assert Shifted(0xFFFF_FFFF, 16) == 0x00B7647D;
    assert Shifted(0xFFFF_FFFF, 17) == 0x016EC8FA;
    assert Shifted(0xFFFF_FFFF, 18) == 0x02DD91F4;
    assert Shifted(0xFFFF_FFFF, 19) == 0x05BB23E8;
    assert Shifted(0xFFFF_FFFF, 20) == 0x0B7647D0;
    assert Shifted(0xFFFF_FFFF, 21) == 0x16EC8FA0;
    assert Shifted(0xFFFF_FFFF, 22) == 0x2DD91F40;
    assert Shifted(0xFFFF_FFFF, 23) == 0x5BB23E80;
    assert Shifted(0xFFFF_FFFF, 24) == 0xB7647D00;
    assert Shifted(0xFFFF_FFFF, 25) == 0x6A09E7B7;
    assert Shifted(0xFFFF_FFFF, 26) == 0xD413CF6E;
    assert Shifted(0xFFFF_FFFF, 27) == 0xACE6836B;
    assert Shifted(0xFFFF_FFFF, 28) == 0x5D0C1B61;
    assert Shifted(0xFFFF_FFFF, 29) == 0xBA1836C2;
    assert Shifted(0xFFFF_FFFF, 30) == 0x70F17033;
    assert Shifted(0xFFFF_FFFF, 31) == 0xE1E2E066;
    assert Shifted(0xFFFF_FFFF, 32) == 0xC704DD7B;
  }

  /** A test vector: the CRC of one zero word is 0x38FB2284. */
  lemma Crc32ZeroWord()
    ensures Crc32([0, 0, 0, 0]) == 0x38FB_2284
  {
    var d: seq<bv8> := [0, 0, 0, 0];
    assert WordCount(|d|) == 1;
    assert Word(d, 0) == 0;
    ShiftedInitial();
  }

  /** `calc_crc32` as the source runs it: a word loop around the byte loop and the shift loop. */
  method CalcCrc32(data: seq<bv8>) returns (crc: bv32)
    ensures crc == Crc32(data)
  {
    crc := 0xFFFF_FFFF;
    var wordCount := (|data| + 3) / 4;
    for i := 0 to wordCount
      invariant crc == CrcAfter(data, i)
    {
      var offset := i * 4;
      var word := ReadWord(data, offset);
      CrcStep(data, i, crc, word);
      crc := ShiftWord(crc ^ word);
    }
    crc := !crc;
  }

  lemma {:induction false} CrcAfterAgree(d1: seq<bv8>, d2: seq<bv8>, n: nat)
    requires forall w :: 0 <= w < n ==> Word(d1, w) == Word(d2, w)
    ensures CrcAfter(d1, n) == CrcAfter(d2, n)
  {
    if n > 0 {
      CrcAfterAgree(d1, d2, n - 1);
    }
  }

  /**
   * Padding an image with zeros up to the end of its last word does not
   * change its CRC: the CRC already reads those positions as zeros.
   */
  lemma CrcZeroPadding(d: seq<bv8>, zeros: seq<bv8>)
    requires forall k :: 0 <= k < |zeros| ==> zeros[k] == 0
    requires |d| + |zeros| <= 4 * WordCount(|d|)
    ensures Crc32(d + zeros) == Crc32(d)
  {
    var e := d + zeros;
    SameWordCount(|d|, |e|);
    PaddedWords(d, zeros);
    CrcAfterAgree(e, d, WordCount(|d|));
    SameAccumulator(e, d, WordCount(|d|));
  }

  lemma SameAccumulator(d1: seq<bv8>, d2: seq<bv8>, n: nat)
    requires n == WordCount(|d1|) == WordCount(|d2|)
    requires CrcAfter(d1, n) == CrcAfter(d2, n)
    ensures Crc32(d1) == Crc32(d2)
  {
  }

  lemma SameWordCount(a: nat, b: nat)
    requires a <= b <= 4 * WordCount(a)
    ensures WordCount(b) == WordCount(a)
  {
  }

  lemma PaddedWords(d: seq<bv8>, zeros: seq<bv8>)
    requires forall i :: 0 <= i < |zeros| ==> zeros[i] == 0
    ensures forall w :: 0 <= w ==> Word(d + zeros, w) == Word(d, w)
  {
    forall w | 0 <= w
      ensures Word(d + zeros, w) == Word(d, w)
    {
      PaddedWord(d, zeros, w);
    }
  }

  lemma PaddedWord(d: seq<bv8>, zeros: seq<bv8>, w: nat)
    requires forall i :: 0 <= i < |zeros| ==> zeros[i] == 0
    ensures Word(d + zeros, w) == Word(d, w)
  {
    PaddedByte(d, zeros, 4 * w);
    PaddedByte(d, zeros, 4 * w + 1);
    PaddedByte(d, zeros, 4 * w + 2);
    PaddedByte(d, zeros, 4 * w + 3);
  }

  lemma PaddedByte(d: seq<bv8>, zeros: seq<bv8>, k: nat)
    requires forall i :: 0 <= i < |zeros| ==> zeros[i] == 0
    ensures ByteAt(d + zeros, k) == ByteAt(d, k)
  {
    if |d| <= k < |d| + |zeros| {
      assert (d + zeros)[k] == zeros[k - |d|];
    }
  }

  /** `send_crc`'s payload: the four bytes of the CRC, least significant first. */
  function CrcPayload(crc: bv32): (p: seq<bv8>)
    ensures |p| == 4
  {
    [(crc & 0xFF) as bv8, ((crc >> 8) & 0xFF) as bv8, ((crc >> 16) & 0xFF) as bv8, ((crc >> 24) & 0xFF) as bv8]
  }

  /** The payload packs back to the CRC, and is read back as word 0 by the CRC loop itself. */
  lemma CrcPayloadPacks(crc: bv32)
    ensures var p := CrcPayload(crc);
      && Pack(p[0], p[1], p[2], p[3]) == crc
      && Word(p, 0) == crc
  {
  }

  // ---------------------------------------------------------------------
  // Chunking and the planned frame sequence
  // ---------------------------------------------------------------------

  /** The chunks the download loop cuts: at most MAX_DATA_LEN bytes each, in order. */
  function Chunks(image: seq<bv8>): seq<seq<bv8>>
    decreases |image|
  {
    if |image| == 0 then []
    else
      var size := Min(|image|, MAX_DATA_LEN);
      [image[..size]] + Chunks(image[size..])
  }

  function Flatten(cs: seq<seq<bv8>>): seq<bv8>
  {
    if cs == [] then [] else cs[0] + Flatten(cs[1..])
  }

  /** The ceiling of len / MAX_DATA_LEN. */
  function ChunkCount(len: nat): nat
  {
    (len + MAX_DATA_LEN - 1) / MAX_DATA_LEN
  }

  /** Where chunk k ends: the running total `sent + chunk_size`. */
  function ChunkEnd(len: nat, k: nat): nat
  {
    Min(len, k * MAX_DATA_LEN + MAX_DATA_LEN)
  }

  /** The chunks tile the image, each holds 1..MAX_DATA_LEN bytes, and there are ceil(L / 512) of them. */
  lemma {:induction false} ChunksCover(image: seq<bv8>)
    ensures Flatten(Chunks(image)) == image
    ensures |Chunks(image)| == ChunkCount(|image|)
    ensures forall k :: 0 <= k < |Chunks(image)| ==> 1 <= |Chunks(image)[k]| <= MAX_DATA_LEN
    decreases |image|
  {
    if |image| > 0 {
      var size := Min(|image|, MAX_DATA_LEN);
      ChunksCover(image[size..]);
      assert image[..size] + image[size..] == image;
      var cs := Chunks(image);
      assert cs[1..] == Chunks(image[size..]);
    }
  }

  /** Chunk k is the slice from k * MAX_DATA_LEN to ChunkEnd: consecutive and non-overlapping. */
  lemma {:induction false} ChunkAt(image: seq<bv8>, k: nat)
    requires k < |Chunks(image)|
    ensures k * MAX_DATA_LEN <= ChunkEnd(|image|, k) <= |image|
    ensures Chunks(image)[k] == image[k * MAX_DATA_LEN..ChunkEnd(|image|, k)]
    decreases k
  {
    var size := Min(|image|, MAX_DATA_LEN);
    if k > 0 {
      var rest := image[size..];
      assert Chunks(image)[k] == Chunks(rest)[k - 1];
      ChunkAt(rest, k - 1);
      assert size == MAX_DATA_LEN;
      assert (k - 1) * MAX_DATA_LEN + MAX_DATA_LEN == k * MAX_DATA_LEN;
      assert rest[(k - 1) * MAX_DATA_LEN..ChunkEnd(|rest|, k - 1)]
          == image[k * MAX_DATA_LEN..ChunkEnd(|image|, k)];
    }
  }

  /** The last chunk holds L mod 512 bytes, or 512 when L is a multiple of 512. */
  lemma LastChunkLength(image: seq<bv8>)
    requires |image| > 0
    ensures |Chunks(image)| > 0
    ensures |Chunks(image)[|Chunks(image)| - 1]|
         == if |image| % MAX_DATA_LEN == 0 then MAX_DATA_LEN else |image| % MAX_DATA_LEN
  {
    ChunksCover(image);
    var n := |Chunks(image)|;
    ChunkAt(image, n - 1);
    var q := |image| / MAX_DATA_LEN;
    var r := |image| % MAX_DATA_LEN;
    assert |image| == q * MAX_DATA_LEN + r;
    if r == 0 {
      assert n == q;
    } else {
      assert n == q + 1;
    }
  }

  lemma DivAtMost(e: nat, total: nat)
    requires 0 < total && e <= total
    ensures e * 100 / total <= 100
  {
    var q := e * 100 / total;
    assert q * total <= e * 100;
  }

  /** The progress figure `(sent + chunk_size) * 100 / total_size` after chunk k. */
  function Percent(total: nat, k: nat): nat
    requires total > 0
  {
    ChunkEnd(total, k) * 100 / total
  }

  /** Progress never exceeds 100 and reaches exactly 100 with the last chunk. */
  lemma PercentBounds(total: nat, k: nat)
    requires k < ChunkCount(total)
    ensures total > 0
    ensures Percent(total, k) <= 100
    ensures k == ChunkCount(total) - 1 ==> Percent(total, k) == 100
  {
    DivAtMost(ChunkEnd(total, k), total);
    if k == ChunkCount(total) - 1 {
      LastChunkEnd(total);
      WholeIsHundred(total);
    }
  }

  lemma LastChunkEnd(total: nat)
    requires total > 0
    ensures ChunkCount(total) > 0 && ChunkEnd(total, ChunkCount(total) - 1) == total
  {
    var n := ChunkCount(total);
    var r := (total + MAX_DATA_LEN - 1) % MAX_DATA_LEN;
    assert total + MAX_DATA_LEN - 1 == n * MAX_DATA_LEN + r;
    assert (n - 1) * MAX_DATA_LEN + MAX_DATA_LEN == n * MAX_DATA_LEN;
  }

  lemma WholeIsHundred(total: nat)
    requires total > 0
    ensures total * 100 / total == 100
  {
    assert total * 100 == 100 * total + 0;
  }

  /** `wrapping_add(1)` on a `u8`. */
  function WrappingInc(x: bv8): bv8
  {
    x + 1
  }

  lemma WrappingIncrement(x: bv8)
    ensures WrappingInc(x) as int == (x as int + 1) % 256
  {
  }

  /** The sequence number k calls of `next_seq` after seq0. */
  function SeqAt(seq0: bv8, k: nat): bv8
  {
    if k == 0 then seq0 else WrappingInc(SeqAt(seq0, k - 1))
  }

  lemma SeqAtNext(seq0: bv8, k: nat)
    ensures SeqAt(seq0, k + 1) == WrappingInc(SeqAt(seq0, k))
  {
  }

  lemma ModInc(a: int)
    ensures (a % 256 + 1) % 256 == (a + 1) % 256
  {
  }

  /** Sequence numbers count up from seq0 modulo 256. */
  lemma {:induction false} SeqAtWraps(seq0: bv8, k: nat)
    ensures SeqAt(seq0, k) as int == (seq0 as int + k) % 256
  {
    if k > 0 {
      var prev := SeqAt(seq0, k - 1);
      SeqAtWraps(seq0, k - 1);
      WrappingIncrement(prev);
      ModInc(seq0 as int + k - 1);
    }
  }

  /** Numbering k more frames after the first j continues the same count. */
  lemma {:induction false} SeqAtAdd(seq0: bv8, j: nat, k: nat)
    ensures SeqAt(SeqAt(seq0, j), k) == SeqAt(seq0, j + k)
  {
    if k > 0 {
      SeqAtAdd(seq0, j, k - 1);
    }
  }

  /** One data frame per chunk, numbered from seq0 upwards. */
  function DataFrames(chunks: seq<seq<bv8>>, seq0: bv8): seq<ProtocolFrame>
  {
    seq(|chunks|, k requires 0 <= k < |chunks| => ProtocolFrame(DEVICE_ADDR, FUNC_SEND_DATA, SeqAt(seq0, k), chunks[k]))
  }

  /**
   * The frames sent after the data frames, numbered from seqStart: the
   * CRC frame when there is a CRC to send, then the zero-length end frame.
   */
  function TrailerFrames(seqStart: bv8, crc: Option<bv32>): seq<ProtocolFrame>
  {
    var crcFrames := if crc.Some? then [ProtocolFrame(DEVICE_ADDR, FUNC_SEND_CRC, seqStart, CrcPayload(crc.value))] else [];
    crcFrames + [ProtocolFrame(DEVICE_ADDR, FUNC_SEND_DATA, SeqAt(seqStart, |crcFrames|), [])]
  }

  /**
   * Every frame one download sends, in order, when the port accepts them
   * all: the data frames, the CRC frame when CRC mode is on, and the
   * zero-length end frame.
   */
  function PlannedFrames(image: seq<bv8>, seq0: bv8, useCrc: bool): seq<ProtocolFrame>
  {
    var data := DataFrames(Chunks(image), seq0);
    data + TrailerFrames(SeqAt(seq0, |data|), if useCrc then Some(Crc32(image)) else None)
  }

  /** The shape of a complete download. */
  lemma PlannedFramesShape(image: seq<bv8>, seq0: bv8, useCrc: bool)
    ensures var p := PlannedFrames(image, seq0, useCrc);
      && |p| == ChunkCount(|image|) + (if useCrc then 1 else 0) + 1
      && (forall k :: 0 <= k < |p| ==> p[k].deviceAddr == DEVICE_ADDR && p[k].seqNo as int == (seq0 as int + k) % 256)
      && (forall k :: 0 <= k < ChunkCount(|image|) ==>
            && p[k].funcType == FUNC_SEND_DATA
            && 1 <= |p[k].data| <= MAX_DATA_LEN
            && k * MAX_DATA_LEN <= ChunkEnd(|image|, k) <= |image|
            && p[k].data == image[k * MAX_DATA_LEN..ChunkEnd(|image|, k)])
      && (useCrc ==> p[|p| - 2].funcType == FUNC_SEND_CRC && Word(p[|p| - 2].data, 0) == Crc32(image))
      && p[|p| - 1].funcType == FUNC_SEND_DATA && p[|p| - 1].data == []
  {
    var p := PlannedFrames(image, seq0, useCrc);
    PlannedHeaders(image, seq0, useCrc);
    forall k | 0 <= k < |p|
      ensures p[k].seqNo as int == (seq0 as int + k) % 256
    {
      SeqAtWraps(seq0, k);
    }
    PlannedData(image, seq0, useCrc);
    PlannedTail(image, seq0, useCrc);
    CrcPayloadPacks(Crc32(image));
  }

  lemma PlannedHeaders(image: seq<bv8>, seq0: bv8, useCrc: bool)
    ensures var p := PlannedFrames(image, seq0, useCrc);
      forall k :: 0 <= k < |p| ==> p[k].deviceAddr == DEVICE_ADDR && p[k].seqNo == SeqAt(seq0, k)
  {
    var p := PlannedFrames(image, seq0, useCrc);
    var data := DataFrames(Chunks(image), seq0);
    var t := TrailerFrames(SeqAt(seq0, |data|), if useCrc then Some(Crc32(image)) else None);
    TrailerHeaders(SeqAt(seq0, |data|), if useCrc then Some(Crc32(image)) else None);
    forall k | 0 <= k < |p|
      ensures p[k].deviceAddr == DEVICE_ADDR && p[k].seqNo == SeqAt(seq0, k)
    {
      if k < |data| {
        assert p[k] == data[k];
      } else {
        assert p[k] == t[k - |data|];
        SeqAtAdd(seq0, |data|, k - |data|);
      }
    }
  }

  lemma TrailerHeaders(seqStart: bv8, crc: Option<bv32>)
    ensures var t := TrailerFrames(seqStart, crc);
      forall j :: 0 <= j < |t| ==> t[j].deviceAddr == DEVICE_ADDR && t[j].seqNo == SeqAt(seqStart, j)
  {
  }

  lemma PlannedData(image: seq<bv8>, seq0: bv8, useCrc: bool)
    ensures var p := PlannedFrames(image, seq0, useCrc);
      && |p| > ChunkCount(|image|)
      && forall k :: 0 <= k < ChunkCount(|image|) ==>
            && p[k].funcType == FUNC_SEND_DATA
            && 1 <= |p[k].data| <= MAX_DATA_LEN
            && k * MAX_DATA_LEN <= ChunkEnd(|image|, k) <= |image|
            && p[k].data == image[k * MAX_DATA_LEN..ChunkEnd(|image|, k)]
  {
    var p := PlannedFrames(image, seq0, useCrc);
    ChunksCover(image);
    forall k | 0 <= k < ChunkCount(|image|)
      ensures k * MAX_DATA_LEN <= ChunkEnd(|image|, k) <= |image|
      ensures p[k].data == Chunks(image)[k] == image[k * MAX_DATA_LEN..ChunkEnd(|image|, k)]
    {
      ChunkAt(image, k);
    }
  }

  lemma DataFrameCount(image: seq<bv8>, seq0: bv8)
    ensures |DataFrames(Chunks(image), seq0)| == ChunkCount(|image|)
  {
    ChunksCover(image);
  }

  /** Data frame k carries chunk k, the slice of the image from k * MAX_DATA_LEN to ChunkEnd. */
  lemma DataFrameAt(image: seq<bv8>, seq0: bv8, k: nat)
    requires k < ChunkCount(|image|)
    ensures |DataFrames(Chunks(image), seq0)| == ChunkCount(|image|)
    ensures k * MAX_DATA_LEN <= ChunkEnd(|image|, k) <= |image|
    ensures DataFrames(Chunks(image), seq0)[k]
         == ProtocolFrame(DEVICE_ADDR, FUNC_SEND_DATA, SeqAt(seq0, k), image[k * MAX_DATA_LEN..ChunkEnd(|image|, k)])
  {
    ChunksCover(image);
    ChunkAt(image, k);
  }

  /** One pass of the chunk loop: the next chunk starts where the previous one ended. */
  lemma ChunkStep(total: nat, writes: nat, sent: nat)
    requires sent == Min(total, writes * MAX_DATA_LEN) && sent < total
    ensures sent == writes * MAX_DATA_LEN
    ensures writes < ChunkCount(total)
    ensures sent + Min(total - sent, MAX_DATA_LEN) == ChunkEnd(total, writes) == Min(total, (writes + 1) * MAX_DATA_LEN)
  {
  }

  /** The chunk loop stops after exactly ChunkCount chunks. */
  lemma ChunkExit(total: nat, writes: nat)
    requires Min(total, writes * MAX_DATA_LEN) >= total && writes <= ChunkCount(total)
    ensures writes == ChunkCount(total)
  {
  }

  /** Logging data frame k after the first k extends the log by one planned frame. */
  lemma LogStep(image: seq<bv8>, seq0: bv8, k: nat, log0: seq<ProtocolFrame>, log: seq<ProtocolFrame>, chunk: seq<bv8>)
    requires k < |DataFrames(Chunks(image), seq0)|
    requires log == log0 + DataFrames(Chunks(image), seq0)[..k]
    requires k * MAX_DATA_LEN <= ChunkEnd(|image|, k) <= |image|
    requires chunk == image[k * MAX_DATA_LEN..ChunkEnd(|image|, k)]
    ensures log + [ProtocolFrame(DEVICE_ADDR, FUNC_SEND_DATA, SeqAt(seq0, k), chunk)]
         == log0 + DataFrames(Chunks(image), seq0)[..k + 1]
  {
    var dfs := DataFrames(Chunks(image), seq0);
    DataFrameCount(image, seq0);
    DataFrameAt(image, seq0, k);
    assert dfs[..k + 1] == dfs[..k] + [dfs[k]];
  }

  /** The frames after the data frames: the CRC frame when CRC mode is on, then the end frame. */
  lemma PlannedTail(image: seq<bv8>, seq0: bv8, useCrc: bool)
    ensures var p := PlannedFrames(image, seq0, useCrc);
      var n := ChunkCount(|image|);
      var c := if useCrc then 1 else 0;
      && |p| == n + c + 1
      && p[..n] == DataFrames(Chunks(image), seq0)
      && (useCrc ==> p[n] == ProtocolFrame(DEVICE_ADDR, FUNC_SEND_CRC, SeqAt(seq0, n), CrcPayload(Crc32(image))))
      && p[n + c] == ProtocolFrame(DEVICE_ADDR, FUNC_SEND_DATA, SeqAt(seq0, n + c), [])
  {
    var p := PlannedFrames(image, seq0, useCrc);
    var data := DataFrames(Chunks(image), seq0);
    var t := TrailerFrames(SeqAt(seq0, |data|), if useCrc then Some(Crc32(image)) else None);
    var c := if useCrc then 1 else 0;
    DataFrameCount(image, seq0);
    SeqAtAdd(seq0, |data|, c);
    assert p[..|data|] == data;
    assert p[|data| + c] == t[c] == ProtocolFrame(DEVICE_ADDR, FUNC_SEND_DATA, SeqAt(seq0, |data| + c), []);
  }

  /** How many of `planned` writes the port takes when it rejects write `portFailsAt`. */
  function Delivered(planned: nat, portFailsAt: Option<nat>): nat
  {
    if portFailsAt.Some? && portFailsAt.value < planned then portFailsAt.value else planned
  }

  /** One more accepted planned frame extends the logged prefix by one. */
  lemma PrefixStep(p: seq<ProtocolFrame>, log0: seq<ProtocolFrame>, w: nat)
    requires w < |p|
    ensures log0 + p[..w] + [p[w]] == log0 + p[..w + 1]
    ensures w + 1 == |p| ==> p[..w + 1] == p
  {
    assert p[..w + 1] == p[..w] + [p[w]];
  }

  /**
   * When every data frame went through, the frames delivered are all the
   * data frames and those of the trailer delivered, counting the trailer's
   * writes from the end of the data frames.
   */
  lemma TrailerDelivered(p: seq<ProtocolFrame>, dfs: seq<ProtocolFrame>, t: seq<ProtocolFrame>,
                         portFailsAt: Option<nat>, trailerFailsAt: Option<nat>)
    requires p == dfs + t
    requires portFailsAt.Some? ==> portFailsAt.value >= |dfs|
    requires trailerFailsAt == if portFailsAt.Some? then Some(portFailsAt.value - |dfs|) else None
    ensures Delivered(|p|, portFailsAt) == |dfs| + Delivered(|t|, trailerFailsAt)
    ensures p[..|dfs| + Delivered(|t|, trailerFailsAt)] == dfs + t[..Delivered(|t|, trailerFailsAt)]
  {
    var d := Delivered(|t|, trailerFailsAt);
    assert p[..|dfs| + d] == dfs + t[..d];
  }

  /** A failure inside the chunk loop leaves a prefix of the data frames, itself a prefix of the plan. */
  lemma ChunksFailed(p: seq<ProtocolFrame>, dfs: seq<ProtocolFrame>, t: seq<ProtocolFrame>,
                     log0: seq<ProtocolFrame>, log: seq<ProtocolFrame>, seq0: bv8, seqNow: bv8,
                     portFailsAt: Option<nat>)
    requires p == dfs + t && |t| > 0
    requires var d := Delivered(|dfs|, portFailsAt);
      && d < |dfs|
      && log == log0 + dfs[..d]
      && seqNow == SeqAt(seq0, d + 1)
    ensures var delivered := Delivered(|p|, portFailsAt);
      && delivered == Delivered(|dfs|, portFailsAt) < |p|
      && log == log0 + p[..delivered]
      && seqNow == SeqAt(seq0, delivered + 1)
  {
    var d := Delivered(|dfs|, portFailsAt);
    assert p[..d] == dfs[..d];
  }

  /**
   * A download whose data frames all went through ends as its trailer
   * ends: what the trailer delivered, counted on the whole plan.
   */
  lemma DownloadComposes(p: seq<ProtocolFrame>, dfs: seq<ProtocolFrame>, t: seq<ProtocolFrame>,
                         log0: seq<ProtocolFrame>, log: seq<ProtocolFrame>,
                         portFailsAt: Option<nat>, trailerFailsAt: Option<nat>, ok: bool)
    requires p == dfs + t
    requires portFailsAt.Some? ==> portFailsAt.value >= |dfs|
    requires trailerFailsAt == if portFailsAt.Some? then Some(portFailsAt.value - |dfs|) else None
    requires var d := Delivered(|t|, trailerFailsAt);
      && log == log0 + dfs + t[..d]
      && (ok <==> d == |t|)
    ensures var delivered := Delivered(|p|, portFailsAt);
      && delivered == |dfs| + Delivered(|t|, trailerFailsAt)
      && log == log0 + p[..delivered]
      && (ok <==> delivered == |p|)
  {
    var d := Delivered(|t|, trailerFailsAt);
    TrailerDelivered(p, dfs, t, portFailsAt, trailerFailsAt);
    assert log0 + dfs + t[..d] == log0 + (dfs + t[..d]);
  }

  /** Numbering k frames after the first j lands where numbering j + k frames does. */
  lemma SeqComposes(seq0: bv8, seqNow: bv8, j: nat, k: nat, total: nat)
    requires seqNow == SeqAt(SeqAt(seq0, j), k)
    requires total == j + k
    ensures seqNow == SeqAt(seq0, total)
  {
    SeqAtAdd(seq0, j, k);
  }

  // ---------------------------------------------------------------------
  // The client
  // ---------------------------------------------------------------------

  datatype TransferError = SendFailed

  /**
   * `BootloaderClient`. The serial port is not modelled; each write is
   * recorded in two ghost logs, the frames and the bytes handed to the
   * port, and the port's answer to a write is an argument of the call.
   */
  class BootloaderClient {
    var seqNo: bv8
    const useCrc: bool
    ghost var frames: seq<ProtocolFrame>
    ghost var written: seq<seq<bv8>>

    ghost predicate Valid()
      reads this
    {
      && |written| == |frames|
      && forall k :: 0 <= k < |frames| ==> written[k] == Encode(frames[k])
    }

    /** `BootloaderClient::new`, less the opening of the port. */
    constructor (useCrc: bool)
      ensures Valid()
      ensures seqNo == 0 && this.useCrc == useCrc && frames == []
    {
      seqNo := 0;
      this.useCrc := useCrc;
      frames := [];
      written := [];
    }

    /** `next_seq`: hands out the current number and advances it, wrapping at 256. */
    method NextSeq() returns (s: bv8)
      modifies this`seqNo
      ensures s == old(seqNo)
      ensures seqNo == WrappingInc(old(seqNo))
      ensures seqNo as int == (old(seqNo) as int + 1) % 256
    {
      s := seqNo;
      seqNo := seqNo + 1;
      WrappingIncrement(s);
    }

    /** `send`: encodes the frame and writes it; `accepted` is the port's answer. */
    method Send(frame: ProtocolFrame, accepted: bool) returns (ok: bool)
      requires Valid()
      modifies this`frames, this`written
      ensures Valid()
      ensures ok == accepted
      ensures frames == if accepted then old(frames) + [frame] else old(frames)
    {
      var bytes := ToBytes(frame);
      if accepted {
        frames := frames + [frame];
        written := written + [bytes];
      }
      ok := accepted;
    }

    /** `send_data_chunk`. */
    method SendDataChunk(chunk: seq<bv8>, accepted: bool) returns (ok: bool)
      requires Valid()
      modifies this`seqNo, this`frames, this`written
      ensures Valid()
      ensures ok == accepted
      ensures seqNo == WrappingInc(old(seqNo))
      ensures frames == old(frames) + if accepted then [ProtocolFrame(DEVICE_ADDR, FUNC_SEND_DATA, old(seqNo), chunk)] else []
    {
      var s := NextSeq();
      ok := Send(ProtocolFrame(DEVICE_ADDR, FUNC_SEND_DATA, s, chunk), accepted);
    }

    /** `send_crc`: a CRC frame whose payload is the CRC, least significant byte first. */
    method SendCrc(crc: bv32, accepted: bool) returns (ok: bool)
      requires Valid()
      modifies this`seqNo, this`frames, this`written
      ensures Valid()
      ensures ok == accepted
      ensures seqNo == WrappingInc(old(seqNo))
      ensures frames == old(frames) + if accepted then [ProtocolFrame(DEVICE_ADDR, FUNC_SEND_CRC, old(seqNo), CrcPayload(crc))] else []
    {
      var crcBytes := [(crc & 0xFF) as bv8, ((crc >> 8) & 0xFF) as bv8, ((crc >> 16) & 0xFF) as bv8, ((crc >> 24) & 0xFF) as bv8];
      var s := NextSeq();
      ok := Send(ProtocolFrame(DEVICE_ADDR, FUNC_SEND_CRC, s, crcBytes), accepted);
    }

    /** `send_end`: the zero-length data frame that ends the transfer. */
    method SendEnd(accepted: bool) returns (ok: bool)
      requires Valid()
      modifies this`seqNo, this`frames, this`written
      ensures Valid()
      ensures ok == accepted
      ensures seqNo == WrappingInc(old(seqNo))
      ensures frames == old(frames) + if accepted then [ProtocolFrame(DEVICE_ADDR, FUNC_SEND_DATA, old(seqNo), [])] else []
    {
      var s := NextSeq();
      ok := Send(ProtocolFrame(DEVICE_ADDR, FUNC_SEND_DATA, s, []), accepted);
    }

    /**
     * The `while sent < total_size` loop of `download_firmware`: one data
     * frame per chunk, and the percentage after each chunk sent. The port
     * rejects the write with index `portFailsAt` (counting from 0).
     */
    method SendChunks(firmware: seq<bv8>, portFailsAt: Option<nat>) returns (ok: bool, progress: seq<nat>)
      requires Valid()
      modifies this`seqNo, this`frames, this`written
      ensures Valid()
      ensures var dfs := DataFrames(Chunks(firmware), old(seqNo));
        var n := |dfs|;
        var delivered := Delivered(n, portFailsAt);
        && n == ChunkCount(|firmware|)
        && (ok <==> delivered == n)
        && frames == old(frames) + dfs[..delivered]
        && seqNo == SeqAt(old(seqNo), if ok then n else delivered + 1)
        && |progress| == delivered
        && (forall k :: 0 <= k < delivered ==> Percent(|firmware|, k) == progress[k] <= 100)
    {
      ghost var seq0 := seqNo;
      ghost var dfs := DataFrames(Chunks(firmware), seq0);
      DataFrameCount(firmware, seq0);
      var total := |firmware|;
      var sent := 0;
      var writes := 0;  // index of the next write, to look up the port's answer
      progress := [];
      while sent < total
        invariant writes <= ChunkCount(total) == |dfs|
        invariant sent == Min(total, writes * MAX_DATA_LEN)
        invariant portFailsAt.Some? ==> writes <= portFailsAt.value
        invariant Valid()
        invariant frames == old(frames) + dfs[..writes]
        invariant seqNo == SeqAt(seq0, writes)
        invariant |progress| == writes
        invariant forall k :: 0 <= k < writes ==> Percent(total, k) == progress[k] <= 100
      {
        var chunkSize := Min(total - sent, MAX_DATA_LEN);
        var chunk := firmware[sent..sent + chunkSize];
        ChunkStep(total, writes, sent);
        LogStep(firmware, seq0, writes, old(frames), frames, chunk);
        ok := SendDataChunk(chunk, portFailsAt != Some(writes));
        if !ok {
          return;
        }
        PercentBounds(total, writes);
        var percent := (sent + chunkSize) * 100 / total;
        progress := progress + [percent];
        sent := sent + chunkSize;
        writes := writes + 1;
      }
      ChunkExit(total, writes);
      ok := true;
    }

    /**
     * The steps of `download_firmware` after the chunk loop: `send_crc` when
     * there is a CRC, then `send_end`. The port rejects the write with index
     * `failsAt` of the trailer (counting from 0).
     */
    method SendTrailer(crcOpt: Option<bv32>, failsAt: Option<nat>) returns (ok: bool)
      requires Valid()
      modifies this`seqNo, this`frames, this`written
      ensures Valid()
      ensures var t := TrailerFrames(old(seqNo), crcOpt);
        var delivered := Delivered(|t|, failsAt);
        && frames == old(frames) + t[..delivered]
        && (ok <==> delivered == |t|)
        && seqNo == SeqAt(old(seqNo), if ok then |t| else delivered + 1)
    {
      ghost var seqStart := seqNo;
      ghost var t := TrailerFrames(seqStart, crcOpt);
      SeqAtNext(seqStart, 0);
      SeqAtNext(seqStart, 1);
      var writes := 0;  // index of the next write, to look up the port's answer
      if crcOpt.Some? {
        ok := SendCrc(crcOpt.value, failsAt != Some(0));
        if !ok {
          assert t[..0] == [];
          return;
        }
        assert frames == old(frames) + t[..1];
        writes := 1;
      }
      assert |t| == writes + 1 && t[writes] == ProtocolFrame(DEVICE_ADDR, FUNC_SEND_DATA, seqNo, []);
      assert seqNo == SeqAt(seqStart, writes);
      ok := SendEnd(failsAt != Some(writes));
      PrefixStep(t, old(frames), writes);
    }

    /**
     * `download_firmware` on an image already read into memory. The port
     * rejects the write with index `portFailsAt` of this download (counting
     * from 0) and accepts all others; the first rejection ends the download
     * with an error. `progress` holds the percentage computed after each
     * data chunk that was sent.
     */
    method DownloadFirmware(firmware: seq<bv8>, portFailsAt: Option<nat>)
      returns (r: Result<(), TransferError>, progress: seq<nat>)
      requires Valid()
      modifies this`seqNo, this`frames, this`written
      ensures Valid()
      ensures var p := PlannedFrames(firmware, old(seqNo), useCrc);
        var delivered := Delivered(|p|, portFailsAt);
        && frames == old(frames) + p[..delivered]
        && (r.Ok? <==> delivered == |p|)
        && seqNo == SeqAt(old(seqNo), if r.Ok? then |p| else delivered + 1)
      ensures |progress| == Delivered(ChunkCount(|firmware|), portFailsAt)
      ensures forall k :: 0 <= k < |progress| ==> Percent(|firmware|, k) == progress[k] <= 100
    {
      ghost var seq0 := seqNo;
      ghost var dfs := DataFrames(Chunks(firmware), seq0);
      ghost var p := PlannedFrames(firmware, seq0, useCrc);
      var crcOpt: Option<bv32> := None;
      if useCrc {
        var crc := CalcCrc32(firmware);
        crcOpt := Some(crc);
      }
      ghost var t := TrailerFrames(SeqAt(seq0, |dfs|), crcOpt);
      assert p == dfs + t;

      var ok;
      ok, progress := SendChunks(firmware, portFailsAt);
      if !ok {
        ChunksFailed(p, dfs, t, old(frames), frames, seq0, seqNo, portFailsAt);
        r := Err(SendFailed);
        return;
      }
      var writes := ChunkCount(|firmware|);  // index of the next write, to look up the port's answer
      assert frames == old(frames) + dfs by {
        assert dfs[..writes] == dfs;
      }
      var trailerFailsAt := if portFailsAt.Some? then Some(portFailsAt.value - writes) else None;
      ok := SendTrailer(crcOpt, trailerFailsAt);
      DownloadComposes(p, dfs, t, old(frames), frames, portFailsAt, trailerFailsAt, ok);
      ghost var d := Delivered(|t|, trailerFailsAt);
      SeqComposes(seq0, seqNo, |dfs|, if ok then |t| else d + 1, if ok then |p| else Delivered(|p|, portFailsAt) + 1);
      r := if ok then Ok(()) else Err(SendFailed);
    }
  }
}
