/**
 * The whole-drive writer of data-wipe-backend.py.  `get_drive_size` reads
 * the drive geometry into a 1024-byte buffer and decodes its `DiskSize`
 * field; `wipe_drive` writes 1 MiB random blocks while the running count is
 * below the size, pass after pass, without seeking back between passes.
 */
module BackendRaw {
  import opened Common
  import opened Storage
  import opened BlockWrites

  const MIB: nat := 1024 * 1024
  /** `block_size` of `wipe_drive`. */
  const BLOCK_SIZE: nat := MIB
  /** The output buffer handed to `IOCTL_DISK_GET_DRIVE_GEOMETRY_EX`. */
  const GEOMETRY_BUFFER: nat := 1024
  /** `DiskSize` follows the 24-byte `DISK_GEOMETRY` at the head of `DISK_GEOMETRY_EX`. */
  const DISK_SIZE_OFFSET: nat := 24
  const TWO63: int := 0x8000_0000_0000_0000
  const TWO64: int := 0x1_0000_0000_0000_0000

  // ----- get_drive_size -----

  function Pow256(k: nat): (r: nat)
    ensures r > 0
  {
    if k == 0 then 1 else 256 * Pow256(k - 1)
  }

  lemma Pow256Eight()
    ensures Pow256(8) == TWO64
  {
    assert Pow256(2) == 65536;
    assert Pow256(4) == 65536 * 65536 by {
      assert Pow256(3) == 256 * 65536;
    }
    assert Pow256(6) == 256 * 256 * Pow256(4) by {
      assert Pow256(5) == 256 * Pow256(4);
    }
    assert Pow256(8) == 256 * 256 * Pow256(6) by {
      assert Pow256(7) == 256 * Pow256(6);
    }
  }

  /** The unsigned little-endian value of `bs`: `bs[0]` is the least significant byte. */
  function LittleEndian(bs: seq<Byte>): (n: nat)
    ensures n < Pow256(|bs|)
  {
    if |bs| == 0 then 0 else bs[0] as nat + 256 * LittleEndian(bs[1..])
  }

  /** The `k` little-endian bytes of `n`, the low bytes first. */
  function LittleEndianBytes(n: nat, k: nat): (r: seq<Byte>)
    ensures |r| == k
  {
    if k == 0 then [] else [(n % 256) as Byte] + LittleEndianBytes(n / 256, k - 1)
  }

  /** Decoding the encoding of a value that fits gives the value back. */
  lemma {:induction false} DecodeEncode(n: nat, k: nat)
    requires n < Pow256(k)
    ensures LittleEndian(LittleEndianBytes(n, k)) == n
  {
    if k > 0 {
      var bs := LittleEndianBytes(n, k);
      assert bs[1..] == LittleEndianBytes(n / 256, k - 1);
      DecodeEncode(n / 256, k - 1);
    }
  }

  /** Encoding a decoded buffer gives the buffer back. */
  lemma {:induction false} EncodeDecode(bs: seq<Byte>)
    ensures LittleEndianBytes(LittleEndian(bs), |bs|) == bs
  {
    if |bs| > 0 {
      var n := LittleEndian(bs);
      assert n % 256 == bs[0] as nat && n / 256 == LittleEndian(bs[1..]);
      EncodeDecode(bs[1..]);
    }
  }

  /** `ctypes.c_longlong.from_buffer_copy`: eight little-endian bytes in two's complement. */
  function Signed64(bs: seq<Byte>): (v: int)
    requires |bs| == 8
    ensures -TWO63 <= v < TWO63
  {
    Pow256Eight();
    var u := LittleEndian(bs);
    if u < TWO63 then u else u - TWO64
  }

  /** The eight bytes whose two's complement reading is `v`. */
  function Signed64Bytes(v: int): (r: seq<Byte>)
    requires -TWO63 <= v < TWO63
    ensures |r| == 8
  {
    LittleEndianBytes(if v >= 0 then v else v + TWO64, 8)
  }

  /** Encoding a 64-bit signed value and reading it back gives the value. */
  lemma SignedRoundTrip(v: int)
    requires -TWO63 <= v < TWO63
    ensures Signed64(Signed64Bytes(v)) == v
  {
    Pow256Eight();
    DecodeEncode(if v >= 0 then v else v + TWO64, 8);
  }

  /** Every eight-byte field is the encoding of the value read from it. */
  lemma SignedBytesRoundTrip(bs: seq<Byte>)
    requires |bs| == 8
    ensures Signed64Bytes(Signed64(bs)) == bs
  {
    Pow256Eight();
    EncodeDecode(bs);
  }

  /** The outcome of `get_drive_size`: the decoded size, or an `OSError`. */
  datatype SizeResult = Size(bytes: int) | OsError(message: string)

  /**
   * `get_drive_size`: `openOk` is whether `CreateFileW` returned a handle,
   * `ioctlOk` whether `DeviceIoControl` succeeded, and `buf` the buffer it
   * filled.  The size is the signed field at offsets 24 to 31.
   */
  function GetDriveSize(openOk: bool, ioctlOk: bool, buf: seq<Byte>): (r: SizeResult)
    requires |buf| == GEOMETRY_BUFFER
    ensures r.Size? <==> openOk && ioctlOk
    ensures r.Size? ==> (-TWO63 <= r.bytes < TWO63 &&
                         Signed64Bytes(r.bytes) == buf[DISK_SIZE_OFFSET..DISK_SIZE_OFFSET + 8])
  {
    if !openOk then OsError("Could not open drive")
    else if !ioctlOk then OsError("DeviceIoControl failed")
    else
      var field := buf[DISK_SIZE_OFFSET..DISK_SIZE_OFFSET + 8];
      SignedBytesRoundTrip(field);
      Size(Signed64(field))
  }

  /** A buffer carrying a disk size `v` at offset 24 reports exactly `v`. */
  lemma SizeReported(v: int, buf: seq<Byte>)
    requires -TWO63 <= v < TWO63 && |buf| == GEOMETRY_BUFFER
    requires buf[DISK_SIZE_OFFSET..DISK_SIZE_OFFSET + 8] == Signed64Bytes(v)
    ensures GetDriveSize(true, true, buf) == Size(v)
  {
    SignedRoundTrip(v);
  }

  // ----- wipe_drive -----

  /** How `wipe_drive`'s write loop ends: normally, or with the `OSError` of a failed write. */
  /** How `wipe_drive` ends: the loop completes, a write raises, or opening the drive raises `OSError`. */
  datatype WipeEnd = Wiped | Failed | OpenFailed

  /**
   * The loop's end on a drive of `length` bytes.  Pass 1 writes the blocks
   * at 0, `block`, ... while the count is below the size, so it fails on a
   * last block that crosses the end; every later pass starts where pass 1
   * stopped, at the end of the drive, and fails on its first block.
   */
  function RawEnd(length: nat, passes: nat, block: nat): WipeEnd
    requires block > 0
  {
    if passes == 0 || length == 0 then Wiped
    else if length % block != 0 || passes > 1 then Failed
    else Wiped
  }

  /** The drive after the loop: only the full blocks of pass 1 ever land. */
  function RawMedia(base: seq<Byte>, passes: nat, block: nat, rng: Entropy): (r: seq<Byte>)
    requires block > 0
    ensures |r| == |base|
  {
    BlocksAndRemainder(|base|, block);
    if passes == 0 then base else Overwritten(rng, 0, (|base| / block) * block, base)
  }

  /** The progress line after `written` bytes: the MiB count, at every multiple of 100 MiB. */
  function MbMark(written: nat): (r: seq<nat>)
    requires written > 0
    ensures forall k :: 0 <= k < |r| ==> r[k] >= 100 && r[k] % 100 == 0
  {
    if written % (100 * MIB) == 0 then
      MarkShape(written);
      [written / MIB]
    else []
  }

  lemma MarkShape(written: nat)
    requires written > 0 && written % (100 * MIB) == 0
    ensures written / MIB >= 100 && (written / MIB) % 100 == 0
  {
    var q := written / (100 * MIB);
    assert written == (100 * q) * MIB;
    assert written / MIB == 100 * q;
  }

  /** The progress lines after the first `j` blocks of a pass. */
  function MbMarks(block: nat, j: nat): (r: seq<nat>)
    requires block > 0
    ensures forall k :: 0 <= k < |r| ==> r[k] >= 100 && r[k] % 100 == 0
  {
    if j == 0 then [] else MbMarks(block, j - 1) + MbMark(j * block)
  }

  /** The progress lines of the loop: those of the blocks of pass 1 that land. */
  function RawMarks(length: nat, passes: nat, block: nat): seq<nat>
    requires block > 0
  {
    if passes == 0 then [] else MbMarks(block, length / block)
  }

  /** How many blocks of a pass that starts at `start` land: all of them from 0, none from the end. */
  function Landing(start: nat, size: nat, block: nat): nat
    requires block > 0
  {
    if start == 0 then size / block else 0
  }

  /**
   * One pass of the loop, from wherever the previous pass left the handle:
   * offset 0 for the first pass, the end of the drive for a later one.
   */
  method RawPass(h: Handle, p: nat, size: nat, block: nat, rng: Entropy,
                 ghost start: nat, ghost base: seq<Byte>, marks0: seq<nat>)
    returns (ok: bool, marks: seq<nat>)
    requires block > 0 && size == h.data.Length && h.data[..] == base && h.isOpen
    requires h.pos == start && (start == 0 || start == size)
    modifies h`pos, h.data
    ensures ok <==> (start == 0 && size % block == 0) || size == 0
    ensures Landing(start, size, block) * block <= size
    ensures h.data[..] == Overwritten(rng, p, Landing(start, size, block) * block, base)
    ensures ok ==> h.pos == size
    ensures marks == marks0 + MbMarks(block, Landing(start, size, block))
  {
    var written := 0;
    marks := marks0;
    var i := 0;
    assert Random(rng, p, 0, 0) == [];
    while written < size
      invariant written == i * block && h.pos == start + written && h.data.Length == size && h.isOpen
      invariant start == 0 || written == 0
      invariant written <= size
      invariant h.data[..] == Overwritten(rng, p, written, base)
      invariant marks == marks0 + MbMarks(block, i)
    {
      var data := Random(rng, p, written, block);
      ok := h.TryWrite(data);
      if !ok {
        RawMissed(start, size, block, i, written);
        return;
      }
      RawAdvance(start, size, block, i, written);
      BlockStep(rng, p, written, block, base);
      AppendAssoc(marks0, MbMarks(block, i), MbMark((i + 1) * block));
      marks := marks + MbMark((i + 1) * block);
      written := written + block;
      i := i + 1;
    }
    ok := true;
    RawCompleted(start, size, block, i, written);
  }

  /** A block that does not fit ends the pass after the `i` blocks that landed. */
  lemma RawMissed(start: nat, size: nat, block: nat, i: nat, written: nat)
    requires block > 0 && written == i * block && written < size < start + written + block
    requires (start == 0 || start == size) && (start == 0 || written == 0)
    ensures Landing(start, size, block) == i && !((start == 0 && size % block == 0) || size == 0)
  {
    if start == 0 {
      BlockMisses(i, block, size);
      BlocksAndRemainder(size, block);
    }
  }

  /** A block that fits lands as block `i + 1`, still within the drive's whole blocks. */
  lemma RawAdvance(start: nat, size: nat, block: nat, i: nat, written: nat)
    requires block > 0 && written == i * block && start + written + block <= size
    requires start == 0 || start == size
    ensures start == 0 && written + block == (i + 1) * block
  {
    MulSucc(i, block);
  }

  /** Reaching the end of the drive means every whole block landed and none is left over. */
  lemma RawCompleted(start: nat, size: nat, block: nat, i: nat, written: nat)
    requires block > 0 && written == i * block && written == size
    requires (start == 0 || start == size) && (start == 0 || written == 0)
    ensures Landing(start, size, block) == i && ((start == 0 && size % block == 0) || size == 0)
  {
    if size > 0 {
      BlockMisses(i, block, size);
      BlocksAndRemainder(size, block);
    } else {
      assert i * block == 0;
    }
  }

  /** Where the write position stands after `k` completed passes. */
  function PositionAfter(length: nat, k: nat): nat {
    if k == 0 then 0 else length
  }

  /**
   * `wipe_drive` on a drive whose reported size is the length of `media`:
   * `openOk` is whether `CreateFileW` gave a handle; without one the call
   * raises before any write.  Otherwise `passes` passes of `block`-byte
   * random blocks, never seeking.
   */
  method WipeDrive(openOk: bool, media: array<Byte>, passes: nat, block: nat, rng: Entropy)
    returns (end: WipeEnd, marks: seq<nat>)
    requires block > 0
    modifies media
    ensures !openOk ==> end == OpenFailed && media[..] == old(media[..]) && marks == []
    ensures openOk ==> end == RawEnd(media.Length, passes, block)
    ensures openOk ==> media[..] == RawMedia(old(media[..]), passes, block, rng)
    ensures openOk ==> marks == RawMarks(media.Length, passes, block)
  {
    if !openOk {
      return OpenFailed, [];
    }
    ghost var before := media[..];
    var size := media.Length;
    var h := new Handle.OpenDevice(media);
    marks := [];
    var p := 0;
    while p < passes
      invariant p <= passes && h.data == media && h.pos == PositionAfter(size, p) && h.isOpen
      invariant media[..] == RawMedia(before, p, block, rng)
      invariant marks == RawMarks(size, p, block)
      invariant RawEnd(size, p, block) == Wiped
    {
      var ok;
      ghost var current := media[..];
      ghost var marks0 := marks;
      ok, marks := RawPass(h, p, size, block, rng, h.pos, current, marks);
      RawPassStep(before, p, passes, block, rng, ok, media[..], marks0, marks);
      if !ok {
        h.Close();
        return Failed, marks;
      }
      p := p + 1;
    }
    h.Close();
    end := Wiped;
  }

  /**
   * Pass `p` of the loop, run from where the earlier passes left the drive,
   * either keeps the loop going with the state of `p + 1` passes or fails
   * with the state the whole loop ends in.
   */
  lemma RawPassStep(before: seq<Byte>, p: nat, passes: nat, block: nat, rng: Entropy, ok: bool,
                    after: seq<Byte>, marks0: seq<nat>, marks: seq<nat>)
    requires block > 0 && p < passes && RawEnd(|before|, p, block) == Wiped
    requires var start := PositionAfter(|before|, p);
      && (ok <==> (start == 0 && |before| % block == 0) || |before| == 0)
      && Landing(start, |before|, block) * block <= |before|
      && after == Overwritten(rng, p, Landing(start, |before|, block) * block, RawMedia(before, p, block, rng))
      && marks0 == RawMarks(|before|, p, block)
      && marks == marks0 + MbMarks(block, Landing(start, |before|, block))
    ensures ok ==> RawEnd(|before|, p + 1, block) == Wiped && after == RawMedia(before, p + 1, block, rng)
                   && marks == RawMarks(|before|, p + 1, block)
    ensures !ok ==> RawEnd(|before|, passes, block) == Failed && after == RawMedia(before, passes, block, rng)
                    && marks == RawMarks(|before|, passes, block)
  {
    var size := |before|;
    BlocksAndRemainder(size, block);
    if p == 0 {
      assert marks0 == [];
    } else {
      assert size > 0 ==> size % block == 0;
      assert Landing(size, size, block) == 0 && MbMarks(block, 0) == [];
      assert after == RawMedia(before, p, block, rng);
    }
  }

  /** A second pass over a block-aligned drive, or any pass over an unaligned one, ends in an `OSError`. */
  lemma RawFailures()
    ensures RawEnd(2 * MIB, 2, BLOCK_SIZE) == Failed
    ensures RawEnd(MIB + 512, 1, BLOCK_SIZE) == Failed
  {
  }

  /** The loop completes exactly for no pass, an empty drive, or one pass over a block-aligned drive. */
  lemma RawEndMeans(length: nat, passes: nat, block: nat)
    requires block > 0
    ensures RawEnd(length, passes, block) == Wiped <==>
            passes == 0 || length == 0 || (passes == 1 && length % block == 0)
  {
  }

  /** A pass that fails leaves the tail of an unaligned drive as it was. */
  lemma {:induction false} RawTailUntouched(base: seq<Byte>, passes: nat, block: nat, rng: Entropy)
    requires block > 0 && |base| % block != 0
    ensures RawMedia(base, passes, block, rng)[(|base| / block) * block..] == base[(|base| / block) * block..]
  {
    BlocksAndRemainder(|base|, block);
  }

  /**
   * The writer as evidently intended: each pass seeks back to 0 and its last
   * block is cut to the end of the drive.
   */
  method RewindingPass(h: Handle, p: nat, block: nat, rng: Entropy)
    requires h.isOpen
    requires block > 0
    modifies h`pos, h.data
    ensures h.data[..] == Random(rng, p, 0, h.data.Length)
  {
    ghost var base := h.data[..];
    var size := h.data.Length;
    h.Rewind();
    var written := 0;
    var unhashed: seq<Byte> := [];
    assert Random(rng, p, 0, 0) == [];
    while written < size
      invariant written <= size && h.pos == written && h.data.Length == size
      invariant h.data[..] == Overwritten(rng, p, written, base)
      invariant unhashed == []
    {
      var n := Min(block, size - written);
      unhashed := WriteRandom(h, p, written, n, rng, false, base, [], unhashed);
      written := written + n;
    }
    assert base[size..] == [];
  }

  /** Every pass overwrites the whole drive, and the loop always completes. */
  method WipeDriveRewinding(media: array<Byte>, passes: nat, block: nat, rng: Entropy)
    returns (end: WipeEnd)
    requires block > 0
    modifies media
    ensures end == Wiped
    ensures media[..] == AfterPasses(old(media[..]), rng, passes)
  {
    ghost var before := media[..];
    var h := new Handle.OpenDevice(media);
    var p := 0;
    while p < passes
      invariant p <= passes && h.data == media && h.isOpen
      invariant media[..] == AfterPasses(before, rng, p)
    {
      RewindingPass(h, p, block, rng);
      p := p + 1;
    }
    h.Close();
    end := Wiped;
  }
}
