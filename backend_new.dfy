/**
 * The demonstration writer of data-wipe-backend-new.py: `wipe_drive_demo`
 * has the same pass structure as the older demonstration (seek to 0, full
 * blocks, remainder, every block fed to SHA-256), but catches nothing: a
 * failed open or write escapes, and a progress line is printed for every
 * fourth block.
 */
module BackendNew {
  import opened Common
  import opened Storage
  import opened BlockWrites

  /** A progress line: it reports block `done` of `total`. */
  datatype Mark = Mark(done: nat, total: nat)

  /** The value a line prints: `(done / total) * 100`, in exact arithmetic. */
  function Percentage(m: Mark): (r: real)
    ensures m.done < m.total ==> 0.0 <= r < 100.0
  {
    if m.total == 0 then 0.0 else (m.done as real / m.total as real) * 100.0
  }

  /** The progress line of block `i`: one for every fourth block. */
  function QuarterMark(i: nat, total: nat): (r: seq<Mark>)
    requires i < total
    ensures forall k :: 0 <= k < |r| ==> r[k].done < r[k].total
  {
    if i % 4 == 0 then [Mark(i, total)] else []
  }

  /** The progress lines after the first `k` blocks of a pass. */
  function NewMarks(total: nat, k: nat): (r: seq<Mark>)
    requires k <= total
    ensures forall j :: 0 <= j < |r| ==> r[j].done < r[j].total
  {
    if k == 0 then [] else NewMarks(total, k - 1) + QuarterMark(k - 1, total)
  }

  /** Every value printed during a pass lies in [0, 100): 100% is never printed. */
  lemma PassPercentages(total: nat, k: nat)
    requires k <= total
    ensures forall j :: 0 <= j < |NewMarks(total, k)| ==> 0.0 <= Percentage(NewMarks(total, k)[j]) < 100.0
  {
    var r := NewMarks(total, k);
    forall j | 0 <= j < |r| ensures 0.0 <= Percentage(r[j]) < 100.0 {
      assert r[j].done < r[j].total;
    }
  }

  /** Block `i` appends its own line, if any, to the lines so far. */
  lemma NewMarksStep(marks0: seq<Mark>, total: nat, i: nat)
    requires i < total
    ensures marks0 + NewMarks(total, i + 1) == marks0 + NewMarks(total, i) + QuarterMark(i, total)
  {
    AppendAssoc(marks0, NewMarks(total, i), QuarterMark(i, total));
  }

  /** The progress lines of `k` whole passes. */
  function RunMarks(total: nat, k: nat): seq<Mark> {
    if k == 0 then [] else RunMarks(total, k - 1) + NewMarks(total, total)
  }

  /** The result of `wipe_drive_demo`: a digest of every pass, or an exception. */
  function NewOutcome(openOk: bool, length: nat, passes: nat, size: nat, rng: Entropy, sha256: Sha256): Outcome {
    if openOk && (passes == 0 || size <= length) then Returned(Triple(sha256(AllPasses(rng, passes, size))))
    else Raised
  }

  /** The progress lines `wipe_drive_demo` prints. */
  function NewRunMarks(openOk: bool, length: nat, passes: nat, size: nat, block: nat): seq<Mark>
    requires block > 0
  {
    if !openOk || passes == 0 then []
    else if size <= length then RunMarks(size / block, passes)
    else NewMarks(size / block, Landed(length, block, size / block))
  }

  /**
   * Either every pass is written over the whole region and every byte of
   * every pass is hashed, or the call raises.
   */
  lemma CompletesOrRaises(openOk: bool, base: seq<Byte>, passes: nat, size: nat, block: nat,
                          rng: Entropy, sha256: Sha256)
    requires block > 0
    ensures NewOutcome(openOk, |base|, passes, size, rng, sha256) != Raised <==> openOk && (passes == 0 || size <= |base|)
    ensures NewOutcome(openOk, |base|, passes, size, rng, sha256) != Raised && passes > 0 ==>
      RegionMedia(base, passes, size, block, rng)[..size] == Random(rng, passes - 1, 0, size) &&
      |AllPasses(rng, passes, size)| == passes * size
  {
    AllPassesLength(rng, passes, size);
  }

  /** The full blocks of one pass, from offset 0, until one does not fit. */
  method WriteBlocks(h: Handle, p: nat, block: nat, total: nat, rng: Entropy,
                     ghost base: seq<Byte>, hashed0: seq<Byte>, marks0: seq<Mark>)
    returns (ok: bool, hashed: seq<Byte>, marks: seq<Mark>)
    requires h.isOpen
    requires block > 0 && h.pos == 0 && h.data[..] == base
    modifies h`pos, h.data
    ensures ok <==> Landed(|base|, block, total) == total
    ensures h.pos == Landed(|base|, block, total) * block
    ensures h.data[..] == Overwritten(rng, p, h.pos, base)
    ensures hashed == hashed0 + Random(rng, p, 0, h.pos)
    ensures marks == marks0 + NewMarks(total, Landed(|base|, block, total))
  {
    var length := h.data.Length;
    hashed, marks := hashed0, marks0;
    assert Random(rng, p, 0, 0) == [];
    var i, w := 0, 0;
    while i < total
      invariant i <= total && w == i * block && w <= length && h.pos == w && h.isOpen
      invariant h.data[..] == Overwritten(rng, p, w, base)
      invariant hashed == hashed0 + Random(rng, p, 0, w)
      invariant marks == marks0 + NewMarks(total, i)
    {
      ok, hashed := TryWriteRandom(h, p, w, block, rng, base, hashed0, hashed);
      if !ok {
        LandedAt(length, block, total, i);
        return;
      }
      NewMarksStep(marks0, total, i);
      marks := marks + QuarterMark(i, total);
      MulSucc(i, block);
      i, w := i + 1, w + block;
    }
    LandedAt(length, block, total, i);
    ok := true;
  }

  /** One pass: seek to 0, the full blocks, then the remainder; `ok` is false when a write raised. */
  method NewPass(h: Handle, p: nat, size: nat, block: nat, rng: Entropy, hashed0: seq<Byte>, marks0: seq<Mark>)
    returns (ok: bool, hashed: seq<Byte>, marks: seq<Mark>)
    requires h.isOpen
    requires block > 0
    modifies h`pos, h.data
    ensures ok <==> PassEndOf(h.data.Length, size, block) == Done
    ensures h.data[..] == Overwritten(rng, p, Reach(h.data.Length, size, block), old(h.data[..]))
    ensures hashed == hashed0 + Random(rng, p, 0, Reach(h.data.Length, size, block))
    ensures marks == marks0 + NewMarks(size / block, Landed(h.data.Length, block, size / block))
  {
    ghost var base := h.data[..];
    var total := size / block;
    h.Rewind();
    ok, hashed, marks := WriteBlocks(h, p, block, total, rng, base, hashed0, marks0);
    if !ok {
      return;
    }
    BlocksAndRemainder(size, block);
    var remaining := size % block;
    if remaining > 0 {
      ok, hashed := TryWriteRandom(h, p, h.pos, remaining, rng, base, hashed0, hashed);
    }
  }

  /** A pass that ends normally extends the media, hash input and lines of the earlier passes by one pass. */
  lemma PassCompleted(before: seq<Byte>, current: seq<Byte>, after: seq<Byte>, p: nat, size: nat, block: nat,
                      rng: Entropy, hashed0: seq<Byte>, hashed: seq<Byte>, marks0: seq<Mark>, marks: seq<Mark>)
    requires block > 0 && PassEndOf(|before|, size, block) == Done
    requires current == PassesDone(before, p, size, rng) && |current| == |before|
    requires after == Overwritten(rng, p, Reach(|before|, size, block), current)
    requires hashed0 == AllPasses(rng, p, size) && hashed == hashed0 + Random(rng, p, 0, Reach(|before|, size, block))
    requires marks0 == RunMarks(size / block, p)
    requires marks == marks0 + NewMarks(size / block, Landed(|before|, block, size / block))
    ensures size <= |before| && after == PassesDone(before, p + 1, size, rng)
    ensures hashed == AllPasses(rng, p + 1, size) && marks == RunMarks(size / block, p + 1)
  {
    DoneFits(|before|, size, block);
    RegionFits(|before|, size, block);
    if p > 0 {
      OverwrittenAgain(rng, p, p - 1, size, before);
    }
  }

  /** The first pass raising leaves the landed part of that pass and its lines, as the call promises. */
  lemma PassRaised(before: seq<Byte>, after: seq<Byte>, passes: nat, size: nat, block: nat, rng: Entropy,
                   marks: seq<Mark>)
    requires block > 0 && passes > 0 && size > |before|
    requires after == Overwritten(rng, 0, Reach(|before|, size, block), before)
    requires marks == RunMarks(size / block, 0) + NewMarks(size / block, Landed(|before|, block, size / block))
    ensures after == RegionMedia(before, passes, size, block, rng)
    ensures marks == NewRunMarks(true, |before|, passes, size, block)
  {
    assert RunMarks(size / block, 0) == [];
  }

  /**
   * `wipe_drive_demo`: when the disk opens, `passes` passes over its first
   * `size` bytes; any failure escapes as an exception.
   */
  method WipeDriveDemo(openOk: bool, media: array<Byte>, passes: nat, size: nat, block: nat,
                       rng: Entropy, sha256: Sha256)
    returns (out: Outcome, marks: seq<Mark>)
    requires block > 0
    modifies media
    ensures out == NewOutcome(openOk, media.Length, passes, size, rng, sha256)
    ensures media[..] == if openOk then RegionMedia(old(media[..]), passes, size, block, rng) else old(media[..])
    ensures marks == NewRunMarks(openOk, media.Length, passes, size, block)
  {
    marks := [];
    if !openOk {
      return Raised, marks;
    }
    ghost var before := media[..];
    var h := new Handle.OpenDevice(media);
    var hashed: seq<Byte> := [];
    var p := 0;
    while p < passes
      invariant p <= passes && h.data == media && h.isOpen
      invariant p > 0 ==> size <= media.Length
      invariant media[..] == PassesDone(before, p, size, rng)
      invariant hashed == AllPasses(rng, p, size)
      invariant marks == RunMarks(size / block, p)
    {
      var ok;
      var T := size / block;
      if size <= media.Length {
        RegionFits(media.Length, size, block);
      }
      ghost var current, hashed0, marks0 := media[..], hashed, marks;
      ok, hashed, marks := NewPass(h, p, size, block, rng, hashed, marks);
      if !ok {
        PassRaised(before, media[..], passes, size, block, rng, marks);
        return Raised, marks;
      }
      PassCompleted(before, current, media[..], p, size, block, rng, hashed0, hashed, marks0, marks);
      p := p + 1;
    }
    h.Close();
    out := Returned(Triple(sha256(hashed)));
  }
}
