/**
 * The desktop demonstration of testdemo1.py: `wipe_drive` opens and locks a
 * volume, then writes `total_blocks` random blocks per pass from offset 0,
 * feeding every block to SHA-256 and reporting the overall progress after
 * each; `wipe_worker` maps the chosen method to a pass count and treats any
 * truthy triple as success.
 */
module TestDemo {
  import opened Common
  import opened Storage
  import opened BlockWrites

  /** `test_size` and `block_size`. */
  const TEST_SIZE: nat := 128 * 1024 * 1024
  const TEST_BLOCK: nat := 1024 * 1024

  /**
   * With the program's constants a pass is 128 full blocks and no remainder,
   * every block lands exactly when the volume holds 128 MiB, and then the
   * digest covers 128 MiB per pass.
   */
  lemma DemoRegion(length: nat, passes: nat, rng: Entropy)
    ensures TEST_SIZE / TEST_BLOCK == 128 && TEST_SIZE % TEST_BLOCK == 0
    ensures passes > 0 ==> (AllLand(length, passes, 128, TEST_BLOCK) <==> length >= TEST_SIZE)
    ensures length >= TEST_SIZE ==> |Digested(length, passes, 128, TEST_BLOCK, rng)| == passes * TEST_SIZE
  {
    AllPassesLength(rng, passes, 128 * TEST_BLOCK);
  }

  /** Whether every block of every pass lands on media of `length` bytes. */
  predicate AllLand(length: nat, passes: nat, total: nat, block: nat) {
    passes == 0 || total * block <= length
  }

  /**
   * What the hash has been fed when the writes stop: every block of every
   * pass, or, on a write error, the blocks of the first pass that landed.
   */
  function Digested(length: nat, passes: nat, total: nat, block: nat, rng: Entropy): seq<Byte>
    requires block > 0
  {
    if AllLand(length, passes, total, block) then AllPasses(rng, passes, total * block)
    else Random(rng, 0, 0, Landed(length, block, total) * block)
  }

  /** The progress values reported once the volume is locked: one per block that lands. */
  function Progress(length: nat, passes: nat, total: nat, block: nat): seq<nat>
    requires block > 0
  {
    if passes == 0 || total == 0 then []
    else if total * block <= length then Percents(passes * total, passes * total)
    else Percents(passes * total, Landed(length, block, total))
  }

  /**
   * The triple `wipe_drive` returns: `(None, None, None)` when the volume
   * cannot be opened or locked, otherwise the digest of what was written,
   * even when a write failed.
   */
  function DemoResult(lockOk: bool, length: nat, passes: nat, total: nat, block: nat,
                      rng: Entropy, sha256: Sha256): Triple
    requires block > 0
  {
    if !lockOk then Nones else Triple(sha256(Digested(length, passes, total, block, rng)))
  }

  /** The media after `wipe_drive`. */
  function DemoMedia(lockOk: bool, base: seq<Byte>, passes: nat, total: nat, block: nat, rng: Entropy): seq<Byte>
    requires block > 0
  {
    if !lockOk then base else RegionMedia(base, passes, total * block, block, rng)
  }

  /** The progress values `wipe_drive` reports. */
  function DemoMarks(lockOk: bool, length: nat, passes: nat, total: nat, block: nat): seq<nat>
    requires block > 0
  {
    if !lockOk then [] else Progress(length, passes, total, block)
  }

  /**
   * The blocks of pass `p`, each followed by the overall progress
   * `int((p * total + i + 1) / (passes * total) * 100)`; `done` is
   * `p * total` and `overall` is `passes * total`.
   */
  method WriteBlocks(h: Handle, p: nat, total: nat, block: nat, done: nat, overall: nat, rng: Entropy,
                     ghost base: seq<Byte>, hashed0: seq<Byte>, marks0: seq<nat>)
    returns (ok: bool, hashed: seq<Byte>, marks: seq<nat>)
    requires h.isOpen
    requires block > 0 && h.pos == 0 && h.data[..] == base
    requires done + total <= overall && marks0 == Percents(overall, done)
    modifies h`pos, h.data
    ensures ok <==> Landed(|base|, block, total) == total
    ensures h.pos == Landed(|base|, block, total) * block
    ensures h.data[..] == Overwritten(rng, p, h.pos, base)
    ensures hashed == hashed0 + Random(rng, p, 0, h.pos)
    ensures marks == Percents(overall, done + Landed(|base|, block, total))
  {
    var length := h.data.Length;
    hashed, marks := hashed0, marks0;
    assert Random(rng, p, 0, 0) == [];
    var i, w := 0, 0;
    while i < total
      invariant i <= total && w == i * block && w <= length && h.pos == w && h.isOpen
      invariant h.data[..] == Overwritten(rng, p, w, base)
      invariant hashed == hashed0 + Random(rng, p, 0, w)
      invariant marks == Percents(overall, done + i)
    {
      ok, hashed := TryWriteRandom(h, p, w, block, rng, base, hashed0, hashed);
      if !ok {
        LandedAt(length, block, total, i);
        return;
      }
      var progress := Percent(done + i + 1, overall);
      marks := marks + [progress];
      MulSucc(i, block);
      i, w := i + 1, w + block;
    }
    LandedAt(length, block, total, i);
    ok := true;
  }

  /** One pass: seek to 0, then the blocks. */
  method DemoPass(h: Handle, p: nat, total: nat, block: nat, done: nat, overall: nat, rng: Entropy,
                  hashed0: seq<Byte>, marks0: seq<nat>)
    returns (ok: bool, hashed: seq<Byte>, marks: seq<nat>)
    requires h.isOpen
    requires block > 0 && done + total <= overall && marks0 == Percents(overall, done)
    modifies h`pos, h.data
    ensures ok <==> total * block <= h.data.Length
    ensures ok ==> Landed(h.data.Length, block, total) == total
    ensures h.data[..] == Overwritten(rng, p, Landed(h.data.Length, block, total) * block, old(h.data[..]))
    ensures hashed == hashed0 + Random(rng, p, 0, Landed(h.data.Length, block, total) * block)
    ensures marks == Percents(overall, done + Landed(h.data.Length, block, total))
  {
    ghost var base := h.data[..];
    h.Rewind();
    ok, hashed, marks := WriteBlocks(h, p, total, block, done, overall, rng, base, hashed0, marks0);
    if total * block <= h.data.Length {
      FitsBelow(total, block, h.data.Length);
    }
  }

  /** The passes of `wipe_drive` over the locked volume behind `h`, until a write fails. */
  method RunPasses(h: Handle, passes: nat, total: nat, block: nat, rng: Entropy)
    returns (hashed: seq<Byte>, marks: seq<nat>)
    requires h.isOpen
    requires block > 0
    modifies h`pos, h.data
    ensures h.data[..] == RegionMedia(old(h.data[..]), passes, total * block, block, rng)
    ensures hashed == Digested(h.data.Length, passes, total, block, rng)
    ensures marks == Progress(h.data.Length, passes, total, block)
  {
    ghost var before := h.data[..];
    hashed, marks := [], [];
    var size := total * block;
    var overall := passes * total;
    var p, done := 0, 0;
    WholeBlocks(total, block);
    while p < passes
      invariant p <= passes && done == p * total && h.isOpen
      invariant p > 0 ==> size <= h.data.Length
      invariant h.data[..] == PassesDone(before, p, size, rng)
      invariant hashed == AllPasses(rng, p, size)
      invariant marks == Percents(overall, done)
    {
      var ok;
      MulMono(p + 1, passes, total);
      MulSucc(p, total);
      ok, hashed, marks := DemoPass(h, p, total, block, done, overall, rng, hashed, marks);
      if !ok {
        assert p == 0 && !AllLand(h.data.Length, passes, total, block);
        assert hashed == Random(rng, 0, 0, Landed(h.data.Length, block, total) * block);
        return;
      }
      assert hashed == AllPasses(rng, p + 1, size);
      if p > 0 {
        OverwrittenAgain(rng, p, p - 1, size, before);
      }
      p, done := p + 1, done + total;
    }
    assert AllLand(h.data.Length, passes, total, block);
  }

  /**
   * `wipe_drive` on the volume `media`: `lockOk` is whether opening, locking
   * and dismounting succeeded.  When any of them fails no handle is
   * returned, and one that was opened is never closed; once the wipe has
   * started the handle is closed on every path.
   */
  method WipeDrive(lockOk: bool, media: array<Byte>, passes: nat, total: nat, block: nat,
                   rng: Entropy, sha256: Sha256)
    returns (t: Triple, marks: seq<nat>, h: Handle?)
    requires block > 0
    modifies media
    ensures t == DemoResult(lockOk, media.Length, passes, total, block, rng, sha256)
    ensures media[..] == DemoMedia(lockOk, old(media[..]), passes, total, block, rng)
    ensures marks == DemoMarks(lockOk, media.Length, passes, total, block)
    ensures (h != null <==> lockOk) && (h != null ==> h.data == media && !h.isOpen)
  {
    if !lockOk {
      return Nones, [], null;
    }
    h := new Handle.OpenDevice(media);
    var hashed;
    hashed, marks := RunPasses(h, passes, total, block, rng);
    h.Close();
    t := Triple(sha256(hashed));
  }

  /** `total` whole blocks make a region of exactly `total` blocks and no remainder. */
  lemma WholeBlocks(total: nat, block: nat)
    requires block > 0
    ensures (total * block) / block == total && (total * block) % block == 0
  {
    BlockMisses(total, block, total * block);
    BlocksAndRemainder(total * block, block);
  }

  /**
   * Overall progress never decreases.  When every block lands it stays below
   * 100 until the final block of the final pass and reports 100 there; after
   * a write error it never reaches 100.
   */
  lemma ProgressShape(length: nat, passes: nat, total: nat, block: nat)
    requires passes > 0 && total > 0 && block > 0
    ensures var m := DemoMarks(true, length, passes, total, block);
      (forall j, k :: 0 <= j <= k < |m| ==> m[j] <= m[k]) &&
      (AllLand(length, passes, total, block) ==>
         |m| == passes * total && (forall j :: 0 <= j < |m| - 1 ==> m[j] < 100) && m[|m| - 1] == 100) &&
      (!AllLand(length, passes, total, block) ==>
         |m| == Landed(length, block, total) < total && forall j :: 0 <= j < |m| ==> m[j] < 100)
  {
    var m := DemoMarks(true, length, passes, total, block);
    MulMono(1, passes, total);
    forall j, k | 0 <= j <= k < |m| ensures m[j] <= m[k] {
      PercentMonotone(j + 1, k + 1, passes * total);
    }
  }

  /** `method_passes.get(method, 1)`. */
  function MethodPasses(method_: string): (n: nat)
    ensures n == 1 || n == 3 || n == 35
  {
    if method_ == "Quick Wipe (1 Pass)" then 1
    else if method_ == "DoD 5220.22-M (3 Passes)" then 3
    else if method_ == "Gutmann (35 Passes)" then 35
    else 1
  }

  /** The three menu entries and an unknown name. */
  lemma MethodPassesTable()
    ensures MethodPasses("Quick Wipe (1 Pass)") == 1
    ensures MethodPasses("DoD 5220.22-M (3 Passes)") == 3
    ensures MethodPasses("Gutmann (35 Passes)") == 35
    ensures MethodPasses("Zero Fill") == 1
  {
  }

  /** `if start_time and end_time and checksum`: the worker announces success. */
  predicate WorkerSucceeds(t: Triple) {
    Truthy(t)
  }

  /** A run whose writes fail part-way through is still announced as a success. */
  lemma WriteErrorReportedAsSuccess(length: nat, passes: nat, total: nat, block: nat, rng: Entropy, sha256: Sha256)
    requires block > 0 && !AllLand(length, passes, total, block)
    ensures WorkerSucceeds(DemoResult(true, length, passes, total, block, rng, sha256))
    ensures Landed(length, block, total) < total
  {
  }

  /** A 64 MiB volume cut short in the first pass of the demonstration. */
  lemma ShortVolumeReportedAsSuccess(rng: Entropy, sha256: Sha256)
    ensures WorkerSucceeds(DemoResult(true, 64 * TEST_BLOCK, 1, 128, TEST_BLOCK, rng, sha256))
  {
    WriteErrorReportedAsSuccess(64 * TEST_BLOCK, 1, 128, TEST_BLOCK, rng, sha256);
  }

  /** The result as evidently intended: a write error is a failure, not a digest. */
  function ReportedResult(lockOk: bool, length: nat, passes: nat, total: nat, block: nat,
                          rng: Entropy, sha256: Sha256): (t: Triple)
    requires block > 0
    ensures WorkerSucceeds(t) <==> lockOk && AllLand(length, passes, total, block)
    ensures WorkerSucceeds(t) ==> t == DemoResult(lockOk, length, passes, total, block, rng, sha256)
  {
    if lockOk && AllLand(length, passes, total, block) then DemoResult(lockOk, length, passes, total, block, rng, sha256)
    else Nones
  }
}
