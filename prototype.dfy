/**
 * The raw-device writer of prototype_1.py: `wipe_drive` overwrites a whole
 * physical drive with fresh random data, pass after pass, in full blocks
 * followed by a remainder block, and feeds only the last pass to SHA-256;
 * `start_wipe` chooses the number of passes from the menu label.
 */
module Prototype {
  import opened Common
  import opened Storage
  import opened BlockWrites

  /**
   * The progress values one pass of `total` full blocks reports after its
   * first `i` blocks: `int(i / total * 100)` for every 50th block.
   */
  function PassMarks(total: nat, i: nat): (r: seq<nat>)
    requires i <= total
    ensures forall k :: 0 <= k < |r| ==> r[k] < 100
    ensures i > 0 ==> |r| > 0 && r[0] == 0
  {
    if i == 0 then []
    else PassMarks(total, i - 1) + BlockMark(i - 1, total)
  }

  /** The progress values of `k` whole passes. */
  function RunMarks(total: nat, k: nat): seq<nat> {
    if k == 0 then [] else RunMarks(total, k - 1) + PassMarks(total, total)
  }

  /** `"Quick" in method`: one pass for the quick wipe, two otherwise. */
  function StartWipePasses(choice: string): nat {
    if Contains(choice, "Quick") then 1 else 2
  }

  /**
   * The values `wipe_drive` reports over `k` passes: every pass repeats the
   * same marks, which start at 0 and stay below 100, and 100 is sent once, last.
   */
  lemma PassProgressRestarts(total: nat, k: nat)
    requires total > 0
    ensures var m := PassMarks(total, total); var run := RunMarks(total, k) + [100];
      |m| > 0 && m[0] == 0 && |run| == k * |m| + 1 && run[|run| - 1] == 100
      && (forall j :: 0 <= j < |run| - 1 ==> run[j] < 100 && run[j] == m[j % |m|])
  {
    RunMarksRepeat(total, k);
  }

  /** `k` passes report the marks of one pass `k` times over. */
  lemma {:induction false} RunMarksRepeat(total: nat, k: nat)
    requires total > 0
    ensures var m := PassMarks(total, total); var r := RunMarks(total, k);
      |m| > 0 && |r| == k * |m| && forall j :: 0 <= j < |r| ==> r[j] == m[j % |m|]
  {
    var m := PassMarks(total, total);
    if k > 0 {
      RunMarksRepeat(total, k - 1);
      var n, q := |m|, k - 1;
      var r0 := RunMarks(total, q);
      var r := r0 + m;
      assert |r0| == q * n;
      MulSucc(q, n);
      forall j | |r0| <= j < |r| ensures r[j] == m[j % n] {
        InLastPass(q, n, j);
      }
    }
  }

  /** An index in the `q + 1`-th run of `n` marks is `j - q * n` into that run. */
  lemma InLastPass(q: nat, n: nat, j: nat)
    requires n > 0 && q * n <= j < q * n + n
    ensures j % n == j - q * n
  {
    BlockMisses(q, n, j);
  }

  /** The two menu entries select one and two passes. */
  lemma MenuPasses()
    ensures StartWipePasses("Quick Wipe") == 1
    ensures StartWipePasses("Full Wipe (2-pass Random)") == 2
  {
    assert OccursAt("Quick Wipe", "Quick", 0);
    NotContains("Full Wipe (2-pass Random)", "Quick");
  }

  /** The mark block `i` of a pass of `total` blocks adds: every 50th block reports its percentage. */
  function BlockMark(i: nat, total: nat): seq<nat>
    requires i < total
  {
    if i % 50 == 0 then [Percent(i, total)] else []
  }

  /** The full blocks of one pass, from offset 0, and their progress marks. */
  method WriteBlocks(h: Handle, p: nat, hashIt: bool, block: nat, rng: Entropy,
                     ghost base: seq<Byte>, hashed0: seq<Byte>, marks0: seq<nat>)
    returns (hashed: seq<Byte>, marks: seq<nat>)
    requires h.isOpen
    requires block > 0 && h.pos == 0 && h.data[..] == base
    modifies h`pos, h.data
    ensures h.pos == (|base| / block) * block <= |base|
    ensures h.data[..] == Overwritten(rng, p, h.pos, base)
    ensures hashed == hashed0 + Fed(hashIt, rng, p, h.pos)
    ensures marks == marks0 + PassMarks(|base| / block, |base| / block)
  {
    var size := h.data.Length;
    var total := size / block;
    hashed, marks := hashed0, marks0;
    assert Random(rng, p, 0, 0) == [];
    var i, w := 0, 0;
    while i < total
      invariant i <= total && w == i * block && w <= size && h.pos == w && h.isOpen
      invariant h.data[..] == Overwritten(rng, p, w, base)
      invariant hashed == hashed0 + Fed(hashIt, rng, p, w)
      invariant marks == marks0 + PassMarks(total, i)
    {
      BlockFits(i, block, size);
      hashed := WriteRandom(h, p, w, block, rng, hashIt, base, hashed0, hashed);
      AppendAssoc(marks0, PassMarks(total, i), BlockMark(i, total));
      marks := marks + BlockMark(i, total);
      MulSucc(i, block);
      i, w := i + 1, w + block;
    }
  }

  /**
   * One pass: seek to 0, write `size // block` fresh random blocks and then
   * the remainder, feed them to the hash when `hashIt` holds, and `fsync`.
   */
  method WipePass(h: Handle, p: nat, hashIt: bool, block: nat, rng: Entropy, hashed0: seq<Byte>, marks0: seq<nat>)
    returns (hashed: seq<Byte>, marks: seq<nat>)
    requires block > 0 && h.isOpen
    modifies h`pos, h`syncs, h.data
    ensures h.isOpen && h.syncs == old(h.syncs) + 1
    ensures h.data[..] == Random(rng, p, 0, h.data.Length)
    ensures hashed == hashed0 + Fed(hashIt, rng, p, h.data.Length)
    ensures marks == marks0 + PassMarks(h.data.Length / block, h.data.Length / block)
  {
    ghost var base := h.data[..];
    h.Rewind();
    hashed, marks := WriteBlocks(h, p, hashIt, block, rng, base, hashed0, marks0);
    var size := h.data.Length;
    BlocksAndRemainder(size, block);
    var remaining := size % block;
    if remaining > 0 {
      hashed := WriteRandom(h, p, h.pos, remaining, rng, hashIt, base, hashed0, hashed);
    }
    assert base[size..] == [];
    h.Sync();
  }

  /** What the hash has been fed after `k` of `passes` passes: the last pass only. */
  function LastPassFed(rng: Entropy, k: nat, passes: nat, n: nat): seq<Byte> {
    if k == passes && k > 0 then Random(rng, k - 1, 0, n) else []
  }

  /**
   * `wipe_drive`: `passes` passes over the whole drive `media`; the result
   * carries the SHA-256 of the last pass, and 100 is reported once at the end.
   */
  method WipeDrive(media: array<Byte>, passes: nat, block: nat, rng: Entropy, sha256: Sha256)
    returns (h: Handle, marks: seq<nat>, t: Triple)
    requires block > 0
    modifies media
    ensures fresh(h) && h.data == media && !h.isOpen && h.syncs == passes
    ensures media[..] == AfterPasses(old(media[..]), rng, passes)
    ensures t == Triple(sha256(LastPassFed(rng, passes, passes, media.Length)))
    ensures marks == RunMarks(media.Length / block, passes) + [100]
  {
    ghost var before := media[..];
    h := new Handle.OpenDevice(media);
    var hashed: seq<Byte> := [];
    marks := [];
    var p := 0;
    while p < passes
      invariant p <= passes
      invariant h.data == media && h.isOpen && h.syncs == p
      invariant media[..] == AfterPasses(before, rng, p)
      invariant hashed == LastPassFed(rng, p, passes, media.Length)
      invariant marks == RunMarks(media.Length / block, p)
    {
      hashed, marks := WipePass(h, p, p == passes - 1, block, rng, hashed, marks);
      p := p + 1;
    }
    h.Close();
    marks := marks + [100];
    t := Triple(sha256(hashed));
  }
}
