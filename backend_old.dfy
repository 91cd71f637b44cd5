/**
 * The demonstration writer of backedn_old.py: `wipe_drive_demo` overwrites
 * the first `test_size` bytes of a drive pass after pass, in full blocks and
 * a remainder, feeding every block of every pass to SHA-256.  A failed block
 * write closes the handle and returns the digest so far; a failed remainder
 * write is not caught.  Also `confirm` and the certificate's time fields.
 */
module BackendOld {
  import opened Common
  import opened Storage
  import opened BlockWrites

  /** The defaults: 128 MiB in 1 MiB blocks. */
  const DEMO_SIZE: nat := 128 * 1024 * 1024
  const DEMO_BLOCK: nat := 1024 * 1024

  /**
   * With the defaults a pass is exactly 128 full blocks and no remainder, so
   * the unguarded remainder write never runs and the demo never raises: a
   * drive too small fails at a full block and returns the partial digest.
   */
  lemma DefaultRegion(length: nat, passes: nat, rng: Entropy, sha256: Sha256)
    ensures DEMO_SIZE / DEMO_BLOCK == 128 && DEMO_SIZE % DEMO_BLOCK == 0
    ensures DemoOutcome(true, length, passes, DEMO_SIZE, DEMO_BLOCK, rng, sha256) != Raised
  {
    var k := Landed(length, DEMO_BLOCK, 128);
    if k == 128 {
      assert 128 * DEMO_BLOCK <= length;
    }
  }

  /** The percentages of `k` whole passes. */
  function RunPercents(total: nat, k: nat): seq<nat> {
    if k == 0 then [] else RunPercents(total, k - 1) + Percents(total, total)
  }

  /** The result of `wipe_drive_demo` when the disk opens (`openOk`) or not. */
  function DemoOutcome(openOk: bool, length: nat, passes: nat, size: nat, block: nat,
                       rng: Entropy, sha256: Sha256): Outcome
    requires block > 0
  {
    if !openOk then Returned(Nones)
    else if passes == 0 || size <= length then Returned(Triple(sha256(AllPasses(rng, passes, size))))
    else if PassEndOf(length, size, block) == BlockFailed
    then Returned(Triple(sha256(Random(rng, 0, 0, Reach(length, size, block)))))
    else Raised
  }

  /** The media after `wipe_drive_demo`. */
  function DemoMedia(openOk: bool, base: seq<Byte>, passes: nat, size: nat, block: nat, rng: Entropy): seq<Byte>
    requires block > 0
  {
    if !openOk then base else RegionMedia(base, passes, size, block, rng)
  }

  /** The percentages `wipe_drive_demo` prints. */
  function DemoMarks(openOk: bool, length: nat, passes: nat, size: nat, block: nat): seq<nat>
    requires block > 0
  {
    if !openOk || passes == 0 then []
    else if size <= length then RunPercents(size / block, passes)
    else Percents(size / block, Landed(length, block, size / block))
  }

  /** Block `i` appends its percentage to the lines so far. */
  lemma PercentsStep(marks0: seq<nat>, total: nat, i: nat)
    requires i < total
    ensures marks0 + Percents(total, i + 1) == marks0 + Percents(total, i) + [Percent(i + 1, total)]
  {
    AppendAssoc(marks0, Percents(total, i), [Percent(i + 1, total)]);
  }

  /** The full blocks of one pass, from offset 0, until one does not fit. */
  method WriteBlocks(h: Handle, p: nat, block: nat, total: nat, rng: Entropy,
                     ghost base: seq<Byte>, hashed0: seq<Byte>, marks0: seq<nat>)
    returns (ok: bool, hashed: seq<Byte>, marks: seq<nat>)
    requires h.isOpen
    requires block > 0 && h.pos == 0 && h.data[..] == base
    modifies h`pos, h.data
    ensures ok <==> Landed(|base|, block, total) == total
    ensures h.pos == Landed(|base|, block, total) * block
    ensures h.data[..] == Overwritten(rng, p, h.pos, base)
    ensures hashed == hashed0 + Random(rng, p, 0, h.pos)
    ensures marks == marks0 + Percents(total, Landed(|base|, block, total))
  {
    var length := h.data.Length;
    hashed, marks := hashed0, marks0;
    assert Random(rng, p, 0, 0) == [];
    var i, w := 0, 0;
    while i < total
      invariant i <= total && w == i * block && w <= length && h.pos == w && h.isOpen
      invariant h.data[..] == Overwritten(rng, p, w, base)
      invariant hashed == hashed0 + Random(rng, p, 0, w)
      invariant marks == marks0 + Percents(total, i)
    {
      ok, hashed := TryWriteRandom(h, p, w, block, rng, base, hashed0, hashed);
      if !ok {
        LandedAt(length, block, total, i);
        return;
      }
      PercentsStep(marks0, total, i);
      marks := marks + [Percent(i + 1, total)];
      MulSucc(i, block);
      i, w := i + 1, w + block;
    }
    LandedAt(length, block, total, i);
    ok := true;
  }

  /** One pass: seek to 0, the full blocks, then the unguarded remainder write. */
  method DemoPass(h: Handle, p: nat, size: nat, block: nat, rng: Entropy, hashed0: seq<Byte>, marks0: seq<nat>)
    returns (end: PassEnd, hashed: seq<Byte>, marks: seq<nat>)
    requires h.isOpen
    requires block > 0
    modifies h`pos, h.data
    ensures end == PassEndOf(h.data.Length, size, block)
    ensures h.data[..] == Overwritten(rng, p, Reach(h.data.Length, size, block), old(h.data[..]))
    ensures hashed == hashed0 + Random(rng, p, 0, Reach(h.data.Length, size, block))
    ensures marks == marks0 + Percents(size / block, Landed(h.data.Length, block, size / block))
  {
    ghost var base := h.data[..];
    var total := size / block;
    h.Rewind();
    var ok;
    ok, hashed, marks := WriteBlocks(h, p, block, total, rng, base, hashed0, marks0);
    if !ok {
      return BlockFailed, hashed, marks;
    }
    BlocksAndRemainder(size, block);
    var remaining := size % block;
    if remaining > 0 {
      ok, hashed := TryWriteRandom(h, p, h.pos, remaining, rng, base, hashed0, hashed);
      if !ok {
        return RemainderFailed, hashed, marks;
      }
    }
    end := Done;
  }

  /**
   * `wipe_drive_demo`: when the disk opens, `passes` passes over its first
   * `size` bytes; the result and the media as `DemoOutcome` and `DemoMedia` say.
   */
  method WipeDriveDemo(openOk: bool, media: array<Byte>, passes: nat, size: nat, block: nat,
                       rng: Entropy, sha256: Sha256)
    returns (out: Outcome, marks: seq<nat>)
    requires block > 0
    modifies media
    ensures out == DemoOutcome(openOk, media.Length, passes, size, block, rng, sha256)
    ensures media[..] == DemoMedia(openOk, old(media[..]), passes, size, block, rng)
    ensures marks == DemoMarks(openOk, media.Length, passes, size, block)
  {
    marks := [];
    if !openOk {
      return Returned(Nones), marks;
    }
    ghost var before := media[..];
    var h := new Handle.OpenDevice(media);
    var hashed: seq<Byte> := [];
    var p := 0;
    while p < passes
      invariant p <= passes && h.data == media && h.isOpen
      invariant p > 0 ==> size <= media.Length
      invariant media[..] == PassesDone(before, p, size, rng)
      invariant hashed == AllPasses(rng, p, size)
      invariant marks == RunPercents(size / block, p)
    {
      var end;
      var T := size / block;
      if size <= media.Length {
        RegionFits(media.Length, size, block);
      }
      end, hashed, marks := DemoPass(h, p, size, block, rng, hashed, marks);
      if end == BlockFailed {
        assert p == 0 && size > media.Length;
        assert hashed == Random(rng, 0, 0, Reach(media.Length, size, block));
        h.Close();
        return Returned(Triple(sha256(hashed))), marks;
      } else if end == RemainderFailed {
        return Raised, marks;
      }
      DoneFits(media.Length, size, block);
      RegionFits(media.Length, size, block);
      assert hashed == AllPasses(rng, p + 1, size);
      assert marks == RunPercents(T, p + 1);
      if p > 0 {
        OverwrittenAgain(rng, p, p - 1, size, before);
      }
      p := p + 1;
    }
    h.Close();
    out := Returned(Triple(sha256(hashed)));
  }

  /**
   * Python's `str.isspace`, the characters `str.strip()` removes: the ASCII
   * controls 0x09-0x0D and 0x1C-0x1F, the space, NEL, no-break space and the
   * Unicode separators.
   */
  predicate IsSpace(c: char) {
    ('\U{0009}' <= c <= '\U{000D}') || ('\U{001C}' <= c <= '\U{0020}') || c == '\U{0085}' || c == '\U{00A0}'
    || c == '\U{1680}' || ('\U{2000}' <= c <= '\U{200A}') || c == '\U{2028}' || c == '\U{2029}'
    || c == '\U{202F}' || c == '\U{205F}' || c == '\U{3000}'
  }

  /** `s` without leading white space. */
  function StripLeft(s: string): (r: string)
    ensures |r| <= |s| && r == s[|s| - |r|..]
    ensures |r| > 0 ==> !IsSpace(r[0])
    ensures forall i :: 0 <= i < |s| - |r| ==> IsSpace(s[i])
  {
    if |s| > 0 && IsSpace(s[0]) then
      var r := StripLeft(s[1..]);
      assert s[1..][|s| - 1 - |r|..] == s[|s| - |r|..];
      assert forall i :: 1 <= i < |s| - |r| ==> s[i] == s[1..][i - 1];
      r
    else s
  }

  /** `s` without trailing white space. */
  function StripRight(s: string): (r: string)
    ensures |r| <= |s| && r == s[..|r|]
    ensures |r| > 0 ==> !IsSpace(r[|r| - 1])
    ensures forall i :: |r| <= i < |s| ==> IsSpace(s[i])
  {
    if |s| > 0 && IsSpace(s[|s| - 1]) then
      var r := StripRight(s[..|s| - 1]);
      assert s[..|s| - 1][..|r|] == s[..|r|];
      assert forall i :: |r| <= i < |s| - 1 ==> s[i] == s[..|s| - 1][i];
      r
    else s
  }

  /** `str.strip()`. */
  function Strip(s: string): string {
    StripRight(StripLeft(s))
  }

  /**
   * `confirm`: the stripped, lower-cased answer is "y".  Lower-casing only
   * ASCII letters gives the same verdict as Python's `str.lower`: no other
   * character lower-cases to "y", and none lower-cases to nothing.
   */
  function Confirm(answer: string): bool {
    Lower(Strip(answer)) == "y"
  }

  /** The answer is accepted exactly when it is "y" or "Y" once stripped. */
  lemma ConfirmMeans(answer: string)
    ensures Confirm(answer) <==> Strip(answer) == "y" || Strip(answer) == "Y"
  {
    var s := Strip(answer);
    if |s| == 1 {
      assert Lower(s) == [LowerChar(s[0])];
    } else {
      assert |Lower(s)| != 1;
    }
  }

  /** A string without white space at either end is its own strip. */
  lemma StripPlain(s: string)
    requires |s| > 0 && !IsSpace(s[0]) && !IsSpace(s[|s| - 1])
    ensures Strip(s) == s
  {
  }

  /** White space before a non-space character is stripped. */
  lemma {:induction false} StripLeftSpaces(pre: string, t: string)
    requires forall i :: 0 <= i < |pre| ==> IsSpace(pre[i])
    requires |t| > 0 && !IsSpace(t[0])
    ensures StripLeft(pre + t) == t
    decreases |pre|
  {
    if pre != [] {
      assert (pre + t)[1..] == pre[1..] + t;
      StripLeftSpaces(pre[1..], t);
    }
  }

  /** White space after a non-space character is stripped. */
  lemma {:induction false} StripRightSpaces(t: string, post: string)
    requires forall i :: 0 <= i < |post| ==> IsSpace(post[i])
    requires |t| > 0 && !IsSpace(t[|t| - 1])
    ensures StripRight(t + post) == t
    decreases |post|
  {
    if post != [] {
      assert (t + post)[..|t + post| - 1] == t + post[..|post| - 1];
      StripRightSpaces(t, post[..|post| - 1]);
    }
  }

  /** A non-space answer between white space strips to itself. */
  lemma StripAround(pre: string, t: string, post: string)
    requires forall i :: 0 <= i < |pre| ==> IsSpace(pre[i])
    requires forall i :: 0 <= i < |post| ==> IsSpace(post[i])
    requires |t| > 0 && !IsSpace(t[0]) && !IsSpace(t[|t| - 1])
    ensures Strip(pre + t + post) == t
  {
    assert pre + t + post == pre + (t + post);
    StripLeftSpaces(pre, t + post);
    StripRightSpaces(t, post);
  }

  /** "y" or "Y" with any white space around it, ASCII or not, is accepted. */
  lemma ConfirmAccepts(pre: string, post: string)
    requires forall i :: 0 <= i < |pre| ==> IsSpace(pre[i])
    requires forall i :: 0 <= i < |post| ==> IsSpace(post[i])
    ensures Confirm(pre + "y" + post) && Confirm(pre + "Y" + post)
  {
    StripAround(pre, "y", post);
    ConfirmMeans(pre + "y" + post);
    StripAround(pre, "Y", post);
    ConfirmMeans(pre + "Y" + post);
  }

  /** An empty answer and "yes" are refused. */
  lemma ConfirmRefuses()
    ensures !Confirm("") && !Confirm("yes")
  {
    assert StripLeft("") == "" && StripRight("") == "";
    ConfirmMeans("");
    var yes := "yes";
    assert !IsSpace(yes[0]) && !IsSpace(yes[|yes| - 1]);
    StripPlain(yes);
    ConfirmMeans(yes);
    assert |Strip(yes)| == 3;
  }

  /** The certificate's time fields: `isoformat()` of a clock reading, or "" without one. */
  function TimeField(t: Option<string>): string {
    match t
    case Some(iso) => iso
    case None => ""
  }

  /** The certificate `generate_certificate` writes. */
  datatype DemoCertificate = DemoCertificate(
    disk: int, mediaType: string, sizeBytes: nat, passes: nat, sanitization: string,
    startTime: string, endTime: string, checksum: Option<Hex64>)

  function CertificateOf(disk: int, mediaType: string, sizeBytes: nat, passes: nat, sanitization: string,
                         start: Option<string>, end: Option<string>, checksum: Option<Hex64>): DemoCertificate {
    DemoCertificate(disk, mediaType, sizeBytes, passes, sanitization, TimeField(start), TimeField(end), checksum)
  }

  /** The certificate of a run whose disk did not open: empty times and a null checksum. */
  lemma FailedOpenCertificate(disk: int, mediaType: string, sizeBytes: nat, passes: nat, sanitization: string)
    ensures var c := CertificateOf(disk, mediaType, sizeBytes, passes, sanitization, None, None, None);
      c.startTime == "" && c.endTime == "" && c.checksum == None
  {
  }
}
