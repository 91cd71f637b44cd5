/**
 * What `SecureWipeEngine.wipe_file` does to a file, as a list of steps.
 * Each step is preceded by one read of the stop flag: `BeginPass` sets the
 * status to "Pass n/total" and seeks to offset 0; `WriteChunk` writes one
 * chunk and records the counter and the progress value it leaves behind.
 */
module WipePlan {
  import opened Common
  import opened WipePatterns
  import opened Storage


  /** `current_status`: "Idle", "Pass n/total" or "Wiping file i/total". */
  datatype Status = Idle | PassStatus(passNum: nat, total: nat) | FileStatus(index: nat, total: nat)

  datatype Step =
    | BeginPass(passNum: nat, total: nat)
    | WriteChunk(pos: nat, data: seq<Byte>, written: nat, progress: real)

  /** `((pass_num - 1) + bytes_written / file_size) / total_passes * 100`, in exact arithmetic. */
  function Progress(passNum: nat, written: nat, size: nat, total: nat): real
    requires size > 0 && total > 0
  {
    ((passNum - 1) as real + written as real / size as real) / total as real * 100.0
  }

  /**
   * The chunks of pass `passNum` once `written` bytes have been counted and
   * the file position is `pos`.  A random pass draws `chunk` fresh bytes; a
   * fixed pass writes `pattern_data[:chunk]`, at most the pattern's length,
   * yet the counter advances by the whole `chunk`.
   */
  function PassSteps(spec: PassSpec, passNum: nat, total: nat, rng: Entropy,
                     size: nat, written: nat, pos: nat): seq<Step>
    requires total > 0
    decreases size - written
  {
    if written >= size then []
    else
      var chunk := Min(4096, size - written);
      var data := if spec.RandomData? then Random(rng, passNum, written, chunk) else Take(spec.data, chunk);
      [WriteChunk(pos, data, written + chunk, Progress(passNum, written + chunk, size, total))]
        + PassSteps(spec, passNum, total, rng, size, written + chunk, pos + |data|)
  }

  /** The steps of passes `from + 1 .. |pattern|`. */
  function PlanFrom(pattern: seq<PassSpec>, from: nat, rng: Entropy, size: nat): seq<Step>
    decreases |pattern| - from
  {
    if from >= |pattern| then []
    else
      [BeginPass(from + 1, |pattern|)]
        + PassSteps(pattern[from], from + 1, |pattern|, rng, size, 0, 0)
        + PlanFrom(pattern, from + 1, rng, size)
  }

  /** Every step `wipe_file` performs on a file of `size` bytes, in order. */
  function Plan(pattern: seq<PassSpec>, rng: Entropy, size: nat): seq<Step> {
    PlanFrom(pattern, 0, rng, size)
  }

  predicate Fits(s: Step, n: nat) {
    s.WriteChunk? ==> s.pos + |s.data| <= n
  }

  predicate AllFit(steps: seq<Step>, n: nat) {
    forall i :: 0 <= i < |steps| ==> Fits(steps[i], n)
  }

  /**
   * The file content after performing step `s` on `content`; a write that
   * would run past the end changes nothing (no step of a plan does, see
   * `PlanFits`).
   */
  function Exec(s: Step, content: seq<Byte>): (r: seq<Byte>)
    ensures |r| == |content|
    ensures s.WriteChunk? && Fits(s, |content|) ==> r == Splice(content, s.pos, s.data)
    ensures !(s.WriteChunk? && Fits(s, |content|)) ==> r == content
  {
    match s
    case BeginPass(_, _) => content
    case WriteChunk(pos, data, _, _) => if pos + |data| <= |content| then Splice(content, pos, data) else content
  }

  /** The file content after performing `steps` on `content`, in order. */
  function Apply(steps: seq<Step>, content: seq<Byte>): (r: seq<Byte>)
    ensures |r| == |content|
    decreases |steps|
  {
    if steps == [] then content
    else Apply(steps[1..], Exec(steps[0], content))
  }

  /** `current_status` after `steps`, starting from `init`. */
  function StatusAfter(steps: seq<Step>, init: Status): Status {
    if steps == [] then init
    else match steps[|steps| - 1]
      case BeginPass(n, t) => PassStatus(n, t)
      case WriteChunk(_, _, _, _) => StatusAfter(steps[..|steps| - 1], init)
  }

  /** `progress` after `steps`, starting from `init`. */
  function ProgressAfter(steps: seq<Step>, init: real): real {
    if steps == [] then init
    else match steps[|steps| - 1]
      case BeginPass(_, _) => ProgressAfter(steps[..|steps| - 1], init)
      case WriteChunk(_, _, _, p) => p
  }

  /** The progress values a run reports, in order. */
  function Marks(steps: seq<Step>): seq<real> {
    if steps == [] then []
    else match steps[0]
      case BeginPass(_, _) => Marks(steps[1..])
      case WriteChunk(_, _, _, p) => [p] + Marks(steps[1..])
  }

  /** How many bytes the steps actually write. */
  function BytesWritten(steps: seq<Step>): nat {
    if steps == [] then 0
    else (if steps[0].WriteChunk? then |steps[0].data| else 0) + BytesWritten(steps[1..])
  }

  // ----- structural lemmas -----

  lemma {:induction false} ApplyAppend(a: seq<Step>, b: seq<Step>, content: seq<Byte>)
    ensures Apply(a + b, content) == Apply(b, Apply(a, content))
    decreases |a|
  {
    if a == [] {
      assert a + b == b;
    } else {
      assert (a + b)[1..] == a[1..] + b;
      ApplyAppend(a[1..], b, Exec(a[0], content));
    }
  }

  lemma AllFitCons(s: Step, rest: seq<Step>, n: nat)
    requires Fits(s, n) && AllFit(rest, n)
    ensures AllFit([s] + rest, n)
  {
    var steps := [s] + rest;
    forall i | 0 <= i < |steps| ensures Fits(steps[i], n) {
      if i > 0 { assert steps[i] == rest[i - 1]; }
    }
  }

  /** Performing `steps`, which start with `s`, is performing the rest on what `s` produced. */
  lemma ApplyStep(steps: seq<Step>, s: Step, rest: seq<Step>, content: seq<Byte>, next: seq<Byte>)
    requires steps == [s] + rest && Exec(s, content) == next
    ensures Apply(steps, content) == Apply(rest, next)
  {
    ApplyCons(s, rest, content);
  }

  lemma ApplyCons(s: Step, rest: seq<Step>, content: seq<Byte>)
    ensures Apply([s] + rest, content) == Apply(rest, Exec(s, content))
  {
    var steps := [s] + rest;
    assert steps[0] == s && steps[1..] == rest;
  }

  /** The status after `a + b` is the status after `b`, started from the status after `a`. */
  lemma {:induction false} StatusAfterAppend(a: seq<Step>, b: seq<Step>, init: Status)
    ensures StatusAfter(a + b, init) == StatusAfter(b, StatusAfter(a, init))
    decreases |b|
  {
    if b != [] {
      var b' := b[..|b| - 1];
      assert (a + b)[..|a + b| - 1] == a + b';
      assert (a + b)[|a + b| - 1] == b[|b| - 1];
      StatusAfterAppend(a, b', init);
    } else {
      assert a + b == a;
    }
  }

  /** A chunk write leaves the status as it was. */
  lemma StatusAfterChunk(s: Step, rest: seq<Step>, init: Status)
    requires s.WriteChunk?
    ensures StatusAfter([s] + rest, init) == StatusAfter(rest, init)
  {
    StatusAfterAppend([s], rest, init);
    assert [s][..0] == [];
  }

  /** The progress after `a + b` is the progress after `b`, started from the progress after `a`. */
  lemma {:induction false} ProgressAfterAppend(a: seq<Step>, b: seq<Step>, init: real)
    ensures ProgressAfter(a + b, init) == ProgressAfter(b, ProgressAfter(a, init))
    decreases |b|
  {
    if b != [] {
      var b' := b[..|b| - 1];
      assert (a + b)[..|a + b| - 1] == a + b';
      assert (a + b)[|a + b| - 1] == b[|b| - 1];
      ProgressAfterAppend(a, b', init);
    } else {
      assert a + b == a;
    }
  }

  /** The first step of the remaining passes. */
  lemma PlanFromCons(pattern: seq<PassSpec>, from: nat, rng: Entropy, size: nat)
    requires from < |pattern|
    ensures PlanFrom(pattern, from, rng, size)
         == [BeginPass(from + 1, |pattern|)]
            + (PassSteps(pattern[from], from + 1, |pattern|, rng, size, 0, 0) + PlanFrom(pattern, from + 1, rng, size))
  {
  }

  /** The next chunk of a pass. */
  lemma PassStepsCons(spec: PassSpec, passNum: nat, total: nat, rng: Entropy,
                      size: nat, written: nat, pos: nat, chunk: nat, data: seq<Byte>)
    requires total > 0 && written < size && chunk == Min(4096, size - written)
    requires data == if spec.RandomData? then Random(rng, passNum, written, chunk) else Take(spec.data, chunk)
    ensures PassSteps(spec, passNum, total, rng, size, written, pos)
         == [WriteChunk(pos, data, written + chunk, Progress(passNum, written + chunk, size, total))]
            + PassSteps(spec, passNum, total, rng, size, written + chunk, pos + |data|)
  {
  }

  /** Performing a pass is writing its next chunk, then performing the rest of the pass. */
  lemma ApplyPassStep(spec: PassSpec, passNum: nat, total: nat, rng: Entropy, size: nat,
                      written: nat, pos: nat, chunk: nat, data: seq<Byte>, c: seq<Byte>)
    requires total > 0 && written < size && chunk == Min(4096, size - written)
    requires data == if spec.RandomData? then Random(rng, passNum, written, chunk) else Take(spec.data, chunk)
    requires |c| == size && pos + |data| <= size
    ensures Apply(PassSteps(spec, passNum, total, rng, size, written, pos), c)
         == Apply(PassSteps(spec, passNum, total, rng, size, written + chunk, pos + |data|), Splice(c, pos, data))
  {
    PassStepsCons(spec, passNum, total, rng, size, written, pos, chunk, data);
    ApplyCons(WriteChunk(pos, data, written + chunk, Progress(passNum, written + chunk, size, total)),
              PassSteps(spec, passNum, total, rng, size, written + chunk, pos + |data|), c);
  }

  /** A chunk of a pass fits between the file position and the end of the file. */
  lemma ChunkFits(spec: PassSpec, n: nat, rng: Entropy, size: nat, written: nat, pos: nat, chunk: nat, data: seq<Byte>)
    requires pos <= written < size && chunk == Min(4096, size - written)
    requires data == if spec.RandomData? then Random(rng, n, written, chunk) else Take(spec.data, chunk)
    ensures pos + |data| <= written + chunk <= size
  {
  }

  lemma {:induction false} PassStepsFit(spec: PassSpec, passNum: nat, total: nat, rng: Entropy,
                                        size: nat, written: nat, pos: nat)
    requires total > 0 && pos <= written
    ensures AllFit(PassSteps(spec, passNum, total, rng, size, written, pos), size)
    decreases size - written
  {
    if written < size {
      var chunk := Min(4096, size - written);
      var data := if spec.RandomData? then Random(rng, passNum, written, chunk) else Take(spec.data, chunk);
      var first := WriteChunk(pos, data, written + chunk, Progress(passNum, written + chunk, size, total));
      var rest := PassSteps(spec, passNum, total, rng, size, written + chunk, pos + |data|);
      PassStepsCons(spec, passNum, total, rng, size, written, pos, chunk, data);
      PassStepsFit(spec, passNum, total, rng, size, written + chunk, pos + |data|);
      ChunkFits(spec, passNum, rng, size, written, pos, chunk, data);
      AllFitCons(first, rest, size);
    }
  }

  lemma {:induction false} PlanFromFits(pattern: seq<PassSpec>, from: nat, rng: Entropy, size: nat)
    ensures AllFit(PlanFrom(pattern, from, rng, size), size)
    decreases |pattern| - from
  {
    if from < |pattern| {
      PassStepsFit(pattern[from], from + 1, |pattern|, rng, size, 0, 0);
      PlanFromFits(pattern, from + 1, rng, size);
    }
  }

  /** Every write of the plan lies inside the file. */
  lemma PlanFits(pattern: seq<PassSpec>, rng: Entropy, size: nat)
    ensures AllFit(Plan(pattern, rng, size), size)
  {
    PlanFromFits(pattern, 0, rng, size);
  }

  // ----- what one pass writes -----

  /** The random pass reads the stream at the counter, so the chunks tile the file. */
  lemma {:induction false} RandomPassFrom(passNum: nat, total: nat, rng: Entropy, size: nat,
                                          w: nat, c: seq<Byte>)
    requires total > 0 && w <= size && |c| == size && c[..w] == Random(rng, passNum, 0, w)
    ensures AllFit(PassSteps(RandomData, passNum, total, rng, size, w, w), size)
    ensures Apply(PassSteps(RandomData, passNum, total, rng, size, w, w), c) == Random(rng, passNum, 0, size)
    decreases size - w
  {
    PassStepsFit(RandomData, passNum, total, rng, size, w, w);
    if w == size {
      assert c == c[..w];
    } else {
      var chunk := Min(4096, size - w);
      var data := Random(rng, passNum, w, chunk);
      var head := WriteChunk(w, data, w + chunk, Progress(passNum, w + chunk, size, total));
      var rest := PassSteps(RandomData, passNum, total, rng, size, w + chunk, w + chunk);
      var s := PassSteps(RandomData, passNum, total, rng, size, w, w);
      assert s[0] == head && s[1..] == rest;
      var c1 := Splice(c, w, data);
      RandomConcat(rng, passNum, 0, w, chunk);
      assert c1[..w + chunk] == c1[..w] + c1[w..w + chunk];
      RandomPassFrom(passNum, total, rng, size, w + chunk, c1);
    }
  }

  /** A random pass overwrites every byte of the file, whatever it held before. */
  lemma RandomPassOverwrites(passNum: nat, total: nat, rng: Entropy, content: seq<Byte>)
    requires total > 0
    ensures AllFit(PassSteps(RandomData, passNum, total, rng, |content|, 0, 0), |content|)
    ensures Apply(PassSteps(RandomData, passNum, total, rng, |content|, 0, 0), content)
         == Random(rng, passNum, 0, |content|)
  {
    RandomPassFrom(passNum, total, rng, |content|, 0, content);
  }

  /**
   * The chunks of a random pass from a 4096-aligned counter `w`: chunk `i`
   * moves the counter to `min(w + 4096 * (i + 1), size)` and is exactly as
   * long as that advance, so there are ceil((size - w) / 4096) of them.
   */
  lemma {:induction false} RandomChunksFrom(passNum: nat, total: nat, rng: Entropy, size: nat, w: nat, pos: nat)
    requires total > 0 && w <= size && w % 4096 == 0
    ensures var s := PassSteps(RandomData, passNum, total, rng, size, w, pos);
      && |s| == (size - w + 4096 - 1) / 4096
      && forall i :: 0 <= i < |s| ==>
           && s[i].WriteChunk?
           && s[i].written == Min(w + 4096 * (i + 1), size)
           && |s[i].data| == s[i].written - (w + 4096 * i)
    decreases size - w
  {
    var s := PassSteps(RandomData, passNum, total, rng, size, w, pos);
    if w < size {
      var chunk := Min(4096, size - w);
      var rest := PassSteps(RandomData, passNum, total, rng, size, w + chunk, pos + chunk);
      assert s == [s[0]] + rest;
      if size - w > 4096 {
        RandomChunksFrom(passNum, total, rng, size, w + chunk, pos + chunk);
        forall i | 1 <= i < |s|
          ensures s[i].WriteChunk? && s[i].written == Min(w + 4096 * (i + 1), size)
          ensures |s[i].data| == s[i].written - (w + 4096 * i)
        {
          assert s[i] == rest[i - 1];
        }
      } else {
        assert rest == [];
      }
    }
  }

  /** For a random pass the chunk lengths add up to exactly the file size. */
  lemma {:induction false} RandomPassBytes(passNum: nat, total: nat, rng: Entropy, size: nat, w: nat, pos: nat)
    requires total > 0 && w <= size
    ensures BytesWritten(PassSteps(RandomData, passNum, total, rng, size, w, pos)) == size - w
    decreases size - w
  {
    if w < size {
      var chunk := Min(4096, size - w);
      var s := PassSteps(RandomData, passNum, total, rng, size, w, pos);
      assert s[1..] == PassSteps(RandomData, passNum, total, rng, size, w + chunk, pos + chunk);
      RandomPassBytes(passNum, total, rng, size, w + chunk, pos + chunk);
    }
  }

  /**
   * A random pass: the chunks sum to the file size, every chunk but the
   * last is 4096 bytes, the last is the remainder, and an empty file gets
   * no chunk at all.
   */
  lemma RandomPassChunks(passNum: nat, total: nat, rng: Entropy, size: nat)
    requires total > 0
    ensures var s := PassSteps(RandomData, passNum, total, rng, size, 0, 0);
      && BytesWritten(s) == size
      && (size == 0 <==> s == [])
      && (forall i :: 0 <= i < |s| ==> s[i].WriteChunk?)
      && (forall i :: 0 <= i < |s| - 1 ==> |s[i].data| == 4096)
      && (size > 0 ==>
            && |s[|s| - 1].data| == size - 4096 * (|s| - 1)
            && 0 < size - 4096 * (|s| - 1) <= 4096)
  {
    RandomPassBytes(passNum, total, rng, size, 0, 0);
    RandomChunksFrom(passNum, total, rng, size, 0, 0);
  }

  /** The number of bytes a fixed 512-byte pass really writes over a file of `size` bytes. */
  function FixedCoverage(size: nat): nat {
    512 * (size / 4096) + Min(512, size % 4096)
  }

  lemma RepeatSnoc(unit: seq<Byte>, n: nat)
    ensures Repeat(unit, n) + unit == Repeat(unit, n + 1)
    decreases n
  {
    if n > 0 {
      RepeatSnoc(unit, n - 1);
    }
  }

  lemma SpliceAfter(a: seq<Byte>, rest: seq<Byte>, data: seq<Byte>)
    requires |data| <= |rest|
    ensures Splice(a + rest, |a|, data) == a + data + rest[|data|..]
  {
  }

  /**
   * The file after a fixed 512-byte pass: one copy of the pattern per full
   * 4096-byte step of the counter, a prefix of the pattern for the last
   * step, and the old bytes from there on.
   */
  function FixedImage(d: seq<Byte>, orig: seq<Byte>): seq<Byte>
    requires |d| == 512
  {
    RepeatLength(d, |orig| / 4096);
    Repeat(d, |orig| / 4096) + Take(d, |orig| % 4096) + orig[FixedCoverage(|orig|)..]
  }

  /** A file of exactly `j` chunks ends up with `j` copies of the pattern and nothing else. */
  lemma FixedImageAligned(d: seq<Byte>, j: nat, orig: seq<Byte>)
    requires |d| == 512 && |orig| == 4096 * j
    ensures FixedImage(d, orig) == Repeat(d, j) + orig[512 * j..]
  {
    assert |orig| / 4096 == j && |orig| % 4096 == 0;
    assert Take(d, 0) == [];
  }

  /** The last chunk of a fixed pass, when at most 4096 bytes remain. */
  lemma FixedLastChunk(d: seq<Byte>, j: nat, orig: seq<Byte>, data: seq<Byte>)
    requires |d| == 512 && 4096 * j < |orig| <= 4096 * (j + 1)
    requires data == Take(d, |orig| - 4096 * j)
    ensures Repeat(d, j) + data + orig[512 * j + |data|..] == FixedImage(d, orig)
  {
    var size := |orig|;
    if size == 4096 * (j + 1) {
      assert size / 4096 == j + 1 && size % 4096 == 0;
      assert data == d;
      RepeatSnoc(d, j);
      assert Take(d, 0) == [];
    } else {
      assert size / 4096 == j && size % 4096 == size - 4096 * j;
    }
  }

  /** A pass whose counter has reached the size has no more chunks. */
  lemma PassStepsDone(spec: PassSpec, passNum: nat, total: nat, rng: Entropy, size: nat, written: nat, pos: nat)
    requires total > 0 && written >= size
    ensures PassSteps(spec, passNum, total, rng, size, written, pos) == []
  {
  }

  /** A fixed pass whose counter has reached the end of an aligned file leaves it as it is. */
  lemma FixedPassDone(d: seq<Byte>, passNum: nat, total: nat, rng: Entropy, j: nat, orig: seq<Byte>)
    requires total > 0 && |d| == 512 && 4096 * j == |orig|
    ensures FixedPassRest(d, passNum, total, rng, j, orig)
  {
    FixedImageAligned(d, j, orig);
    PassStepsDone(Fixed(d), passNum, total, rng, |orig|, 4096 * j, 512 * j);
  }

  /** The last chunk of a fixed pass, when at most 4096 bytes remain to be counted. */
  lemma FixedPassLast(d: seq<Byte>, passNum: nat, total: nat, rng: Entropy, j: nat, orig: seq<Byte>)
    requires total > 0 && |d| == 512 && 4096 * j < |orig| <= 4096 * j + 4096
    ensures FixedPassRest(d, passNum, total, rng, j, orig)
  {
    var w, p, size := 4096 * j, 512 * j, |orig|;
    var chunk := size - w;
    assert chunk == Min(4096, size - w);
    var data := Take(d, chunk);
    RepeatLength(d, j);
    var c, image := Repeat(d, j) + orig[p..], Repeat(d, j) + data + orig[p + |data|..];
    var s := WriteChunk(p, data, w + chunk, Progress(passNum, w + chunk, size, total));
    PassStepsCons(Fixed(d), passNum, total, rng, size, w, p, chunk, data);
    PassStepsDone(Fixed(d), passNum, total, rng, size, w + chunk, p + |data|);
    SpliceAfter(Repeat(d, j), orig[p..], data);
    assert orig[p..][|data|..] == orig[p + |data|..];
    ApplyStep(PassSteps(Fixed(d), passNum, total, rng, size, w, p), s, [], c, image);
    FixedLastChunk(d, j, orig, data);
  }

  /** A full 4096-step of a fixed pass adds one more copy of the pattern. */
  lemma FixedPassStep(d: seq<Byte>, passNum: nat, total: nat, rng: Entropy, j: nat, orig: seq<Byte>)
    requires total > 0 && |d| == 512 && 4096 * (j + 1) < |orig|
    ensures Apply(PassSteps(Fixed(d), passNum, total, rng, |orig|, 4096 * j, 512 * j), Repeat(d, j) + orig[512 * j..])
         == Apply(PassSteps(Fixed(d), passNum, total, rng, |orig|, 4096 * (j + 1), 512 * (j + 1)),
                  Repeat(d, j + 1) + orig[512 * (j + 1)..])
  {
    var w, p, w', p', size := 4096 * j, 512 * j, 4096 * (j + 1), 512 * (j + 1), |orig|;
    assert w' == w + 4096 && p' == p + 512;
    var c, next := Repeat(d, j) + orig[p..], Repeat(d, j + 1) + orig[p'..];
    var s := WriteChunk(p, d, w', Progress(passNum, w', size, total));
    assert Take(d, 4096) == d;
    PassStepsCons(Fixed(d), passNum, total, rng, size, w, p, 4096, d);
    FixedStepImage(d, j, orig);
    ApplyStep(PassSteps(Fixed(d), passNum, total, rng, size, w, p), s,
              PassSteps(Fixed(d), passNum, total, rng, size, w', p'), c, next);
  }

  /** Writing the pattern right after `j` copies of it makes `j + 1` copies. */
  lemma FixedStepImage(d: seq<Byte>, j: nat, orig: seq<Byte>)
    requires |d| == 512 && 512 * (j + 1) <= |orig|
    ensures |Repeat(d, j) + orig[512 * j..]| == |orig|
    ensures Splice(Repeat(d, j) + orig[512 * j..], 512 * j, d) == Repeat(d, j + 1) + orig[512 * (j + 1)..]
  {
    assert 512 * (j + 1) == 512 * j + 512;
    RepeatLength(d, j);
    SpliceAfter(Repeat(d, j), orig[512 * j..], d);
    assert orig[512 * j..][512..] == orig[512 * (j + 1)..];
    RepeatSnoc(d, j);
  }

  /** After `j` full steps, the rest of a fixed pass turns the partly written file into its final image. */
  ghost predicate FixedPassRest(d: seq<Byte>, passNum: nat, total: nat, rng: Entropy, j: nat, orig: seq<Byte>)
    requires total > 0 && |d| == 512 && 4096 * j <= |orig|
  {
    Apply(PassSteps(Fixed(d), passNum, total, rng, |orig|, 4096 * j, 512 * j), Repeat(d, j) + orig[512 * j..])
      == FixedImage(d, orig)
  }

  /** One full step of a fixed pass, given the rest of the pass from the next step on. */
  lemma FixedPassRestStep(d: seq<Byte>, passNum: nat, total: nat, rng: Entropy, j: nat, orig: seq<Byte>)
    requires total > 0 && |d| == 512 && 4096 * (j + 1) < |orig|
    requires FixedPassRest(d, passNum, total, rng, j + 1, orig)
    ensures FixedPassRest(d, passNum, total, rng, j, orig)
  {
    FixedPassStep(d, passNum, total, rng, j, orig);
  }

  lemma {:induction false} FixedPassFrom(d: seq<Byte>, passNum: nat, total: nat, rng: Entropy,
                                         j: nat, orig: seq<Byte>)
    requires total > 0 && |d| == 512 && 4096 * j <= |orig|
    ensures FixedPassRest(d, passNum, total, rng, j, orig)
    decreases |orig| - 4096 * j
  {
    if 4096 * j == |orig| {
      FixedPassDone(d, passNum, total, rng, j, orig);
    } else if |orig| <= 4096 * j + 4096 {
      FixedPassLast(d, passNum, total, rng, j, orig);
    } else {
      FixedPassFrom(d, passNum, total, rng, j + 1, orig);
      FixedPassRestStep(d, passNum, total, rng, j, orig);
    }
  }

  /**
   * A fixed 512-byte pass writes the pattern once per 4096-byte step of the
   * counter, back to back from offset 0: the first `FixedCoverage(size)`
   * bytes become repetitions of the pattern and every later byte keeps its
   * old value.
   */
  lemma FixedPassEffect(d: seq<Byte>, passNum: nat, total: nat, rng: Entropy, content: seq<Byte>)
    requires total > 0 && |d| == 512
    ensures AllFit(PassSteps(Fixed(d), passNum, total, rng, |content|, 0, 0), |content|)
    ensures Apply(PassSteps(Fixed(d), passNum, total, rng, |content|, 0, 0), content) == FixedImage(d, content)
  {
    assert content == Repeat(d, 0) + content[0..];
    PassStepsFit(Fixed(d), passNum, total, rng, |content|, 0, 0);
    FixedPassFrom(d, passNum, total, rng, 0, content);
  }

  lemma {:induction false} FixedPassBytesFrom(d: seq<Byte>, passNum: nat, total: nat, rng: Entropy,
                                              size: nat, j: nat)
    requires total > 0 && |d| == 512 && 4096 * j <= size
    ensures BytesWritten(PassSteps(Fixed(d), passNum, total, rng, size, 4096 * j, 512 * j))
         == FixedCoverage(size) - 512 * j
    decreases size - 4096 * j
  {
    var w := 4096 * j;
    var s := PassSteps(Fixed(d), passNum, total, rng, size, w, 512 * j);
    if w < size {
      var chunk := Min(4096, size - w);
      assert s[1..] == PassSteps(Fixed(d), passNum, total, rng, size, w + chunk, 512 * j + Min(512, chunk));
      if size - w > 4096 {
        assert w + chunk == 4096 * (j + 1);
        FixedPassBytesFrom(d, passNum, total, rng, size, j + 1);
      } else if size - w == 4096 {
        assert size / 4096 == j + 1 && size % 4096 == 0;
      } else {
        assert size / 4096 == j && size % 4096 == size - w;
      }
    } else {
      assert size / 4096 == j && size % 4096 == 0;
    }
  }

  /**
   * A fixed 512-byte pass writes `sum(min(512, chunk))` bytes, which falls
   * short of the file size as soon as the file is longer than 512 bytes.
   */
  lemma FixedPassBytes(d: seq<Byte>, passNum: nat, total: nat, rng: Entropy, size: nat)
    requires total > 0 && |d| == 512
    ensures BytesWritten(PassSteps(Fixed(d), passNum, total, rng, size, 0, 0)) == FixedCoverage(size)
    ensures FixedCoverage(size) <= size
    ensures size > 512 ==> FixedCoverage(size) < size
  {
    FixedPassBytesFrom(d, passNum, total, rng, size, 0);
  }

  /**
   * Counterexample to a full overwrite: a DoD zero pass over a 1024-byte
   * file of 0xFF bytes advances its counter over the whole file but writes
   * only 512 bytes, so the second half keeps its old 0xFF bytes.
   */
  lemma FixedPassLeavesOldBytes(rng: Entropy)
    ensures AllFit(PassSteps(Solid(0x00), 1, 3, rng, 1024, 0, 0), 1024)
    ensures Apply(PassSteps(Solid(0x00), 1, 3, rng, 1024, 0, 0), Fill(0xFF, 1024))[512..] == Fill(0xFF, 512)
  {
    var before := Fill(0xFF, 1024);
    FixedPassEffect(Fill(0x00, 512), 1, 3, rng, before);
    assert FixedCoverage(1024) == 512;
    assert Repeat(Fill(0x00, 512), 0) == [];
    assert Take(Fill(0x00, 512), 1024) == Fill(0x00, 512);
    assert FixedImage(Fill(0x00, 512), before)[512..] == before[512..];
  }

  /** Beyond the covered prefix, a fixed 512-byte pass leaves every old byte in place. */
  lemma FixedPassKeepsTail(d: seq<Byte>, passNum: nat, total: nat, rng: Entropy, content: seq<Byte>)
    requires total > 0 && |d| == 512
    ensures AllFit(PassSteps(Fixed(d), passNum, total, rng, |content|, 0, 0), |content|)
    ensures var r := Apply(PassSteps(Fixed(d), passNum, total, rng, |content|, 0, 0), content);
      r[FixedCoverage(|content|)..] == content[FixedCoverage(|content|)..]
    ensures |content| > 512 ==> FixedCoverage(|content|) < |content|
  {
    FixedPassEffect(d, passNum, total, rng, content);
    FixedPassBytes(d, passNum, total, rng, |content|);
    RepeatLength(d, |content| / 4096);
    var r := Apply(PassSteps(Fixed(d), passNum, total, rng, |content|, 0, 0), content);
    var head := Repeat(d, |content| / 4096) + Take(d, |content| % 4096);
    assert |head| == FixedCoverage(|content|);
    assert r == head + content[FixedCoverage(|content|)..];
  }

  // ----- the corrected pass -----

  /** The pattern `d` repeated without gaps, `n` bytes from offset `from` on. */
  function Cycle(d: seq<Byte>, from: nat, n: nat): (r: seq<Byte>)
    requires |d| > 0
    ensures |r| == n
    ensures forall i :: 0 <= i < n ==> r[i] == d[(from + i) % |d|]
  {
    seq(n, i requires 0 <= i < n => d[(from + i) % |d|])
  }

  /**
   * The chunks of a pass as evidently intended: a fixed pattern is repeated
   * to fill the whole chunk, so what is written matches what is counted.
   */
  function CorrectedPassSteps(spec: PassSpec, passNum: nat, total: nat, rng: Entropy,
                              size: nat, written: nat): seq<Step>
    requires total > 0 && (spec.Fixed? ==> |spec.data| > 0)
    decreases size - written
  {
    if written >= size then []
    else
      var chunk := Min(4096, size - written);
      var data := if spec.RandomData? then Random(rng, passNum, written, chunk) else Cycle(spec.data, written, chunk);
      [WriteChunk(written, data, written + chunk, Progress(passNum, written + chunk, size, total))]
        + CorrectedPassSteps(spec, passNum, total, rng, size, written + chunk)
  }

  /** What a whole pass should leave in the file. */
  function PassImage(spec: PassSpec, passNum: nat, rng: Entropy, size: nat): (r: seq<Byte>)
    requires spec.Fixed? ==> |spec.data| > 0
    ensures |r| == size
  {
    if spec.RandomData? then Random(rng, passNum, 0, size) else Cycle(spec.data, 0, size)
  }

  lemma {:induction false} CorrectedPassFit(spec: PassSpec, passNum: nat, total: nat, rng: Entropy,
                                            size: nat, w: nat)
    requires total > 0 && (spec.Fixed? ==> |spec.data| > 0)
    ensures AllFit(CorrectedPassSteps(spec, passNum, total, rng, size, w), size)
    decreases size - w
  {
    if w < size {
      var chunk := Min(4096, size - w);
      var data := if spec.RandomData? then Random(rng, passNum, w, chunk) else Cycle(spec.data, w, chunk);
      var head := WriteChunk(w, data, w + chunk, Progress(passNum, w + chunk, size, total));
      var rest := CorrectedPassSteps(spec, passNum, total, rng, size, w + chunk);
      assert CorrectedPassSteps(spec, passNum, total, rng, size, w) == [head] + rest;
      CorrectedPassFit(spec, passNum, total, rng, size, w + chunk);
      AllFitCons(head, rest, size);
    }
  }

  /** The data of one corrected chunk is the matching slice of the pass's image. */
  lemma CorrectedChunk(spec: PassSpec, passNum: nat, rng: Entropy, size: nat, w: nat, chunk: nat)
    requires (spec.Fixed? ==> |spec.data| > 0) && w + chunk <= size
    ensures (if spec.RandomData? then Random(rng, passNum, w, chunk) else Cycle(spec.data, w, chunk))
         == PassImage(spec, passNum, rng, size)[w..w + chunk]
  {
  }

  /** Performing a corrected pass is writing its next chunk, then performing the rest. */
  lemma ApplyCorrectedStep(spec: PassSpec, passNum: nat, total: nat, rng: Entropy, size: nat,
                           w: nat, chunk: nat, data: seq<Byte>, c: seq<Byte>)
    requires total > 0 && (spec.Fixed? ==> |spec.data| > 0) && w < size && chunk == Min(4096, size - w)
    requires data == if spec.RandomData? then Random(rng, passNum, w, chunk) else Cycle(spec.data, w, chunk)
    requires |c| == size
    ensures Apply(CorrectedPassSteps(spec, passNum, total, rng, size, w), c)
         == Apply(CorrectedPassSteps(spec, passNum, total, rng, size, w + chunk), Splice(c, w, data))
  {
    var head := WriteChunk(w, data, w + chunk, Progress(passNum, w + chunk, size, total));
    var rest := CorrectedPassSteps(spec, passNum, total, rng, size, w + chunk);
    assert CorrectedPassSteps(spec, passNum, total, rng, size, w) == [head] + rest;
    ApplyCons(head, rest, c);
  }

  /** Writing the next slice of `image` extends the prefix that already agrees with it. */
  lemma SplicePrefix(c: seq<Byte>, w: nat, data: seq<Byte>, image: seq<Byte>)
    requires |c| == |image| && w + |data| <= |c|
    requires c[..w] == image[..w] && data == image[w..w + |data|]
    ensures Splice(c, w, data)[..w + |data|] == image[..w + |data|]
  {
    var c1 := Splice(c, w, data);
    assert c1[..w + |data|] == c1[..w] + c1[w..w + |data|];
    assert image[..w + |data|] == image[..w] + image[w..w + |data|];
  }

  /** The next corrected chunk extends the prefix that already holds the pass's image. */
  lemma CorrectedStep(spec: PassSpec, passNum: nat, total: nat, rng: Entropy, size: nat, w: nat, c: seq<Byte>)
      returns (w': nat, c': seq<Byte>)
    requires total > 0 && (spec.Fixed? ==> |spec.data| > 0)
    requires w < size && |c| == size && c[..w] == PassImage(spec, passNum, rng, size)[..w]
    ensures w < w' <= size && |c'| == size && c'[..w'] == PassImage(spec, passNum, rng, size)[..w']
    ensures Apply(CorrectedPassSteps(spec, passNum, total, rng, size, w), c)
         == Apply(CorrectedPassSteps(spec, passNum, total, rng, size, w'), c')
  {
    var chunk := Min(4096, size - w);
    var data := if spec.RandomData? then Random(rng, passNum, w, chunk) else Cycle(spec.data, w, chunk);
    ApplyCorrectedStep(spec, passNum, total, rng, size, w, chunk, data, c);
    CorrectedChunk(spec, passNum, rng, size, w, chunk);
    var image := PassImage(spec, passNum, rng, size);
    assert |data| == chunk && data == image[w..w + chunk];
    SplicePrefix(c, w, data, image);
    w' := w + chunk;
    c' := Splice(c, w, data);
  }

  lemma {:induction false} CorrectedPassFrom(spec: PassSpec, passNum: nat, total: nat, rng: Entropy,
                                             size: nat, w: nat, c: seq<Byte>)
    requires total > 0 && (spec.Fixed? ==> |spec.data| > 0)
    requires w <= size && |c| == size && c[..w] == PassImage(spec, passNum, rng, size)[..w]
    ensures Apply(CorrectedPassSteps(spec, passNum, total, rng, size, w), c) == PassImage(spec, passNum, rng, size)
    decreases size - w
  {
    if w == size {
      var image := PassImage(spec, passNum, rng, size);
      assert c == c[..w] && image == image[..w];
      assert CorrectedPassSteps(spec, passNum, total, rng, size, w) == [];
    } else {
      var w', c' := CorrectedStep(spec, passNum, total, rng, size, w, c);
      CorrectedPassFrom(spec, passNum, total, rng, size, w', c');
    }
  }

  /** Every corrected pass, fixed or random, overwrites the whole file, whatever it held. */
  lemma CorrectedPassOverwrites(spec: PassSpec, passNum: nat, total: nat, rng: Entropy, content: seq<Byte>)
    requires total > 0 && (spec.Fixed? ==> |spec.data| > 0)
    ensures AllFit(CorrectedPassSteps(spec, passNum, total, rng, |content|, 0), |content|)
    ensures Apply(CorrectedPassSteps(spec, passNum, total, rng, |content|, 0), content)
         == PassImage(spec, passNum, rng, |content|)
  {
    CorrectedPassFit(spec, passNum, total, rng, |content|, 0);
    CorrectedPassFrom(spec, passNum, total, rng, |content|, 0, content);
  }

  // ----- progress -----

  lemma ProgressMonotone(n: nat, w1: nat, w2: nat, size: nat, total: nat)
    requires size > 0 && total > 0 && w1 <= w2
    ensures Progress(n, w1, size, total) <= Progress(n, w2, size, total)
    ensures w1 < w2 ==> Progress(n, w1, size, total) < Progress(n, w2, size, total)
  {
    var a, b := w1 as real / size as real, w2 as real / size as real;
    assert a <= b;
    assert w1 < w2 ==> a < b;
    var x, y := (n - 1) as real + a, (n - 1) as real + b;
    assert x / total as real <= y / total as real;
    assert w1 < w2 ==> x / total as real < y / total as real;
  }

  /** The end of pass `n` and the start of pass `n + 1` report the same value. */
  lemma ProgressBoundary(n: nat, size: nat, total: nat)
    requires size > 0 && total > 0 && n >= 1
    ensures Progress(n, size, size, total) == Progress(n + 1, 0, size, total)
  {
    assert size as real / size as real == 1.0;
    assert 0 as real / size as real == 0.0;
  }

  lemma ProgressEnds(size: nat, total: nat)
    requires size > 0 && total > 0
    ensures Progress(1, 0, size, total) == 0.0
    ensures Progress(total, size, size, total) == 100.0
  {
    assert size as real / size as real == 1.0;
    assert 0 as real / size as real == 0.0;
    assert (total - 1) as real + 1.0 == total as real;
  }

  lemma {:induction false} MarksAppend(a: seq<Step>, b: seq<Step>)
    ensures Marks(a + b) == Marks(a) + Marks(b)
    decreases |a|
  {
    if a == [] {
      assert a + b == b;
    } else {
      assert (a + b)[0] == a[0] && (a + b)[1..] == a[1..] + b;
      MarksAppend(a[1..], b);
    }
  }

  /** Strictly increasing values. */
  predicate Increasing(m: seq<real>) {
    forall i, k :: 0 <= i < k < |m| ==> m[i] < m[k]
  }

  /** Every value lies in the interval (lo, hi]. */
  predicate Within(m: seq<real>, lo: real, hi: real) {
    forall i :: 0 <= i < |m| ==> lo < m[i] <= hi
  }

  lemma ConsMarks(x: real, m: seq<real>, lo: real, hi: real)
    requires lo < x <= hi && Increasing(m) && Within(m, x, hi)
    ensures Increasing([x] + m) && Within([x] + m, lo, hi)
  {
    var r := [x] + m;
    forall i | 1 <= i < |r| ensures r[i] == m[i - 1] { }
  }

  lemma AppendMarks(a: seq<real>, b: seq<real>, lo: real, mid: real, hi: real)
    requires Increasing(a) && Within(a, lo, mid) && Increasing(b) && Within(b, mid, hi) && lo <= mid <= hi
    ensures Increasing(a + b) && Within(a + b, lo, hi)
  {
    var r := a + b;
    forall i | |a| <= i < |r| ensures r[i] == b[i - |a|] { }
  }

  /** The next chunk of a pass reports the progress its counter has reached. */
  lemma PassStepsMarksCons(spec: PassSpec, passNum: nat, total: nat, rng: Entropy,
                           size: nat, written: nat, pos: nat, chunk: nat, data: seq<Byte>)
    requires total > 0 && written < size && chunk == Min(4096, size - written)
    requires data == if spec.RandomData? then Random(rng, passNum, written, chunk) else Take(spec.data, chunk)
    ensures Marks(PassSteps(spec, passNum, total, rng, size, written, pos))
         == [Progress(passNum, written + chunk, size, total)]
            + Marks(PassSteps(spec, passNum, total, rng, size, written + chunk, pos + |data|))
  {
    PassStepsCons(spec, passNum, total, rng, size, written, pos, chunk, data);
    var head := WriteChunk(pos, data, written + chunk, Progress(passNum, written + chunk, size, total));
    var rest := PassSteps(spec, passNum, total, rng, size, written + chunk, pos + |data|);
    assert ([head] + rest)[0] == head && ([head] + rest)[1..] == rest;
  }

  lemma LastOfCons(x: real, m: seq<real>)
    ensures ([x] + m)[|[x] + m| - 1] == if m == [] then x else m[|m| - 1]
  {
  }

  /** The progress values pass `n` reports from counter `w` on: rising, within the pass's share, ending at its top. */
  ghost predicate PassMarksRise(spec: PassSpec, n: nat, total: nat, rng: Entropy, size: nat, w: nat, pos: nat)
    requires total > 0 && size > 0
  {
    var m := Marks(PassSteps(spec, n, total, rng, size, w, pos));
    && Within(m, Progress(n, w, size, total), Progress(n, size, size, total))
    && Increasing(m)
    && (w < size ==> |m| > 0 && m[|m| - 1] == Progress(n, size, size, total))
  }

  lemma {:induction false} PassMarks(spec: PassSpec, n: nat, total: nat, rng: Entropy, size: nat, w: nat, pos: nat)
    requires total > 0 && size > 0 && w <= size
    ensures PassMarksRise(spec, n, total, rng, size, w, pos)
    decreases size - w
  {
    if w < size {
      var chunk := Min(4096, size - w);
      var data := if spec.RandomData? then Random(rng, n, w, chunk) else Take(spec.data, chunk);
      PassMarks(spec, n, total, rng, size, w + chunk, pos + |data|);
      PassMarksStep(spec, n, total, rng, size, w, pos, chunk, data);
    }
  }

  /** One chunk more in front of the rest of the pass. */
  lemma PassMarksStep(spec: PassSpec, n: nat, total: nat, rng: Entropy, size: nat, w: nat, pos: nat,
                      chunk: nat, data: seq<Byte>)
    requires total > 0 && w < size && chunk == Min(4096, size - w)
    requires data == if spec.RandomData? then Random(rng, n, w, chunk) else Take(spec.data, chunk)
    requires PassMarksRise(spec, n, total, rng, size, w + chunk, pos + |data|)
    ensures PassMarksRise(spec, n, total, rng, size, w, pos)
  {
    PassStepsMarksCons(spec, n, total, rng, size, w, pos, chunk, data);
    ProgressMonotone(n, w, w + chunk, size, total);
    ProgressMonotone(n, w + chunk, size, size, total);
    var mr := Marks(PassSteps(spec, n, total, rng, size, w + chunk, pos + |data|));
    if w + chunk == size {
      PassStepsDone(spec, n, total, rng, size, w + chunk, pos + |data|);
      MarksCons(Progress(n, size, size, total), [], Progress(n, w, size, total), Progress(n, size, size, total));
    } else {
      MarksCons(Progress(n, w + chunk, size, total), mr, Progress(n, w, size, total), Progress(n, size, size, total));
    }
  }

  /** A new first value below an increasing run keeps it increasing and ending where it ended. */
  lemma MarksCons(x: real, m: seq<real>, lo: real, hi: real)
    requires lo < x <= hi && Increasing(m) && Within(m, x, hi)
    requires if m == [] then x == hi else m[|m| - 1] == hi
    ensures Increasing([x] + m) && Within([x] + m, lo, hi)
    ensures |[x] + m| > 0 && ([x] + m)[|[x] + m| - 1] == hi
  {
    ConsMarks(x, m, lo, hi);
    LastOfCons(x, m);
  }

  lemma PlanFromMarksSplit(pattern: seq<PassSpec>, from: nat, rng: Entropy, size: nat)
    requires from < |pattern|
    ensures Marks(PlanFrom(pattern, from, rng, size))
         == Marks(PassSteps(pattern[from], from + 1, |pattern|, rng, size, 0, 0))
            + Marks(PlanFrom(pattern, from + 1, rng, size))
  {
    var pass := PassSteps(pattern[from], from + 1, |pattern|, rng, size, 0, 0);
    var rest := PlanFrom(pattern, from + 1, rng, size);
    assert PlanFrom(pattern, from, rng, size) == [BeginPass(from + 1, |pattern|)] + (pass + rest);
    assert ([BeginPass(from + 1, |pattern|)] + (pass + rest))[1..] == pass + rest;
    MarksAppend(pass, rest);
  }

  lemma {:induction false} PlanFromMarks(pattern: seq<PassSpec>, from: nat, rng: Entropy, size: nat)
    requires size > 0 && 0 < |pattern| && from <= |pattern|
    ensures var m := Marks(PlanFrom(pattern, from, rng, size));
      && (from < |pattern| ==> Within(m, Progress(from + 1, 0, size, |pattern|), 100.0))
      && Increasing(m)
      && (from < |pattern| ==> |m| > 0 && m[|m| - 1] == 100.0)
      && (from == |pattern| ==> m == [])
    decreases |pattern| - from
  {
    var P := |pattern|;
    if from < P {
      var mp := Marks(PassSteps(pattern[from], from + 1, P, rng, size, 0, 0));
      var mr := Marks(PlanFrom(pattern, from + 1, rng, size));
      PlanFromMarksSplit(pattern, from, rng, size);
      PassMarks(pattern[from], from + 1, P, rng, size, 0, 0);
      PlanFromMarks(pattern, from + 1, rng, size);
      ProgressBoundary(from + 1, size, P);
      LaterPassesHigher(from + 1, P, size);
      var lo, mid := Progress(from + 1, 0, size, P), Progress(from + 1, size, size, P);
      ProgressMonotone(from + 1, 0, size, size, P);
      assert Within(mp, lo, mid) && Increasing(mp);
      assert Within(mr, mid, 100.0) && Increasing(mr);
      if from + 1 == P {
        assert mp + mr == mp;
        ProgressEnds(size, P);
        assert mp[|mp| - 1] == 100.0;
      } else {
        assert |mr| > 0 && mr[|mr| - 1] == 100.0;
        assert (mp + mr)[|mp + mr| - 1] == mr[|mr| - 1];
      }
      AppendMarks(mp, mr, lo, mid, 100.0);
    }
  }

  /** Each pass ends at or below 100. */
  lemma {:induction false} LaterPassesHigher(n: nat, total: nat, size: nat)
    requires size > 0 && 1 <= n <= total
    ensures Progress(n, size, size, total) <= 100.0
    decreases total - n
  {
    ProgressEnds(size, total);
    if n < total {
      ProgressBoundary(n, size, total);
      ProgressMonotone(n + 1, 0, size, size, total);
      LaterPassesHigher(n + 1, total, size);
    }
  }

  /**
   * The progress values of a run over a non-empty file: all in (0, 100],
   * strictly increasing from one chunk to the next (across passes too),
   * and the last one is exactly 100.
   */
  lemma PlanProgress(pattern: seq<PassSpec>, rng: Entropy, size: nat)
    requires size > 0 && |pattern| > 0
    ensures var m := Marks(Plan(pattern, rng, size));
      && |m| > 0 && m[|m| - 1] == 100.0
      && Increasing(m)
      && forall i :: 0 <= i < |m| ==> 0.0 < m[i] <= 100.0
  {
    PlanFromMarks(pattern, 0, rng, size);
    ProgressEnds(size, |pattern|);
  }

  /** The `progress` field holds the last value reported, or its old value if none was. */
  lemma {:induction false} ProgressAfterLastMark(steps: seq<Step>, init: real)
    ensures var m := Marks(steps);
      ProgressAfter(steps, init) == (if m == [] then init else m[|m| - 1])
    decreases |steps|
  {
    if steps != [] {
      var pre, last := steps[..|steps| - 1], steps[|steps| - 1];
      assert steps == pre + [last];
      MarksAppend(pre, [last]);
      assert [last][1..] == [];
      ProgressAfterLastMark(pre, init);
    }
  }

  /**
   * During a run over a non-empty file, once a value has been reported the
   * `progress` field never decreases and stays within (0, 100]; a complete
   * run leaves it at exactly 100.
   */
  lemma ProgressDuringRun(pattern: seq<PassSpec>, rng: Entropy, size: nat, c1: nat, c2: nat, init: real)
    requires size > 0 && |pattern| > 0
    requires c1 <= c2 <= |Plan(pattern, rng, size)|
    ensures var plan := Plan(pattern, rng, size);
      Marks(plan[..c1]) != [] ==>
        0.0 < ProgressAfter(plan[..c1], init) <= ProgressAfter(plan[..c2], init) <= 100.0
    ensures ProgressAfter(Plan(pattern, rng, size), init) == 100.0
  {
    var plan := Plan(pattern, rng, size);
    PlanProgress(pattern, rng, size);
    assert plan[..c2] == plan[..c1] + plan[c1..c2];
    assert plan == plan[..c2] + plan[c2..];
    MarksAppend(plan[..c1], plan[c1..c2]);
    MarksAppend(plan[..c2], plan[c2..]);
    ProgressAfterLastMark(plan[..c1], init);
    ProgressAfterLastMark(plan[..c2], init);
    ProgressAfterLastMark(plan, init);
    LastMarks(Marks(plan[..c1]), Marks(plan[c1..c2]), Marks(plan[c2..]));
  }

  /** Of increasing marks within (0, 100], a longer prefix ends no lower than a shorter one. */
  lemma LastMarks(m1: seq<real>, y: seq<real>, z: seq<real>)
    requires Increasing(m1 + y + z) && forall i :: 0 <= i < |m1 + y + z| ==> 0.0 < (m1 + y + z)[i] <= 100.0
    ensures m1 != [] ==> 0.0 < m1[|m1| - 1] <= (m1 + y)[|m1 + y| - 1] <= 100.0
  {
    var m := m1 + y + z;
    if m1 != [] {
      assert m1[|m1| - 1] == m[|m1| - 1];
      assert (m1 + y)[|m1 + y| - 1] == m[|m1 + y| - 1];
    }
  }

  /** On an empty file every pass begins and writes nothing. */
  lemma {:induction false} ZeroSizeFrom(pattern: seq<PassSpec>, from: nat, rng: Entropy)
    requires from <= |pattern|
    ensures var s := PlanFrom(pattern, from, rng, 0);
      && |s| == |pattern| - from
      && forall i :: 0 <= i < |s| ==> s[i] == BeginPass(from + i + 1, |pattern|)
    decreases |pattern| - from
  {
    if from < |pattern| {
      var s := PlanFrom(pattern, from, rng, 0);
      var rest := PlanFrom(pattern, from + 1, rng, 0);
      assert PassSteps(pattern[from], from + 1, |pattern|, rng, 0, 0, 0) == [];
      assert s == [BeginPass(from + 1, |pattern|)] + rest;
      ZeroSizeFrom(pattern, from + 1, rng);
      forall i | 0 <= i < |s| ensures s[i] == BeginPass(from + i + 1, |pattern|) {
        if i > 0 { assert s[i] == rest[i - 1]; }
      }
    }
  }

  lemma ZeroSizeWritesNothing(pattern: seq<PassSpec>, rng: Entropy)
    ensures var s := Plan(pattern, rng, 0);
      && |s| == |pattern|
      && (forall i :: 0 <= i < |s| ==> s[i] == BeginPass(i + 1, |pattern|))
      && Marks(s) == []
  {
    ZeroSizeFrom(pattern, 0, rng);
    NoWritesNoMarks(Plan(pattern, rng, 0));
  }

  lemma {:induction false} NoWritesNoMarks(s: seq<Step>)
    requires forall i :: 0 <= i < |s| ==> s[i].BeginPass?
    ensures Marks(s) == [] && BytesWritten(s) == 0
    decreases |s|
  {
    if s != [] {
      NoWritesNoMarks(s[1..]);
    }
  }

  /** The plan ends with the last pass, after everything before it. */
  lemma {:induction false} PlanFromEndsWithLast(pattern: seq<PassSpec>, from: nat, rng: Entropy, size: nat)
      returns (front: seq<Step>)
    requires from < |pattern|
    ensures PlanFrom(pattern, from, rng, size)
         == front + ([BeginPass(|pattern|, |pattern|)]
                     + PassSteps(pattern[|pattern| - 1], |pattern|, |pattern|, rng, size, 0, 0))
    decreases |pattern| - from
  {
    if from + 1 == |pattern| {
      front := [];
      LastPassAlone(pattern, from, rng, size);
    } else {
      var f := PlanFromEndsWithLast(pattern, from + 1, rng, size);
      front := LastPassAfter(pattern, from, rng, size, f);
    }
  }

  /** The plan from the last pass on is that pass alone. */
  lemma LastPassAlone(pattern: seq<PassSpec>, from: nat, rng: Entropy, size: nat)
    requires from + 1 == |pattern|
    ensures PlanFrom(pattern, from, rng, size)
         == [] + ([BeginPass(|pattern|, |pattern|)]
                  + PassSteps(pattern[|pattern| - 1], |pattern|, |pattern|, rng, size, 0, 0))
  {
    var P := |pattern|;
    var lastPass := [BeginPass(P, P)] + PassSteps(pattern[P - 1], P, P, rng, size, 0, 0);
    assert PlanFrom(pattern, from, rng, size) == lastPass + [];
    assert lastPass + [] == lastPass == [] + lastPass;
  }

  /** A pass before the last one goes in front of what precedes the last pass. */
  lemma LastPassAfter(pattern: seq<PassSpec>, from: nat, rng: Entropy, size: nat, f: seq<Step>)
      returns (front: seq<Step>)
    requires from + 1 < |pattern|
    requires PlanFrom(pattern, from + 1, rng, size)
          == f + ([BeginPass(|pattern|, |pattern|)]
                  + PassSteps(pattern[|pattern| - 1], |pattern|, |pattern|, rng, size, 0, 0))
    ensures PlanFrom(pattern, from, rng, size)
         == front + ([BeginPass(|pattern|, |pattern|)]
                     + PassSteps(pattern[|pattern| - 1], |pattern|, |pattern|, rng, size, 0, 0))
  {
    var P := |pattern|;
    var head := [BeginPass(from + 1, P)] + PassSteps(pattern[from], from + 1, P, rng, size, 0, 0);
    var lastPass := [BeginPass(P, P)] + PassSteps(pattern[P - 1], P, P, rng, size, 0, 0);
    assert PlanFrom(pattern, from, rng, size) == head + PlanFrom(pattern, from + 1, rng, size);
    AppendAssoc(head, f, lastPass);
    front := head + f;
  }

  /**
   * When the last pass is random, a complete run leaves the file holding
   * exactly that pass's random bytes, whatever the earlier fixed passes
   * wrote or missed.
   */
  lemma FullRunEndsRandom(pattern: seq<PassSpec>, rng: Entropy, content: seq<Byte>)
    requires |pattern| > 0 && pattern[|pattern| - 1].RandomData?
    ensures AllFit(Plan(pattern, rng, |content|), |content|)
    ensures Apply(Plan(pattern, rng, |content|), content) == Random(rng, |pattern|, 0, |content|)
  {
    var P := |pattern|;
    PlanFits(pattern, rng, |content|);
    var front := PlanFromEndsWithLast(pattern, 0, rng, |content|);
    var last := PassSteps(RandomData, P, P, rng, |content|, 0, 0);
    var tail := [BeginPass(P, P)] + last;
    assert Plan(pattern, rng, |content|) == front + tail;
    ApplyAppend(front, tail, content);
    var mid := Apply(front, content);
    assert tail[1..] == last;
    assert Apply(tail, mid) == Apply(last, mid);
    RandomPassOverwrites(P, P, rng, mid);
  }

  /** Each of the five named lists ends with a random pass. */
  lemma NamedPatternsEndRandom(name: string)
    ensures var p := GetPattern(name); |p| > 0 && p[|p| - 1].RandomData?
  {
    DodWithDefault(name);
    GutmannShape();
  }
}
