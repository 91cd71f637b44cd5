/**
 * Vocabulary shared by the five raw-device writers (prototype_1.py,
 * backedn_old.py, data-wipe-backend-new.py, data-wipe-backend.py and
 * testdemo1.py): what a device holds after part of a random pass, what the
 * running SHA-256 object has been fed, and the block arithmetic of
 * `size // block_size` full blocks plus `size % block_size` remainder bytes.
 */
module BlockWrites {
  import opened Common
  import opened Storage

  /**
   * What a writer hands back: `(None, None, None)`, or the triple
   * `(start_time, end_time, hexdigest)`; the two clock readings are not
   * modelled, the digest is.
   */
  datatype Triple = Nones | Triple(digest: Hex64)

  /** How a writer ends: it returns a triple, or an exception escapes it. */
  datatype Outcome = Returned(t: Triple) | Raised

  /** `if start_time and end_time and checksum`: every returned triple is truthy. */
  predicate Truthy(t: Triple) {
    t.Triple?
  }

  /**
   * The media `base` after the first `w` bytes of random pass `p` have been
   * written over it from offset 0.
   */
  function Overwritten(rng: Entropy, p: nat, w: nat, base: seq<Byte>): (r: seq<Byte>)
    requires w <= |base|
    ensures |r| == |base|
    ensures r[..w] == Random(rng, p, 0, w) && r[w..] == base[w..]
  {
    Random(rng, p, 0, w) + base[w..]
  }

  /** Writing the next `n` bytes of the pass at offset `w` extends the overwritten prefix. */
  lemma BlockStep(rng: Entropy, p: nat, w: nat, n: nat, base: seq<Byte>)
    requires w + n <= |base|
    ensures Splice(Overwritten(rng, p, w, base), w, Random(rng, p, w, n)) == Overwritten(rng, p, w + n, base)
  {
    var c := Overwritten(rng, p, w, base);
    assert c[..w] == Random(rng, p, 0, w);
    assert c[w + n..] == base[w + n..];
    RandomConcat(rng, p, 0, w, n);
  }

  /** A second pass over the same prefix leaves only its own data there. */
  lemma OverwrittenAgain(rng: Entropy, p: nat, q: nat, w: nat, base: seq<Byte>)
    requires w <= |base|
    ensures Overwritten(rng, p, w, Overwritten(rng, q, w, base)) == Overwritten(rng, p, w, base)
  {
    assert Overwritten(rng, q, w, base)[w..] == base[w..];
  }

  /** Feeding the next block of the pass to the hash extends what it has been fed. */
  lemma HashStep(h0: seq<Byte>, rng: Entropy, p: nat, w: nat, n: nat)
    ensures (h0 + Random(rng, p, 0, w)) + Random(rng, p, w, n) == h0 + Random(rng, p, 0, w + n)
  {
    AppendAssoc(h0, Random(rng, p, 0, w), Random(rng, p, w, n));
    RandomConcat(rng, p, 0, w, n);
  }

  /** What a pass that is (`hashIt`) or is not fed to the hash contributes after its first `w` bytes. */
  function Fed(hashIt: bool, rng: Entropy, p: nat, w: nat): seq<Byte> {
    if hashIt then Random(rng, p, 0, w) else []
  }

  /** Everything the first `k` whole passes of `n` bytes feed to the hash, in order. */
  function AllPasses(rng: Entropy, k: nat, n: nat): seq<Byte> {
    if k == 0 then [] else AllPasses(rng, k - 1, n) + Random(rng, k - 1, 0, n)
  }

  /** The hash input of `k` whole passes is `k * n` bytes long: every pass is hashed in full. */
  lemma {:induction false} AllPassesLength(rng: Entropy, k: nat, n: nat)
    ensures |AllPasses(rng, k, n)| == k * n
  {
    if k > 0 {
      AllPassesLength(rng, k - 1, n);
      MulSucc(k - 1, n);
    }
  }

  /** Block `i` of `n / b` full blocks ends inside the first `n` bytes. */
  lemma BlockFits(i: nat, b: nat, n: nat)
    requires b > 0 && i < n / b
    ensures i * b + b <= n
  {
    var q := n / b;
    assert q * b <= n by { DivFloor(n, b); }
    MulMono(i + 1, q, b);
    MulSucc(i, b);
  }

  /** The first block that does not fit is block `n / b`. */
  lemma BlockMisses(i: nat, b: nat, n: nat)
    requires b > 0 && i * b <= n < i * b + b
    ensures n / b == i
  {
    var q := n / b;
    DivFloor(n, b);
    if q < i {
      MulMono(q + 1, i, b);
      MulSucc(q, b);
    } else if q > i {
      MulMono(i + 1, q, b);
      MulSucc(i, b);
    }
  }

  /** `n` lies in block `n / b`. */
  lemma DivFloor(n: nat, b: nat)
    requires b > 0
    ensures (n / b) * b <= n < (n / b) * b + b
  {
    var q, r := n / b, n % b;
    assert n == q * b + r && 0 <= r < b;
  }

  lemma {:induction false} MulMono(a: nat, c: nat, b: nat)
    requires a <= c
    ensures a * b <= c * b
    decreases c - a
  {
    if a < c {
      MulMono(a + 1, c, b);
      MulSucc(a, b);
    }
  }

  /** A whole number of blocks that fits is at most `n / b` blocks. */
  lemma FitsBelow(k: nat, b: nat, n: nat)
    requires b > 0 && k * b <= n
    ensures k <= n / b
  {
    if k > n / b {
      DivFloor(n, b);
      MulMono(n / b + 1, k, b);
      MulSucc(n / b, b);
    }
  }

  /** `size // block` full blocks and `size % block` remainder bytes are the whole region. */
  lemma BlocksAndRemainder(size: nat, b: nat)
    requires b > 0
    ensures (size / b) * b + size % b == size
    ensures size % b < b
  {
  }

  /** A floored percentage `int(num / den * 100)`, in exact arithmetic. */
  function Percent(num: nat, den: nat): (r: nat)
    requires den > 0
    ensures num <= den ==> r <= 100
    ensures num < den ==> r < 100
    ensures num == den ==> r == 100
  {
    DivBelow(num * 100, den, 100);
    BlockMisses(100, den, den * 100);
    num * 100 / den
  }

  /** The floored percentages `int((j + 1) / total * 100)` reported after each of the first `k` of `total` blocks. */
  function Percents(total: nat, k: nat): (r: seq<nat>)
    requires k <= total
    ensures |r| == k
    ensures forall j :: 0 <= j < k ==> r[j] == Percent(j + 1, total)
  {
    if k == 0 then [] else Percents(total, k - 1) + [Percent(k, total)]
  }

  /** `x / d < q` whenever `x < q * d`, and `x / d <= q` whenever `x <= q * d`. */
  lemma DivBelow(x: nat, d: nat, q: nat)
    requires d > 0
    ensures x < q * d ==> x / d < q
    ensures x <= q * d ==> x / d <= q
  {
    DivFloor(x, d);
    if x / d >= q {
      MulMono(q, x / d, d);
    }
    if x / d >= q + 1 {
      MulMono(q + 1, x / d, d);
      MulSucc(q, d);
    }
  }

  /** Division by a positive number never decreases as the dividend grows. */
  lemma DivMono(x: nat, y: nat, d: nat)
    requires d > 0 && x <= y
    ensures x / d <= y / d
  {
    DivFloor(x, d);
    FitsBelow(x / d, d, y);
  }

  /** The floored percentage never decreases as the numerator grows. */
  lemma PercentMonotone(a: nat, b: nat, den: nat)
    requires den > 0 && a <= b
    ensures Percent(a, den) <= Percent(b, den)
  {
    DivMono(a * 100, b * 100, den);
  }

  // ----- a region of `size` bytes written from offset 0 in full blocks and a remainder -----

  /** How such a pass ends: normally, at a full block, or at the remainder block. */
  datatype PassEnd = Done | BlockFailed | RemainderFailed

  /** How many of the `total` full blocks of a pass land on media of `length` bytes. */
  function Landed(length: nat, block: nat, total: nat): (k: nat)
    requires block > 0
    ensures k <= total && k * block <= length
  {
    DivFloor(length, block);
    if total <= length / block then
      MulMono(total, length / block, block);
      total
    else
      MulMono(length / block, length / block, block);
      length / block
  }

  /** The blocks land up to the first that does not fit, or all of them. */
  lemma LandedAt(length: nat, block: nat, total: nat, i: nat)
    requires block > 0 && i <= total && i * block <= length && (i == total || length < i * block + block)
    ensures Landed(length, block, total) == i
  {
    if i < total {
      BlockMisses(i, block, length);
    } else {
      FitsBelow(total, block, length);
    }
  }

  /** How a pass of `size` bytes ends on media of `length` bytes. */
  function PassEndOf(length: nat, size: nat, block: nat): PassEnd
    requires block > 0
  {
    if Landed(length, block, size / block) < size / block then BlockFailed
    else if size <= length then Done
    else RemainderFailed
  }

  /** How many bytes of the pass land. */
  function Reach(length: nat, size: nat, block: nat): (r: nat)
    requires block > 0
    ensures r <= length
  {
    var k := Landed(length, block, size / block);
    if k < size / block || size > length then k * block else size
  }

  /** A region that fits the media is written whole: every block lands and the pass ends normally. */
  lemma RegionFits(length: nat, size: nat, block: nat)
    requires block > 0 && size <= length
    ensures Landed(length, block, size / block) == size / block
    ensures PassEndOf(length, size, block) == Done && Reach(length, size, block) == size
  {
    BlocksAndRemainder(size, block);
    FitsBelow(size / block, block, length);
  }

  /** A pass ends normally only when the region fits the media. */
  lemma DoneFits(length: nat, size: nat, block: nat)
    requires block > 0 && PassEndOf(length, size, block) == Done
    ensures size <= length
  {
  }

  /** The media after `k` whole passes. */
  function PassesDone(base: seq<Byte>, k: nat, size: nat, rng: Entropy): seq<Byte> {
    if k == 0 || size > |base| then base else Overwritten(rng, k - 1, size, base)
  }

  /** The media after `passes` passes over the region, the first of which stops where the media ends. */
  function RegionMedia(base: seq<Byte>, passes: nat, size: nat, block: nat, rng: Entropy): seq<Byte>
    requires block > 0
  {
    if passes == 0 then base
    else if size <= |base| then Overwritten(rng, passes - 1, size, base)
    else Overwritten(rng, 0, Reach(|base|, size, block), base)
  }

  /** A whole drive after the first `k` full passes: untouched, or the fresh data of the last of them. */
  function AfterPasses(base: seq<Byte>, rng: Entropy, k: nat): (r: seq<Byte>)
    ensures |r| == |base|
  {
    if k == 0 then base else Random(rng, k - 1, 0, |base|)
  }

  lemma MulSucc(i: nat, b: nat)
    ensures (i + 1) * b == i * b + b
  {
  }

  /**
   * Writes the `n` fresh random bytes of pass `p` at offset `w` (`os.urandom`
   * then `write`), feeding them to the hash when `hashIt` holds.
   */
  method WriteRandom(h: Handle, p: nat, w: nat, n: nat, rng: Entropy, hashIt: bool,
                     ghost base: seq<Byte>, ghost hashed0: seq<Byte>, hashed: seq<Byte>)
    returns (hashed': seq<Byte>)
    requires h.isOpen && h.pos == w && w + n <= |base| == h.data.Length
    requires h.data[..] == Overwritten(rng, p, w, base)
    requires hashed == hashed0 + Fed(hashIt, rng, p, w)
    modifies h`pos, h.data
    ensures h.pos == w + n && h.data[..] == Overwritten(rng, p, w + n, base)
    ensures hashed' == hashed0 + Fed(hashIt, rng, p, w + n)
  {
    var data := Random(rng, p, w, n);
    h.Write(data);
    BlockStep(rng, p, w, n, base);
    if hashIt {
      HashStep(hashed0, rng, p, w, n);
      hashed' := hashed + data;
    } else {
      hashed' := hashed;
    }
  }

  /**
   * The same write on a device that fails, changing nothing, when the bytes
   * do not fit between the position and the end of the media.
   */
  method TryWriteRandom(h: Handle, p: nat, w: nat, n: nat, rng: Entropy,
                        ghost base: seq<Byte>, ghost hashed0: seq<Byte>, hashed: seq<Byte>)
    returns (ok: bool, hashed': seq<Byte>)
    requires h.isOpen && h.pos == w && w <= |base| == h.data.Length
    requires h.data[..] == Overwritten(rng, p, w, base)
    requires hashed == hashed0 + Random(rng, p, 0, w)
    modifies h`pos, h.data
    ensures ok <==> w + n <= |base|
    ensures ok ==> h.pos == w + n && h.data[..] == Overwritten(rng, p, w + n, base)
    ensures ok ==> hashed' == hashed0 + Random(rng, p, 0, w + n)
    ensures !ok ==> h.pos == w && h.data[..] == Overwritten(rng, p, w, base) && hashed' == hashed
  {
    var data := Random(rng, p, w, n);
    ok := h.TryWrite(data);
    hashed' := hashed;
    if ok {
      BlockStep(rng, p, w, n, base);
      HashStep(hashed0, rng, p, w, n);
      hashed' := hashed + data;
    }
  }
}
