/**
 * Shared vocabulary of the model: bytes, caller-supplied randomness and
 * hash functions, the asynchronous stop flag, and the few string operations
 * the sources use (ASCII case folding, prefix/suffix/substring tests,
 * decimal and hexadecimal rendering).
 */
module Common {

  /** One byte of a file, a device or a random stream. */
  newtype Byte = b: int | 0 <= b < 256

  /**
   * The operating system's random source, supplied by the caller:
   * `rng(pass, offset)` is the byte drawn for position `offset` of pass
   * `pass`.  Distinct arguments stand for distinct (fresh) draws.
   */
  type Entropy = (nat, nat) -> Byte

  /**
   * The controlling thread's stop/cancel requests: `interrupt(k)` holds when
   * the flag has been raised by the time the worker performs its `k`-th read
   * of the flag (counted from 0 within one operation).  A raised flag stays
   * raised, so the worker sees `flag || interrupt(k)`.
   */
  type Interrupts = nat -> bool

  datatype Option<T> = None | Some(value: T)

  /** A file-system path as its list of components. */
  type Path = seq<string>

  /** `os.path.dirname`. */
  function Dirname(path: Path): (r: Path)
    ensures |path| > 0 ==> r + [path[|path| - 1]] == path
  {
    if |path| == 0 then [] else path[..|path| - 1]
  }

  function Min(a: int, b: int): int { if a < b then a else b }

  /** `n` copies of byte `b` (Python `b'\xNN' * n`, Node `Buffer.alloc(n, b)`). */
  function Fill(b: Byte, n: nat): (r: seq<Byte>)
    ensures |r| == n
    ensures forall i :: 0 <= i < n ==> r[i] == b
  {
    seq(n, _ => b)
  }

  /** `n` fresh random bytes of pass `pass`, starting at offset `from`. */
  function Random(rng: Entropy, pass: nat, from: nat, n: nat): (r: seq<Byte>)
    ensures |r| == n
    ensures forall i :: 0 <= i < n ==> r[i] == rng(pass, from + i)
  {
    seq(n, i requires 0 <= i < n => rng(pass, from + i))
  }

  /** Two consecutive draws of one pass read the stream without a gap. */
  lemma RandomConcat(rng: Entropy, pass: nat, from: nat, n: nat, m: nat)
    ensures Random(rng, pass, from, n) + Random(rng, pass, from + n, m)
         == Random(rng, pass, from, n + m)
  {
    var l, r, w := Random(rng, pass, from, n), Random(rng, pass, from + n, m), Random(rng, pass, from, n + m);
    forall i | 0 <= i < n + m ensures (l + r)[i] == w[i] {
      if i >= n { assert (l + r)[i] == r[i - n]; }
    }
  }

  /** Python's `x[:n]` on a sequence. */
  function Take<T>(s: seq<T>, n: nat): (r: seq<T>)
    ensures |r| == Min(n, |s|)
    ensures r == s[..Min(n, |s|)]
  {
    if n <= |s| then s[..n] else s
  }

  /**
   * How many of the `n` flag reads starting at read `from` see a clear flag
   * before the first one that sees it raised (`n` when none does).
   */
  function FirstStop(flag: bool, interrupt: Interrupts, from: nat, n: nat): (c: nat)
    ensures c <= n
    ensures c > 0 ==> !flag
    ensures forall k :: from <= k < from + c ==> !interrupt(k)
    ensures c < n ==> flag || interrupt(from + c)
    decreases n
  {
    if n == 0 then 0
    else if flag || interrupt(from) then 0
    else 1 + FirstStop(flag, interrupt, from + 1, n - 1)
  }

  /** The stop position is the only count with the properties above. */
  lemma FirstStopIs(flag: bool, interrupt: Interrupts, from: nat, n: nat, c: nat)
    requires c <= n && (c > 0 ==> !flag)
    requires forall k :: from <= k < from + c ==> !interrupt(k)
    requires c < n ==> flag || interrupt(from + c)
    ensures FirstStop(flag, interrupt, from, n) == c
  {
  }

  // ----- characters and strings -----

  /** ASCII-only lower-casing of one character. */
  function LowerChar(c: char): (r: char)
    ensures 'A' <= c <= 'Z' ==> r as int == c as int + 32
    ensures !('A' <= c <= 'Z') ==> r == c
  {
    if 'A' <= c <= 'Z' then (c as int + 32) as char else c
  }

  function Lower(s: string): (r: string)
    ensures |r| == |s|
    ensures forall i :: 0 <= i < |s| ==> r[i] == LowerChar(s[i])
  {
    seq(|s|, i requires 0 <= i < |s| => LowerChar(s[i]))
  }

  /** ASCII-only upper-casing of one character. */
  function UpperChar(c: char): (r: char)
    ensures 'a' <= c <= 'z' ==> r as int == c as int - 32
    ensures !('a' <= c <= 'z') ==> r == c
  {
    if 'a' <= c <= 'z' then (c as int - 32) as char else c
  }

  function Upper(s: string): (r: string)
    ensures |r| == |s|
    ensures forall i :: 0 <= i < |s| ==> r[i] == UpperChar(s[i])
  {
    seq(|s|, i requires 0 <= i < |s| => UpperChar(s[i]))
  }

  predicate StartsWith(s: string, prefix: string) {
    |prefix| <= |s| && s[..|prefix|] == prefix
  }

  predicate EndsWith(s: string, suffix: string) {
    |suffix| <= |s| && s[|s| - |suffix|..] == suffix
  }

  /** `t` occurs in `s` at some position (JavaScript `includes`, a literal regular expression `test`). */
  predicate Contains(s: string, t: string) {
    exists i :: 0 <= i <= |s| - |t| && OccursAt(s, t, i)
  }

  predicate OccursAt(s: string, t: string, i: int) {
    0 <= i <= |s| - |t| && s[i..i + |t|] == t
  }

  /** A string none of whose characters starts `t` does not contain `t`. */
  lemma NotContains(s: string, t: string)
    requires |t| > 0 && forall k :: 0 <= k < |s| ==> s[k] != t[0]
    ensures !Contains(s, t)
  {
    forall i | 0 <= i <= |s| - |t|
      ensures !OccursAt(s, t, i)
    {
      assert s[i..i + |t|][0] == s[i];
    }
  }

  predicate IsDigit(c: char) { '0' <= c <= '9' }

  predicate IsLowerHex(c: char) { '0' <= c <= '9' || 'a' <= c <= 'f' }

  predicate IsUpperHex(c: char) { '0' <= c <= '9' || 'A' <= c <= 'F' }

  /** A SHA-256 `hexdigest()`: 64 lower-case hexadecimal characters. */
  type Hex64 = s: string | |s| == 64 && forall i :: 0 <= i < |s| ==> IsLowerHex(s[i])
    witness seq(64, _ => '0')

  /** A SHA-512 `hexdigest()`: 128 lower-case hexadecimal characters. */
  type Hex128 = s: string | |s| == 128 && forall i :: 0 <= i < |s| ==> IsLowerHex(s[i])
    witness seq(128, _ => '0')

  /** SHA-256 over bytes, as used by `hashlib.sha256(...).hexdigest()`; supplied by the caller. */
  type Sha256 = seq<Byte> -> Hex64

  function DigitChar(d: nat): (c: char)
    requires d < 10
    ensures IsDigit(c) && c as int - '0' as int == d
  {
    ('0' as int + d) as char
  }

  /** Decimal rendering of a natural number without leading zeros (Python `str(n)`). */
  function NatToString(n: nat): (r: string)
    ensures |r| >= 1
    ensures forall i :: 0 <= i < |r| ==> IsDigit(r[i])
    ensures |r| > 1 ==> r[0] != '0'
    decreases n
  {
    if n < 10 then [DigitChar(n)] else NatToString(n / 10) + [DigitChar(n % 10)]
  }

  /** Decimal rendering left-padded with zeros to `width` characters (`strftime` fields). */
  function PadNat(n: nat, width: nat): (r: string)
    ensures |r| >= width
    ensures forall i :: 0 <= i < |r| ==> IsDigit(r[i])
  {
    var s := NatToString(n);
    if |s| >= width then s else seq(width - |s|, _ => '0') + s
  }

  function Pow10(k: nat): (r: nat)
    ensures r > 0
  {
    if k == 0 then 1 else 10 * Pow10(k - 1)
  }

  /** A number below `10^k` has at most `k` decimal digits. */
  lemma {:induction false} DigitsFit(n: nat, k: nat)
    requires k > 0 && n < Pow10(k)
    ensures |NatToString(n)| <= k
    decreases k
  {
    if n >= 10 {
      assert k > 1;
      DigitsFit(n / 10, k - 1);
    }
  }

  /** Such a number padded to `k` characters takes exactly `k`. */
  lemma PadNatWidth(n: nat, width: nat)
    requires width > 0 && n < Pow10(width)
    ensures |PadNat(n, width)| == width
  {
    DigitsFit(n, width);
  }

  lemma ConsAppend<T>(x: T, a: seq<T>, b: seq<T>)
    ensures ([x] + a) + b == [x] + (a + b)
  {
  }

  lemma AppendAssoc<T>(a: seq<T>, b: seq<T>, c: seq<T>)
    ensures a + (b + c) == (a + b) + c
  {
  }
}
