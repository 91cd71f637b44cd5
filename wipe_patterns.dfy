/**
 * The pattern library of the desktop wipe engine
 * (secure-data-wiper/utils/wipe_engine.py, classes WipePattern and WipeMethod):
 * named pass sequences made of fixed 512-byte patterns and random passes,
 * and the lookup from a method label to its sequence.
 */
module WipePatterns {
  import opened Common

  /** One overwrite pass: a fixed byte pattern, or fresh random data (Python `None`). */
  datatype PassSpec = Fixed(data: seq<Byte>) | RandomData

  /** Python `unit * n` on a byte string. */
  function Repeat(unit: seq<Byte>, n: nat): seq<Byte>
    decreases n
  {
    if n == 0 then [] else unit + Repeat(unit, n - 1)
  }

  lemma {:induction false} RepeatLength(unit: seq<Byte>, n: nat)
    ensures |Repeat(unit, n)| == |unit| * n
    decreases n
  {
    if n > 0 { RepeatLength(unit, n - 1); }
  }

  /** The pass `b'\xNN' * 512`. */
  function Solid(b: Byte): PassSpec { Fixed(Fill(b, 512)) }

  /** The passes `b'\xAA\xBB\xCC' * 170 + b'\xAA\xBB'`. */
  function Triplet(a: Byte, b: Byte, c: Byte): PassSpec {
    Fixed(Repeat([a, b, c], 170) + [a, b])
  }

  /** A random pass, or a fixed pass of 512 bytes. */
  predicate Is512(p: PassSpec) { p.Fixed? ==> |p.data| == 512 }

  lemma {:induction false} TripletIs512(a: Byte, b: Byte, c: Byte)
    ensures Is512(Triplet(a, b, c))
  {
    RepeatLength([a, b, c], 170);
  }

  const DOD_522022M: seq<PassSpec> := [Solid(0x00), Solid(0xFF), RandomData]

  const DOD_522022M_ECE: seq<PassSpec> :=
    [Solid(0x00), Solid(0xFF), RandomData, Solid(0xF6), Solid(0x00), Solid(0xFF), RandomData]

  /** Gutmann passes 1-9: four random passes, 0x55, 0xAA and the three rotations of 0x92 0x49 0x24. */
  const GUTMANN_OPENING: seq<PassSpec> :=
    [RandomData, RandomData, RandomData, RandomData,
     Solid(0x55), Solid(0xAA),
     Triplet(0x92, 0x49, 0x24), Triplet(0x49, 0x24, 0x92), Triplet(0x24, 0x92, 0x49)]

  /** Gutmann passes 10-25: the solid bytes 0x00, 0x11, ..., 0xFF. */
  const GUTMANN_SOLIDS: seq<PassSpec> :=
    [Solid(0x00), Solid(0x11), Solid(0x22), Solid(0x33), Solid(0x44), Solid(0x55),
     Solid(0x66), Solid(0x77), Solid(0x88), Solid(0x99), Solid(0xAA), Solid(0xBB),
     Solid(0xCC), Solid(0xDD), Solid(0xEE), Solid(0xFF)]

  /** Gutmann passes 26-35: random. */
  const GUTMANN_CLOSING: seq<PassSpec> :=
    [RandomData, RandomData, RandomData, RandomData, RandomData,
     RandomData, RandomData, RandomData, RandomData, RandomData]

  const GUTMANN_SIMPLIFIED: seq<PassSpec> := GUTMANN_OPENING + GUTMANN_SOLIDS + GUTMANN_CLOSING

  const SINGLE_RANDOM: seq<PassSpec> := [RandomData]

  const TRIPLE_RANDOM: seq<PassSpec> := [RandomData, RandomData, RandomData]

  // The method labels of WipeMethod.
  const DOD_3PASS: string := "DoD 5220.22-M (3-pass)"
  const DOD_7PASS: string := "DoD 5220.22-M ECE (7-pass)"
  const GUTMANN: string := "Gutmann (35-pass)"
  const RANDOM_1PASS: string := "Random (1-pass)"
  const RANDOM_3PASS: string := "Random (3-pass)"

  /** `WipeMethod.get_pattern`: a dictionary lookup that falls back to the 3-pass DoD list. */
  function GetPattern(name: string): (r: seq<PassSpec>)
    ensures name == DOD_3PASS ==> r == DOD_522022M
    ensures name == DOD_7PASS ==> r == DOD_522022M_ECE
    ensures name == GUTMANN ==> r == GUTMANN_SIMPLIFIED
    ensures name == RANDOM_1PASS ==> r == SINGLE_RANDOM
    ensures name == RANDOM_3PASS ==> r == TRIPLE_RANDOM
    ensures name !in {DOD_3PASS, DOD_7PASS, GUTMANN, RANDOM_1PASS, RANDOM_3PASS} ==> r == DOD_522022M
  {
    var patterns := map[DOD_3PASS := DOD_522022M, DOD_7PASS := DOD_522022M_ECE,
                         GUTMANN := GUTMANN_SIMPLIFIED, RANDOM_1PASS := SINGLE_RANDOM,
                         RANDOM_3PASS := TRIPLE_RANDOM];
    if name in patterns then patterns[name] else DOD_522022M
  }

  /** Every fixed entry of a list is 512 bytes long. */
  ghost predicate FixedAre512(pattern: seq<PassSpec>) {
    forall i :: 0 <= i < |pattern| ==> Is512(pattern[i])
  }

  lemma SolidIs512(b: Byte)
    ensures Is512(Solid(b))
  {
  }

  lemma FixedAre512Append(a: seq<PassSpec>, b: seq<PassSpec>)
    requires FixedAre512(a) && FixedAre512(b)
    ensures FixedAre512(a + b)
  {
    forall i | 0 <= i < |a + b| ensures Is512((a + b)[i]) {
      if i >= |a| { assert (a + b)[i] == b[i - |a|]; }
    }
  }

  lemma GutmannOpening()
    ensures FixedAre512(GUTMANN_OPENING)
  {
    TripletIs512(0x92, 0x49, 0x24);
    TripletIs512(0x49, 0x24, 0x92);
    TripletIs512(0x24, 0x92, 0x49);
  }

  lemma GutmannSolids()
    ensures FixedAre512(GUTMANN_SOLIDS)
  {
  }

  lemma GutmannShape()
    ensures |GUTMANN_SIMPLIFIED| == 35 && FixedAre512(GUTMANN_SIMPLIFIED)
  {
    GutmannOpening();
    GutmannSolids();
    FixedAre512Append(GUTMANN_OPENING, GUTMANN_SOLIDS);
    FixedAre512Append(GUTMANN_OPENING + GUTMANN_SOLIDS, GUTMANN_CLOSING);
  }

  /** The five named lists have the lengths their names promise and only 512-byte fixed passes. */
  lemma NamedPatternShapes()
    ensures |DOD_522022M| == 3 && |DOD_522022M_ECE| == 7 && |GUTMANN_SIMPLIFIED| == 35
    ensures |SINGLE_RANDOM| == 1 && |TRIPLE_RANDOM| == 3
    ensures FixedAre512(DOD_522022M) && FixedAre512(DOD_522022M_ECE) && FixedAre512(GUTMANN_SIMPLIFIED)
    ensures FixedAre512(SINGLE_RANDOM) && FixedAre512(TRIPLE_RANDOM)
  {
    GutmannShape();
  }

  /** DOD_522022M is exactly zeros, ones, random; and every list returned by the lookup is non-empty. */
  lemma DodWithDefault(name: string)
    ensures DOD_522022M == [Fixed(Fill(0x00, 512)), Fixed(Fill(0xFF, 512)), RandomData]
    ensures |GetPattern(name)| >= 1 && FixedAre512(GetPattern(name))
  {
    NamedPatternShapes();
  }
}
