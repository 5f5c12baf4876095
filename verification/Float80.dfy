/** The 80-bit x87 format: encodings, classes and exact values. */
module Float80s {
  import opened Powers
  import opened Rounding

  /** The width of a significand. */
  const BYTE: nat := 8
  const HALF: nat := 4 * BYTE
  const W: nat := 2 * HALF
  /** The top bit of a 128-bit significand. */
  const TOP: nat := 2 * W - 1

  type U64 = n: nat | n < Pow2(W)
  type U128 = n: nat | n < Pow2(2 * W)
  type ExpField = n: nat | n <= 0x7fff

  datatype Float80 = Float80(signif: U64, exp: ExpField, sign: bool)

  const BIAS80: int := 0x3fff
  const EXP_MAX: int := 0x7ffe
  const EXP_MIN: int := 1
  const EXP_SPECIAL: int := 0x7fff
  /** The exponent of the smallest normal, and of the largest. */
  const EMIN: int := EXP_MIN - BIAS80
  const EMAX: int := EXP_MAX - BIAS80

  /** The unbiased exponent; a denormal's field of 0 means the same scale as 1. */
  function UnbiasDenormal(exp: int): int {
    (if exp == 0 then EXP_MIN else exp) - BIAS80
  }

  predicate IsSupported(f: Float80) {
    if f.exp == 0 then f.signif < Pow2(W - 1) else f.signif >= Pow2(W - 1)
  }

  predicate IsNaN(f: Float80) { f.exp == EXP_SPECIAL && Low(f.signif, W - 1) != 0 }
  predicate IsInf(f: Float80) { f.exp == EXP_SPECIAL && Low(f.signif, W - 1) == 0 }
  predicate IsZero(f: Float80) { f.exp == 0 && f.signif == 0 }
  predicate IsDenormal(f: Float80) { f.exp == 0 && f.signif != 0 }
  predicate IsSNaN(f: Float80) { IsNaN(f) && Shr(f.signif, W - 2) % 2 == 0 }
  predicate IsFinite(f: Float80) { f.exp < EXP_SPECIAL }

  const NAN: Float80 := Float80(Pow2(W - 1) + Pow2(W - 2), EXP_SPECIAL, false)
  const INDEFINITE: Float80 := Float80(Pow2(W - 1) + Pow2(W - 2), EXP_SPECIAL, true)

  function Zero(sign: bool): Float80 { Float80(0, 0, sign) }
  function Inf(sign: bool): Float80 { Float80(Pow2(W - 1), EXP_SPECIAL, sign) }
  function Neg(f: Float80): Float80 { f.(sign := !f.sign) }
  function AbsF(f: Float80): Float80 { f.(sign := false) }

  /** The magnitude of a finite number. */
  ghost function Mag(f: Float80): (m: real)
    ensures m >= 0.0
  {
    ScalePositive(f.signif as real, UnbiasDenormal(f.exp) - (W - 1));
    Scale(f.signif as real, UnbiasDenormal(f.exp) - (W - 1))
  }

  ghost function Value(f: Float80): real { if f.sign then -Mag(f) else Mag(f) }

  /** The x87 format at p bits of precision control. */
  function X87(p: nat): Format { Format(p, EMIN, EMAX) }

  /** f is the supported encoding of a rounded magnitude. */
  ghost predicate Delivers(f: Float80, sign: bool, mag: Magnitude) {
    match mag
    case Infinite => f == Inf(sign)
    case Finite(n, q) => IsFinite(f) && IsSupported(f) && f.sign == sign && Mag(f) == Scale(n as real, q)
  }

  lemma InfIsInf(x: Float80)
    requires IsSupported(x) && IsInf(x)
    ensures x == Inf(x.sign)
  {
    ShrLow(x.signif, W - 1);
    ShrPow2(x.signif, W - 1, 1);
    ShrPow2(x.signif, W - 1, 0);
    ShlOne(0, W - 1);
  }

  // ---- the format in numbers ----

  /** A finite encoding is worth its significand times 2^(exponent field - 16446), a field of 0 counting as 1. The
      exponents are those of the extended format at every width of precision control. */
  lemma X87InNumbers(f: Float80, p: nat)
    ensures Mag(f) == Scale(f.signif as real, (if f.exp == 0 then 1 else f.exp) - 16446)
    ensures f.signif < Pow2(64)
    ensures IsFinite(f) <==> f.exp != 0x7fff
    ensures X87(p) == Format(p, -16382, 16383)
  {
  }

  lemma OneInNumbers(sign: bool)
    ensures Mag(Float80(Pow2(63), 0x3fff, sign)) == 1.0
  {
    UnitSignificand(W - 1);
  }

  lemma UnitSignificand(n: nat)
    ensures Scale(Pow2(n) as real, 0 - n) == 1.0
  {
    ScalePow2(n);
    ScaleMove(1.0, Pow2(n) as real, n);
  }

  /** The classes, by the bits they look at. */
  lemma ClassesInNumbers(f: Float80)
    ensures IsSupported(f) <==> (f.exp == 0 <==> f.signif < Pow2(63))
    ensures IsNaN(f) <==> f.exp == 0x7fff && f.signif % Pow2(63) != 0
    ensures IsInf(f) <==> f.exp == 0x7fff && f.signif % Pow2(63) == 0
    ensures IsSNaN(f) <==> IsNaN(f) && f.signif / Pow2(62) % 2 == 0
    ensures IsDenormal(f) <==> f.exp == 0 && f.signif != 0
    ensures IsZero(f) <==> f.exp == 0 && f.signif == 0
  {
    ShiftsDivide(f.signif, 63);
    ShiftsDivide(f.signif, 62);
  }

  /** The special encodings. */
  lemma SpecialsInNumbers(sign: bool)
    ensures Zero(sign) == Float80(0, 0, sign) && Inf(sign) == Float80(Pow2(63), 0x7fff, sign)
    ensures NAN.signif == INDEFINITE.signif == Pow2(63) + Pow2(62) && NAN.exp == INDEFINITE.exp == 0x7fff
    ensures !NAN.sign && INDEFINITE.sign
  {
  }

  /** The two NaNs the code makes up are quiet. */
  lemma MadeNaNsQuiet(f: Float80)
    requires f == NAN || f == INDEFINITE
    ensures IsSupported(f) && IsNaN(f) && !IsSNaN(f)
  {
    TopTwoBits(W - 2);
  }

  lemma TopTwoBits(n: nat)
    ensures Low(Pow2(n + 1) + Pow2(n), n + 1) == Pow2(n) && Shr(Pow2(n + 1) + Pow2(n), n) == 3
  {
    ShlOne(0, n + 1);
    ShrUnique(Pow2(n + 1) + Pow2(n), n + 1, 1, Pow2(n));
    ShlSum(2, 1, n); ShlOne(1, n); ShlOne(0, n);
    ShrUnique(Pow2(n + 1) + Pow2(n), n, 3, 0);
  }

  lemma MagZero(f: Float80)
    ensures Mag(f) == 0.0 <==> f.signif == 0
  {
    ScalePositive(f.signif as real, UnbiasDenormal(f.exp) - (W - 1));
  }

  lemma MagLess(f: Float80, g: Float80)
    requires IsSupported(g)
    requires UnbiasDenormal(f.exp) < UnbiasDenormal(g.exp)
    ensures Mag(f) < Mag(g)
  {
    var a, b := UnbiasDenormal(f.exp) - (W - 1), UnbiasDenormal(g.exp) - (W - 1);
    ScaleMono(f.signif as real, Pow2(W) as real, a);
    assert Pow2(W) as real == 2.0 * Pow2(W - 1) as real;
    ScaleLinear(Pow2(W - 1) as real, Pow2(W - 1) as real, a);
    ScaleExpMono(Pow2(W - 1) as real, a, b);
    ScaleMono(g.signif as real, Pow2(W - 1) as real, b);
  }

  lemma UniqueEncoding(f: Float80, g: Float80)
    requires IsSupported(f) && IsSupported(g)
    requires f.sign == g.sign && Mag(f) == Mag(g)
    ensures f == g
  {
    if UnbiasDenormal(f.exp) < UnbiasDenormal(g.exp) { MagLess(f, g); }
    else if UnbiasDenormal(g.exp) < UnbiasDenormal(f.exp) { MagLess(g, f); }
    else { ScaleMono(f.signif as real, g.signif as real, UnbiasDenormal(f.exp) - (W - 1)); }
  }
}
