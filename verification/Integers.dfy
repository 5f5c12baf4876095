/** Conversions to and from 64-bit integers, and rounding to an integral value. */
module Integers {
  import opened Powers
  import opened Rounding
  import opened StickyBits
  import opened Float80s
  import opened Normalize
  import opened Operands

  type I64 = n: int | 0 <= n + Pow2(W - 1) < Pow2(W)

  function Size(i: int): nat { if i < 0 then -i else i }
  function Signed(sign: bool, n: nat): int { if sign then 0 - n else n }

  // ---- f80_normalize ----

  /** Shift left as far as the leading zeros or the exponent allow. */
  function NormalizeFloat(f: Float80): Float80
    requires f.exp == 0 || f.exp == EXP_SPECIAL ==> IsSupported(f)
    requires f.exp > 0 ==> f.signif > 0
  {
    if f.exp == 0 then f
    else
      var shift := Clz64(f.signif);
      if f.exp - shift < EXP_MIN then
        ShlFits(f.signif, W, shift, f.exp - EXP_MIN);
        Float80(Shl(f.signif, f.exp - EXP_MIN), 0, f.sign)
      else
        ShlFits(f.signif, W, shift, shift);
        Float80(Shl(f.signif, shift), f.exp - shift, f.sign)
  }

  lemma NormalizeFloatExact(f: Float80)
    requires f.exp == 0 || f.exp == EXP_SPECIAL ==> IsSupported(f)
    requires f.exp > 0 ==> f.signif > 0
    ensures Mag(NormalizeFloat(f)) == Mag(f)
    ensures IsSupported(NormalizeFloat(f)) && NormalizeFloat(f).sign == f.sign
    ensures f.exp < EXP_SPECIAL ==> IsFinite(NormalizeFloat(f))
  {
    if f.exp > 0 {
      var shift := Clz64(f.signif);
      if f.exp - shift < EXP_MIN {
        ShlFits(f.signif, W, shift, f.exp - EXP_MIN);
        Pow2Mono(W - shift + (f.exp - EXP_MIN), W - 1);
        ScaleShl(f.signif, f.exp - EXP_MIN, EMIN - W + 1);
      } else {
        ShlBelow(f.signif, W - 1 - shift, shift);
        ScaleShl(f.signif, shift, f.exp - shift - BIAS80 - W + 1);
      }
    }
  }

  /** A supported number is already normalized. */
  lemma NormalizeFloatNoop(f: Float80)
    requires IsSupported(f)
    ensures NormalizeFloat(f) == f
  {
    if f.exp > 0 {
      var z := Clz64(f.signif);
      if z > 0 { Pow2Mono(W - z, W - 1); }
    }
  }

  // ---- from an integer ----

  function FromInt(i: I64): Float80 {
    var f := Float80(Size(i), if i == 0 then 0 else W - 1 + BIAS80, i < 0);
    NormalizeFloat(f)
  }

  lemma FromIntExact(i: I64)
    ensures Ordinary(FromInt(i)) && Value(FromInt(i)) == i as real
    ensures FromInt(i).sign == (i < 0)
  {
    NormalizeFloatExact(Float80(Size(i), if i == 0 then 0 else W - 1 + BIAS80, i < 0));
    ScaleZero(EMIN - W + 1);
  }

  /** The integers are those of 64 bits in two's complement, and 1 is encoded as the x87 encodes it. */
  lemma IntegersInNumbers(i: I64)
    ensures -0x8000_0000_0000_0000 <= i < 0x8000_0000_0000_0000
    ensures Fits(1) && FromInt(1) == Float80(Pow2(63), 0x3fff, false)
  {
    Pow2InNumbers();
    FromIntExact(1);
    OneInNumbers(false);
    UniqueEncoding(FromInt(1), Float80(Pow2(W - 1), 0x3fff, false));
  }

  // ---- the rounding shift over every shift ----

  lemma ShiftedFraction(i: nat, n: nat, shift: int)
    requires 0 < i < Pow2(n) && shift >= n
    ensures 0.0 < Scale(i as real, -shift) < 1.0
    ensures shift > n ==> Scale(i as real, -shift) < 0.5
    ensures shift == n && n > 0 ==> (Scale(i as real, -shift) > 0.5 <==> i > Pow2(n - 1))
    ensures shift == n && n > 0 ==> (Scale(i as real, -shift) == 0.5 <==> i == Pow2(n - 1))
  {
    ScalePositive(i as real, -shift);
    ScaleMove(i as real, 1.0, -shift);
    ScaleMove(i as real, 0.5, -shift);
    ScalePow2(shift);
    Pow2Mono(n, shift);
    if shift > n { Pow2Mono(n, shift - 1); }
  }

  /** u128_shift_right_round divides by 2^shift and rounds, except that a shift of all 128 bits loses the half bit. */
  lemma ShiftRoundExactly(mode: Mode, sign: bool, i: nat, shift: int)
    requires i < Pow2(2 * W) && shift >= 0
    ensures ShiftRound(mode, sign, i, shift) == RoundInt(mode, sign, Scale(i as real, -shift)) <==>
            !(shift == 2 * W && mode.Nearest? && i > Pow2(TOP))
  {
    var z := Scale(i as real, -shift);
    if shift == 0 {
    } else if shift < 2 * W {
      RoundShiftExact(mode, sign, i, shift, Scale(i as real, -shift));
    } else if i == 0 {
      ScaleZero(-shift);
    } else {
      ShiftedFraction(i, 2 * W, shift);
      if shift > 2 * W { BelowHalf(mode, sign, z); } else { assert z.Floor == 0; }
    }
  }

  /** For a 64-bit significand it is right at every shift, flags included. */
  lemma ShiftRoundSignificand(mode: Mode, sign: bool, i: U64, shift: int)
    requires shift >= 0
    ensures var n, z := ShiftRound(mode, sign, i, shift), Scale(i as real, -shift);
            && n == RoundInt(mode, sign, z) && 0 <= n
            && (Low(i, shift) != 0 <==> z != n as real)
            && (n > Shr(i, shift) <==> n as real > z)
  {
    Pow2Mono(W, TOP); Pow2Mono(W, 2 * W);
    ShiftRoundExactly(mode, sign, i, shift);
    if 0 < shift < 2 * W {
      RoundShiftExact(mode, sign, i, shift, Scale(i as real, -shift));
    } else if shift >= 2 * W {
      AllLow(i, W, shift);
      if i > 0 { ShiftedFraction(i, W, shift); } else { ScaleZero(-shift); }
    }
  }

  lemma ShiftOf128LosesHalf()
    ensures ShiftRound(Nearest, false, Pow2(TOP) + 1, 2 * W) == 0
    ensures RoundInt(Nearest, false, Scale((Pow2(TOP) + 1) as real, -128)) == 1
  {
    ShiftedFraction(Pow2(TOP) + 1, 2 * W, 2 * W);
    assert Scale((Pow2(TOP) + 1) as real, -128).Floor == 0;
  }

  // ---- to an integer ----

  /** Shifting out the bits below the point rounds the magnitude; a denormal's odd scale does not show. */
  lemma IntegralShift(mode: Mode, f: Float80)
    requires Ordinary(f) && f.exp <= W - 1 + BIAS80
    ensures var shift := W - 1 + BIAS80 - f.exp;
            var n := ShiftRound(mode, f.sign, f.signif, shift);
            && n == RoundInt(mode, f.sign, Mag(f)) && 0 <= n
            && (Low(f.signif, shift) != 0 <==> n as real != Mag(f))
            && (n > Shr(f.signif, shift) <==> n as real > Mag(f))
  {
    var shift := W - 1 + BIAS80 - f.exp;
    ShiftRoundSignificand(mode, f.sign, f.signif, shift);
    if f.exp == 0 {
      ScaleSucc(f.signif as real, -shift);
      if f.signif > 0 {
        ShiftedFraction(f.signif, W, shift); ShiftedFraction(f.signif, W, shift - 1);
        BelowHalf(mode, f.sign, Scale(f.signif as real, -shift));
        BelowHalf(mode, f.sign, Mag(f));
      } else {
        ScaleZero(-shift);
      }
    }
  }

  predicate Fits(t: int) { 0 <= t + Pow2(W - 1) < Pow2(W) }

  lemma TooBigForInt(mode: Mode, f: Float80)
    requires Ordinary(f) && f.exp > W - 1 + BIAS80
    ensures RoundInt(mode, f.sign, Mag(f)) >= Pow2(W)
  {
    var e := f.exp - BIAS80 - W + 1;
    ScaleNat(f.signif, e);
    ShlBelow(f.signif, W - 1, e);
    Pow2Mono(W, W - 1 + e);
  }

  /** The rounded integer, as the source's comparison with INT64_MAX sees it. */
  lemma FitsTest(sign: bool, n: nat)
    ensures n > Pow2(W - 1) - 1 + (if sign then 1 else 0) <==> !Fits(Signed(sign, n))
  {
  }

  /** f80_to_int: the rounded integer, or the integer indefinite when it does not fit. */
  method ToInt(env: Env, f: Float80) returns (r: I64)
    modifies env
    ensures var t := Signed(f.sign, if Ordinary(f) then Size(RoundInt(old(env.mode), f.sign, Mag(f))) else 0);
            if Ordinary(f) && Fits(t) then
              && r == t
              && env.mode == old(env.mode) && env.precision == old(env.precision)
              && env.exceptions == old(env.exceptions)
              && env.inexact == (old(env.inexact) || t as real != Value(f))
              && env.roundedUp == (old(env.roundedUp) || Size(t) as real > Mag(f))
            else
              && r == 0 - Pow2(W - 1)
              && env.mode == old(env.mode) && env.precision == old(env.precision)
              && env.exceptions == old(env.exceptions) + {Invalid}
              && env.inexact == (old(env.inexact) && (!IsSupported(f) || f.exp > W - 1 + BIAS80))
              && env.roundedUp == (old(env.roundedUp) && (!IsSupported(f) || f.exp > W - 1 + BIAS80))
  {
    if !IsSupported(f) || f.exp > W - 1 + BIAS80 {
      if Ordinary(f) { TooBigForInt(env.mode, f); }
      env.exceptions := env.exceptions + {Invalid};
      return 0 - Pow2(W - 1);
    }
    IntegralShift(env.mode, f);
    Pow2Mono(W, 2 * W);
    var n := ShiftRightRound(env, f.signif, W - 1 + BIAS80 - f.exp, f.sign);
    FitsTest(f.sign, n);
    if n > Pow2(W - 1) - 1 + (if f.sign then 1 else 0) {
      env.exceptions := env.exceptions + {Invalid};
      env.inexact, env.roundedUp := false, false;
      return 0 - Pow2(W - 1);
    }
    return Signed(f.sign, n);
  }

  // ---- rounding to an integral value ----

  lemma AlreadyIntegral(mode: Mode, f: Float80)
    requires Ordinary(f) && f.exp >= W - 1 + BIAS80
    ensures RoundInt(mode, f.sign, Mag(f)) as real == Mag(f)
  {
    ScaleNat(f.signif, f.exp - BIAS80 - W + 1);
  }

  /** The rounded integer back as a float80. */
  lemma IntegralFloat(n: nat, sign: bool)
    requires n < Pow2(W)
    ensures var f := Float80(n, if n == 0 then 0 else W - 1 + BIAS80, sign);
            && Mag(f) == n as real && Mag(NormalizeFloat(f)) == n as real
            && Ordinary(NormalizeFloat(f)) && NormalizeFloat(f).sign == sign
  {
    NormalizeFloatExact(Float80(n, if n == 0 then 0 else W - 1 + BIAS80, sign));
    ScaleZero(EMIN - W + 1);
  }

  lemma RoundedFits(mode: Mode, sign: bool, i: U64, shift: nat)
    requires shift > 0
    ensures ShiftRound(mode, sign, i, shift) <= Pow2(W - 1)
  {
    if shift <= TOP {
      ShiftedBelowTop(i, shift);
    }
  }

  lemma ShiftedBelowTop(i: U64, shift: nat)
    requires shift > 0
    ensures Shr(i, shift) < Pow2(W - 1)
  {
    ShrPow2(i, shift, W - 1);
    Pow2Mono(W, shift + (W - 1));
  }

  /** f80_round. */
  method RoundToIntegral(env: Env, f: Float80) returns (r: Float80)
    modifies env
    ensures Ordinary(f) ==>
              && Ordinary(r) && r.sign == f.sign && Mag(r) == RoundInt(old(env.mode), f.sign, Mag(f)) as real
              && env.mode == old(env.mode) && env.precision == old(env.precision)
              && env.exceptions == old(env.exceptions)
              && env.inexact == (old(env.inexact) || Mag(r) != Mag(f))
              && env.roundedUp == (old(env.roundedUp) || Mag(r) > Mag(f))
    ensures !IsSupported(f) ==> r == NAN && env.Only({Invalid})
    ensures IsSupported(f) && IsSNaN(f) ==> r == Quiet(f) && env.Only({Invalid})
    ensures IsSupported(f) && !IsFinite(f) && !IsSNaN(f) ==> r == f && env.Only({})
  {
    if !IsSupported(f) {
      env.exceptions := env.exceptions + {Invalid};
      return NAN;
    }
    if IsSNaN(f) {
      env.exceptions := env.exceptions + {Invalid};
      return Quiet(f);
    }
    var bitsToClear := W - 1 + BIAS80 - f.exp;
    if bitsToClear <= 0 {
      if Ordinary(f) { AlreadyIntegral(env.mode, f); }
      return f;
    }
    IntegralShift(env.mode, f);
    RoundedFits(env.mode, f.sign, f.signif, bitsToClear);
    Pow2Mono(W, 2 * W);
    var n := ShiftRightRound(env, f.signif, bitsToClear, f.sign);
    IntegralFloat(n, f.sign);
    if n == 0 {
      return Float80(0, 0, f.sign);
    }
    return NormalizeFloat(Float80(n, W - 1 + BIAS80, f.sign));
  }

  /** Rounding an integral value again changes nothing and raises nothing. */
  method RoundTwice(env: Env, f: Float80) returns (once: Float80, twice: Float80)
    requires Ordinary(f)
    modifies env
    ensures twice == once && Ordinary(once)
    ensures env.inexact == (old(env.inexact) || Mag(once) != Mag(f))
    ensures env.roundedUp == (old(env.roundedUp) || Mag(once) > Mag(f))
  {
    once := RoundToIntegral(env, f);
    twice := RoundToIntegral(env, once);
    UniqueEncoding(once, twice);
  }

  /** An integer converted and converted back is itself, in every mode, with no flag. */
  method IntRoundTrip(env: Env, i: I64) returns (r: I64)
    modifies env
    ensures r == i && env.Only({})
  {
    FromIntExact(i);
    r := ToInt(env, FromInt(i));
  }

  /** Where the integer fits, converting is rounding. */
  method ToIntIsRound(env: Env, f: Float80) returns (i: I64, r: Float80)
    requires Ordinary(f)
    modifies env
    ensures var t := Signed(r.sign, Size(Mag(r).Floor));
            if Fits(t) then i as real == Value(r) else i == 0 - Pow2(W - 1) && Invalid in env.exceptions
  {
    r := RoundToIntegral(env, f);
    i := ToInt(env, f);
  }
}
