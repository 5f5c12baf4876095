/** Comparing by subtracting. */
module Comparison {
  import opened Powers
  import opened Rounding
  import opened Float80s
  import opened Normalize
  import opened Operands
  import opened Addition

  /** The place of the last bit of the smallest denormal, and a finite number as a multiple of it. */
  const UNIT: int := EMIN - W + 1

  function Units(f: Float80): nat { Shl(f.signif, UnbiasDenormal(f.exp) - EMIN) }

  lemma MagIsUnits(f: Float80)
    ensures Mag(f) == Scale(Units(f) as real, UNIT)
  {
    ScaleShl(f.signif, UnbiasDenormal(f.exp) - EMIN, UNIT);
  }

  lemma UnitsCompare(a: Float80, b: Float80)
    ensures Mag(a) < Mag(b) <==> Units(a) < Units(b)
    ensures Mag(a) == Mag(b) <==> Units(a) == Units(b)
  {
    MagIsUnits(a); MagIsUnits(b);
    ScaleMono(Units(a) as real, Units(b) as real, UNIT);
  }

  // ---- what rounding can hide ----

  ghost predicate RoundsToZero(fmt: Format, mode: Mode, sign: bool, x: real)
    requires x > 0.0
  {
    RoundAt(mode, sign, x, Quantum(fmt, x)) == 0
  }

  /** A nonzero result is lost only below the smallest subnormal of the precision: below half of it when rounding
      to nearest, never when rounding away. */
  lemma RoundsToZeroIff(fmt: Format, mode: Mode, sign: bool, x: real)
    requires x > 0.0 && fmt.p > 0
    ensures RoundsToZero(fmt, mode, sign, x) <==>
            if AwayFromZero(mode, sign) then false
            else if mode.Nearest? then x <= Scale(1.0, fmt.emin - fmt.p)
            else x < Scale(1.0, fmt.emin - fmt.p + 1)
  {
    var q := fmt.emin - fmt.p + 1;
    ScaleMove(1.0, x, q);
    ScaleMove(0.5, x, q);
    ScaleSucc(1.0, q - 1); ScaleLinear(0.5, 0.5, q);
    ScalePositive(x, -q);
    if Exponent(x) >= fmt.emin {
      RoundAtLeast(fmt, mode, sign, x);
      ScalePositive(1.0, Exponent(x));
      ScaleZero(Quantum(fmt, x));
      ScaleMove(1.0, x, Exponent(x));
      ScaleExpMono(1.0, q, Exponent(x));
    } else {
      SmallRounds(mode, sign, Scale(x, -q));
    }
  }

  lemma SmallRounds(mode: Mode, sign: bool, z: real)
    requires z > 0.0
    ensures RoundInt(mode, sign, z) == 0 <==>
            if AwayFromZero(mode, sign) then false else if mode.Nearest? then z <= 0.5 else z < 1.0
  {
  }

  /** At full precision no difference of two float80 numbers is lost. */
  lemma UnitsNeverVanish(mode: Mode, sign: bool, k: nat, x: real)
    requires k > 0 && x == Scale(k as real, UNIT)
    ensures x > 0.0 && !RoundsToZero(X87(W), mode, sign, x)
  {
    ScalePositive(k as real, UNIT);
    RoundsToZeroIff(X87(W), mode, sign, x);
    ScaleMono(1.0, k as real, UNIT);
    ScaleExpMono(1.0, EMIN - W, UNIT);
    ScalePositive(1.0, EMIN - W);
  }

  lemma ZeroDelivered(f: Float80, p: nat, mode: Mode, v: real)
    requires v != 0.0 && p > 0
    requires Delivers(f, v < 0.0, Round(X87(p), mode, v < 0.0, Abs(v)).mag)
    ensures f.sign == (v < 0.0)
    ensures IsZero(f) <==> RoundsToZero(X87(p), mode, v < 0.0, Abs(v))
  {
    var x, sign := Abs(v), v < 0.0;
    RoundUnfolds(X87(p), mode, sign, x);
    var q := Quantum(X87(p), x);
    ScaleZero(q);
    ScalePositive(1.0, EMAX + 1);
    ScalePositive(RoundAt(mode, sign, x, q) as real, q);
    ScalePositive((Pow2(p) - 1) as real, EMAX - p + 1);
    MagZero(f);
    assert Pow2(p) >= 2;
  }

  /** The order of two numbers, infinities included. */
  ghost predicate Below(a: Float80, b: Float80) {
    if IsInf(a) || IsInf(b)
    then (IsInf(a) && a.sign && !(IsInf(b) && b.sign)) || (IsInf(b) && !b.sign && !(IsInf(a) && !a.sign))
    else Value(a) < Value(b)
  }

  /** Below, unless precision control rounds the difference away. */
  method Lt(env: Env, a: Float80, b: Float80) returns (r: bool)
    modifies env
    ensures env.mode == old(env.mode) && env.precision == old(env.precision)
    ensures NotNumbers(a, b) ==> !r && env.Only({})
    ensures Numbers(a, b) && (IsInf(a) || IsInf(b)) ==> r == Below(a, b) && env.Only({})
    ensures Ordinary(a) && Ordinary(b) ==>
              r == (Below(a, b) && !RoundsToZero(X87(env.P()), env.mode, true, Value(b) - Value(a)))
    ensures Ordinary(a) && Ordinary(b) && Value(a) == Value(b) ==> env.Only({})
    ensures Ordinary(a) && Ordinary(b) && Value(a) != Value(b) ==>
              env.Raised(Round(X87(env.P()), env.mode, Value(a) < Value(b), Rounding.Abs(Value(a) - Value(b))))
  {
    if NotNumbers(a, b) {
      return false;
    }
    if IsInf(a) && IsInf(b) && a.sign == b.sign {
      return false;
    }
    MagZero(a); MagZero(b);
    if IsZero(a) && IsZero(b) {
      return false;
    }
    r := NegativeDifference(env, a, b);
  }

  /** Whether the rounded difference is negative. */
  method NegativeDifference(env: Env, a: Float80, b: Float80) returns (r: bool)
    requires Numbers(a, b) && !(IsZero(a) && IsZero(b)) && !(IsInf(a) && IsInf(b) && a.sign == b.sign)
    modifies env
    ensures env.mode == old(env.mode) && env.precision == old(env.precision)
    ensures IsInf(a) || IsInf(b) ==> r == Below(a, b) && env.Only({})
    ensures Ordinary(a) && Ordinary(b) ==>
              r == (Below(a, b) && !RoundsToZero(X87(env.P()), env.mode, true, Value(b) - Value(a)))
    ensures Ordinary(a) && Ordinary(b) && Value(a) == Value(b) ==> env.Only({})
    ensures Ordinary(a) && Ordinary(b) && Value(a) != Value(b) ==>
              env.Raised(Round(X87(env.P()), env.mode, Value(a) < Value(b), Rounding.Abs(Value(a) - Value(b))))
  {
    var diff := Sub(env, a, b);
    if Ordinary(a) && Ordinary(b) && Value(a) != Value(b) {
      ZeroDelivered(diff, env.P(), env.mode, Value(a) - Value(b));
    }
    return diff.sign && !IsZero(diff);
  }

  lemma LtExactAtFullPrecision(a: Float80, b: Float80, mode: Mode)
    requires Value(a) < Value(b)
    ensures !RoundsToZero(X87(W), mode, true, Value(b) - Value(a))
  {
    MagIsUnits(a); MagIsUnits(b);
    var ka, kb := Units(a) as real, Units(b) as real;
    ScaleLinear(ka, kb, UNIT); ScaleLinear(kb, ka, UNIT);
    var k := (if b.sign then 0 - Units(b) else Units(b)) - (if a.sign then 0 - Units(a) else Units(a));
    ScaleLinear(0.0, ka + kb, UNIT); ScaleZero(UNIT);
    assert Value(b) - Value(a) == Scale(k as real, UNIT);
    ScalePositive(k as real, UNIT);
    UnitsNeverVanish(mode, true, k, Value(b) - Value(a));
  }

  function Eq(a: Float80, b: Float80): bool {
    if NotNumbers(a, b) then false
    else
      var a' := if IsZero(a) then a.(sign := false) else a;
      var b' := if IsZero(b) then b.(sign := false) else b;
      a' == b'
  }

  lemma EqIsEqual(a: Float80, b: Float80)
    requires Ordinary(a) && Ordinary(b)
    ensures Eq(a, b) <==> Value(a) == Value(b)
  {
    MagZero(a); MagZero(b);
    if Value(a) == Value(b) {
      assert Mag(a) == Mag(b);
      if a.sign == b.sign { UniqueEncoding(a, b); }
    }
  }

  /** With an infinity, equality is being the same infinity; a NaN or an unsupported operand equals nothing. */
  lemma EqOfOthers(a: Float80, b: Float80)
    ensures !IsSupported(a) || !IsSupported(b) || IsNaN(a) || IsNaN(b) ==> !Eq(a, b)
    ensures Numbers(a, b) && (IsInf(a) || IsInf(b)) ==> (Eq(a, b) <==> IsInf(a) && IsInf(b) && a.sign == b.sign)
  {
    if Numbers(a, b) && IsInf(a) { InfIsInf(a); }
    if Numbers(a, b) && IsInf(b) { InfIsInf(b); }
  }

  /** At 53 bits the smallest denormal is not found greater than zero: the difference rounds away. */
  lemma SmallDifferenceLost()
    ensures var a, b := Zero(false), Float80(1, 0, false);
            && Ordinary(a) && Ordinary(b) && Value(a) < Value(b)
            && RoundsToZero(X87(53), Nearest, true, Value(b) - Value(a))
  {
    var a, b := Zero(false), Float80(1, 0, false);
    Pow2Mono(1, W - 1);
    ScaleZero(EMIN - (W - 1));
    ScalePositive(1.0, EMIN - (W - 1));
    ScaleExpMono(1.0, EMIN - (W - 1), EMIN - 53);
    RoundsToZeroIff(X87(53), Nearest, true, Value(b) - Value(a));
  }
}
