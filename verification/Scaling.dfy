/** FSCALE and FXTRACT. */
module Scaling {
  import opened Powers
  import opened Rounding
  import opened Float80s
  import opened Normalize
  import opened Operands
  import opened Exactness
  import opened Multiplication
  import opened Integers

  const CLAMP: int := 0x10000

  lemma ClampIsPow2()
    ensures Pow2(16) == CLAMP
  {
    assert Pow2(8) == 256;
    Pow2Add(8, 8);
  }

  function Clamped(scale: int): int {
    if scale > CLAMP then CLAMP else if scale < -CLAMP then -CLAMP else scale
  }

  /** 2^16 takes any finite value out of range either way: the clamp never shows. */
  lemma {:induction false} ClampHides(f: Float80, mode: Mode, scale: int)
    requires Ordinary(f) && f.signif > 0
    ensures Scale(Mag(f), scale) > 0.0 && Scale(Mag(f), Clamped(scale)) > 0.0
    ensures Round(X87(W), mode, f.sign, Scale(Mag(f), scale)) ==
      Round(X87(W), mode, f.sign, Scale(Mag(f), Clamped(scale)))
  {
    MagExponents(f);
    ExponentScaled(Mag(f), scale);
    ExponentScaled(Mag(f), Clamped(scale));
    if scale > CLAMP {
      TooLarge(X87(W), mode, f.sign, Scale(Mag(f), scale));
      TooLarge(X87(W), mode, f.sign, Scale(Mag(f), CLAMP));
    } else if scale < -CLAMP {
      TinyOutcome(X87(W), mode, f.sign, Scale(Mag(f), scale));
      TinyOutcome(X87(W), mode, f.sign, Scale(Mag(f), -CLAMP));
    }
  }

  /** The significand at the top of 128 bits is the scaled number, exactly. */
  lemma ScaledRepresented(f: Float80, scale: int)
    requires Ordinary(f) && f.signif > 0
    ensures Shl(f.signif, W) < Pow2(2 * W) && Shl(f.signif, W) > 0
    ensures Scale(Mag(f), scale) > 0.0
    ensures Represents(Shl(f.signif, W), UnbiasDenormal(f.exp) + scale, 0, Scale(Mag(f), scale), 0)
  {
    var e := UnbiasDenormal(f.exp);
    ShlBelow(f.signif, W, W);
    ScaleShl(f.signif, W, e + scale - TOP);
    ScaleAdd(f.signif as real, e - W + 1, scale);
    ShlMono(0, f.signif, W);
    ExactRepresented(Shl(f.signif, W), Scale(Mag(f), scale), e + scale, 0);
  }

  /** x * 2^scale, rounded once in the current mode and always to 64 bits. */
  method ScaleBy(env: Env, x: Float80, scale: int) returns (r: Float80)
    modifies env
    ensures Ordinary(x) && x.signif > 0 ==>
              && Scale(Mag(x), scale) > 0.0
              && var o := Round(X87(W), env.mode, x.sign, Scale(Mag(x), scale));
                 Delivers(r, x.sign, o.mag) && env.Raised(o)
    ensures !IsSupported(x) || IsNaN(x) ==> r == NAN && env.Only({})
    ensures IsSupported(x) && (IsInf(x) || IsZero(x)) ==> r == x && env.Only({})
  {
    if !IsSupported(x) || IsNaN(x) {
      return NAN;
    }
    if IsInf(x) || IsZero(x) {
      return x;
    }
    r := ScaleFinite(env, x, scale);
  }

  method ScaleFinite(env: Env, x: Float80, scale: int) returns (r: Float80)
    requires Ordinary(x) && x.signif > 0
    modifies env
    ensures Scale(Mag(x), scale) > 0.0
    ensures var o := Round(X87(W), env.mode, x.sign, Scale(Mag(x), scale));
            Delivers(r, x.sign, o.mag) && env.Raised(o)
  {
    var clamped := Clamped(scale);
    ClampHides(x, env.mode, scale);
    ScaledRepresented(x, clamped);
    var precision := env.precision;
    env.precision := W;
    ghost var v := if x.sign then -Scale(Mag(x), clamped) else Scale(Mag(x), clamped);
    r := NormalizeRound(env, Shl(x.signif, W), UnbiasDenormal(x.exp) + clamped, x.sign, v, 0);
    env.precision := precision;
  }

  // ---- FSCALE ----

  /** trunc(y) */
  ghost function Truncated(y: Float80): int { Signed(y.sign, Size(Mag(y).Floor)) }

  lemma FloorShifted(s: nat, k: int)
    requires k >= 0
    ensures Scale(s as real, -k).Floor == Shr(s, k)
  {
    var q := Shr(s, k);
    ShrLow(s, k); LowBound(s, k);
    ScaleNat(q, k); ScalePow2(k);
    ScaleMove(q as real, s as real, k);
    ScaleLinear(q as real, 1.0, k);
    ScaleMove(q as real + 1.0, s as real, k);
  }

  /** The code's scale, clamped where the exponent says the integer part is at least 2^16. */
  function ScaleOf(y: Float80): int {
    Signed(y.sign, if y.exp >= 16 + BIAS80 then CLAMP
                   else if y.exp < BIAS80 then 0
                   else Shr(y.signif, W - 1 - (y.exp - BIAS80)))
  }

  lemma ScaleOfTruncates(y: Float80)
    requires Ordinary(y)
    ensures Clamped(ScaleOf(y)) == Clamped(Truncated(y))
  {
    if y.exp >= 16 + BIAS80 {
      LargeFloor(y);
    } else if y.exp < BIAS80 {
      SmallFloor(y);
    } else {
      FloorShifted(y.signif, W - 1 - (y.exp - BIAS80));
    }
  }

  lemma LargeFloor(y: Float80)
    requires Ordinary(y) && y.exp >= 16 + BIAS80
    ensures Mag(y).Floor >= CLAMP
  {
    var e := y.exp - BIAS80 - W + 1;
    OneAt(W - 1, e);
    ScaleMono(y.signif as real, Pow2(W - 1) as real, e);
    ScaleExpMono(1.0, 16, W - 1 + e);
    ScalePow2(16);
    ClampIsPow2();
  }

  lemma SmallFloor(y: Float80)
    requires Ordinary(y) && y.exp < BIAS80
    ensures Mag(y).Floor == 0
  {
    var e := UnbiasDenormal(y.exp) - W + 1;
    ScaleMono(y.signif as real, Pow2(W) as real, e);
    OneAt(W, e);
    ScaleExpMono(1.0, W + e, 0);
  }

  /** f80_fscale: x scaled by the integer part of y. */
  method Fscale(env: Env, x: Float80, y: Float80) returns (r: Float80)
    modifies env
    ensures Ordinary(x) && x.signif > 0 && Ordinary(y) ==>
              && Scale(Mag(x), Truncated(y)) > 0.0
              && var o := Round(X87(W), env.mode, x.sign, Scale(Mag(x), Truncated(y)));
                 Delivers(r, x.sign, o.mag) && env.RaisedWith(o, DenormalOperand(x, y))
    ensures Ordinary(x) && x.signif == 0 && Ordinary(y) ==> r == x && env.Only(DenormalOperand(x, y))
    ensures NotNumbers(x, y) ==> NotNumber(env, x, y, r)
    ensures Numbers(x, y) && IsInf(x) && Ordinary(y) ==> r == x && env.Only(DenormalOperand(x, y))
    ensures Numbers(x, y) && IsInf(y) && (if y.sign then IsInf(x) else IsZero(x)) ==>
              r == INDEFINITE && env.Only({Invalid})
    ensures Numbers(x, y) && IsInf(y) && !(if y.sign then IsInf(x) else IsZero(x)) ==>
              r == (if y.sign then Zero(x.sign) else Inf(x.sign)) && env.Only(DenormalOperand(x, y))
  {
    var done;
    done, r := HandleNaNs(env, x, y);
    if done {
      return;
    }
    if IsDenormal(x) || IsDenormal(y) {
      env.exceptions := env.exceptions + {Denormal};
    }
    if IsInf(y) {
      if (if y.sign then IsInf(x) else IsZero(x)) {
        env.exceptions := env.exceptions + {Invalid};
        return INDEFINITE;
      }
      if IsZero(x) || IsInf(x) {
        if IsInf(x) { InfIsInf(x); }
        return x;
      }
      return if y.sign then Zero(x.sign) else Inf(x.sign);
    }
    r := ScaleByTruncated(env, x, y);
  }

  /** Scaling by a float's integer part, clamped as the code clamps it. */
  method ScaleByTruncated(env: Env, x: Float80, y: Float80) returns (r: Float80)
    requires Ordinary(y) && IsSupported(x) && !IsNaN(x)
    modifies env
    ensures Ordinary(x) && x.signif > 0 ==>
              && Scale(Mag(x), Truncated(y)) > 0.0
              && var o := Round(X87(W), env.mode, x.sign, Scale(Mag(x), Truncated(y)));
                 Delivers(r, x.sign, o.mag) && env.Raised(o)
    ensures IsInf(x) || x.signif == 0 ==> r == x && env.Only({})
  {
    ScaleOfTruncates(y);
    if Ordinary(x) && x.signif > 0 {
      ClampHides(x, env.mode, ScaleOf(y));
      ClampHides(x, env.mode, Truncated(y));
    }
    r := ScaleBy(env, x, ScaleOf(y));
  }

  /** DE, for a denormal operand. */
  function DenormalOperand(x: Float80, y: Float80): (e: set<Exception>)
    ensures e <= {Denormal} && (Denormal in e <==> IsDenormal(x) || IsDenormal(y))
  {
    if IsDenormal(x) || IsDenormal(y) then {Denormal} else {}
  }

  // ---- FXTRACT ----

  /** f80_xtract. */
  method Xtract(env: Env, x: Float80) returns (exp: Float80, signif: Float80)
    modifies env
    ensures Ordinary(x) && x.signif > 0 ==>
              && Ordinary(exp) && Mag(x) > 0.0 && Value(exp) == Exponent(Mag(x)) as real
              && Ordinary(signif) && signif.sign == x.sign && 1.0 <= Mag(signif) < 2.0
              && Mag(x) == Scale(Mag(signif), Exponent(Mag(x)))
              && !IsDenormal(signif) && !IsDenormal(exp)
              && env.Only(if IsDenormal(x) then {Denormal} else {})
    ensures Ordinary(x) && x.signif == 0 ==> exp == Inf(true) && signif == x && env.Only({DivZero})
    ensures IsSupported(x) && IsInf(x) ==> exp == Inf(false) && signif == x && env.Only({})
    ensures !IsSupported(x) ==> exp == INDEFINITE && signif == INDEFINITE && env.Only({Invalid})
    ensures IsSupported(x) && IsNaN(x) ==>
              exp == Quiet(x) && signif == Quiet(x) && env.Only(if IsSNaN(x) then {Invalid} else {})
  {
    if !IsSupported(x) {
      env.exceptions := env.exceptions + {Invalid};
      return INDEFINITE, INDEFINITE;
    }
    if IsNaN(x) {
      if IsSNaN(x) {
        env.exceptions := env.exceptions + {Invalid};
      }
      return Quiet(x), Quiet(x);
    }
    if IsInf(x) {
      return Inf(false), x;
    }
    if IsZero(x) {
      env.exceptions := env.exceptions + {DivZero};
      return Inf(true), x;
    }
    if IsDenormal(x) {
      env.exceptions := env.exceptions + {Denormal};
    }
    XtractExact(x);
    exp := FromInt(LeadingExponent(x));
    signif := Float80(Shl(x.signif, Clz64(x.signif)), BIAS80, x.sign);
  }

  /** The exponent of x's leading 1. */
  function LeadingExponent(x: Float80): int
    requires x.signif > 0
  {
    if x.exp == 0 then EMIN - Clz64(x.signif) else x.exp - BIAS80
  }

  lemma XtractExact(x: Float80)
    requires Ordinary(x) && x.signif > 0
    ensures Mag(x) > 0.0 && LeadingExponent(x) == Exponent(Mag(x)) && Fits(LeadingExponent(x))
    ensures Ordinary(FromInt(LeadingExponent(x))) && Value(FromInt(LeadingExponent(x))) == LeadingExponent(x) as real
    ensures !IsDenormal(FromInt(LeadingExponent(x)))
    ensures Pow2(W - 1) <= Shl(x.signif, Clz64(x.signif)) < Pow2(W)
    ensures var m := Mag(Float80(Shl(x.signif, Clz64(x.signif)), BIAS80, x.sign));
            1.0 <= m < 2.0 && Mag(x) == Scale(m, Exponent(Mag(x)))
  {
    var z := Clz64(x.signif);
    var s, e := Shl(x.signif, z), UnbiasDenormal(x.exp) - z;
    TopOf(x, s, e);
    if x.exp > 0 { NormalizeFloatNoop(x); ClzOfNormal(x); }
    ScaleAdd(s as real, 0 - W + 1, e);
    ScaleMove(Scale(s as real, 1 - W), Mag(x), e);
    FitsSmall(LeadingExponent(x));
    FromIntExact(LeadingExponent(x));
    FromIntNotDenormal(LeadingExponent(x));
  }

  lemma FitsSmall(i: int)
    requires -0x8000 <= i <= 0x8000
    ensures Fits(i)
  {
    Pow2Mono(16, W - 1);
    ClampIsPow2();
  }

  lemma FromIntNotDenormal(i: I64)
    ensures !IsDenormal(FromInt(i))
  {
  }

  lemma TruncatedInteger(f: Float80, i: int)
    requires Value(f) == i as real
    ensures Truncated(f) == i
  {
    assert Mag(f) == Size(i) as real;
  }

  /** FXTRACT's two results, put back together by FSCALE, are x bit for bit. */
  method XtractThenScale(env: Env, x: Float80) returns (r: Float80)
    requires Ordinary(x) && x.signif > 0
    modifies env
    ensures r == x && env.Only(if IsDenormal(x) then {Denormal} else {})
  {
    var exp, signif := Xtract(env, x);
    FloatIsExact(x, env.mode, x.sign, Mag(x));
    TruncatedInteger(exp, Exponent(Mag(x)));
    MagZero(signif);
    r := Fscale(env, signif, exp);
  }
}
