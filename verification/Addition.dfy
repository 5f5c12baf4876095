/** f80_add and f80_sub: the smaller operand is lined up with a sticky bit, and the sum rounded once. */
module Addition {
  import opened Powers
  import opened StickyBits
  import opened Float80s
  import opened Normalize
  import opened Operands

  /** How far y's bits lie below x's. */
  function Gap(x: Float80, y: Float80): int { UnbiasDenormal(x.exp) - UnbiasDenormal(y.exp) }

  /** The larger operand's significand at the top of 128 bits, and the smaller's lined up with it. */
  function Upper(x: Float80): nat { Shl(x.signif, W) }
  function Lower(x: Float80, y: Float80): nat
    requires Gap(x, y) >= 0
  {
    Sticky(Shl(y.signif, W), Gap(x, y))
  }

  lemma {:induction false} StickyExact(s: nat, n: nat, d: nat)
    requires d <= n
    ensures Sticky(Shl(s, n), d) == Shl(s, n - d)
  {
    ShlAdd(s, n - d, d);
    ShrUnique(Shl(s, n), d, Shl(s, n - d), 0);
  }

  lemma LowerStands(x: Float80, y: Float80)
    requires Gap(x, y) >= 0
    ensures Stands(Lower(x, y), if Gap(x, y) <= W then 0 else 1, Scale(Mag(y), TOP - UnbiasDenormal(x.exp)))
  {
    var d, t := Gap(x, y), Scale(Mag(y), TOP - UnbiasDenormal(x.exp));
    ScaleAdd(y.signif as real, UnbiasDenormal(y.exp) - W + 1, TOP - UnbiasDenormal(x.exp));
    assert t == Scale(y.signif as real, W - d);
    if d <= W {
      StickyExact(y.signif, W, d);
      ScaleNat(y.signif, W - d);
    } else {
      ScaleNat(y.signif, W);
      ScaleAdd(y.signif as real, W, -d);
      StandsCoarser(Shl(y.signif, W), 0, d + 1, Shl(y.signif, W) as real);
      StandsSticky(Shl(y.signif, W), d, 1, Shl(y.signif, W) as real);
    }
  }

  lemma UpperExact(x: Float80)
    ensures Scale(Mag(x), TOP - UnbiasDenormal(x.exp)) == Upper(x) as real
    ensures Upper(x) % 2 == 0
    ensures Upper(x) < Pow2(2 * W)
  {
    ScaleAdd(x.signif as real, UnbiasDenormal(x.exp) - W + 1, TOP - UnbiasDenormal(x.exp));
    ScaleNat(x.signif, W);
    ShlBelow(x.signif, W, W);
  }

  lemma LowerFits(x: Float80, y: Float80)
    requires Gap(x, y) >= 0
    ensures Lower(x, y) < Pow2(2 * W)
    ensures Gap(x, y) > W ==> Lower(x, y) < Pow2(W - 1)
  {
    var d := Gap(x, y);
    UpperExact(y);
    Pow2Mono(2 * W, 2 * W + d);
    StickyFits(Shl(y.signif, W), 2 * W, d);
    if d > W {
      Pow2Mono(2 * W, W - 1 + d);
      StickyFits(Shl(y.signif, W), W - 1, d);
    }
  }

  // An even a, and a b that stands for y down to its last bit.

  lemma StandsPlus(a: nat, b: nat, g: nat, y: real)
    requires g <= 1 && a % 2 == 0 && Stands(b, g, y)
    ensures Stands(a + b, g, a as real + y)
  {
    LowOne(b, g); LowOne(a + b, g);
  }

  lemma StandsMinus(a: nat, b: nat, g: nat, y: real)
    requires g <= 1 && a % 2 == 0 && Stands(b, g, y) && a >= b
    ensures Stands(a - b, g, a as real - y)
  {
    LowOne(b, g); LowOne(a - b, g);
    assert Pow2(1) == 2;
    if g == 1 { assert (a - b) % 2 == b % 2; }
  }

  lemma StandsMinusFrom(a: nat, b: nat, g: nat, y: real)
    requires g <= 1 && a % 2 == 0 && Stands(b, g, y) && a <= b
    ensures Stands(b - a, g, y - a as real)
  {
    LowOne(b, g); LowOne(b - a, g);
    assert Pow2(1) == 2;
    if g == 1 { assert (b - a) % 2 == b % 2; }
  }

  lemma LowOne(s: nat, g: nat)
    requires g <= 1
    ensures Low(s, g) == if g == 0 then 0 else s % 2
  {
  }

  /** A normal operand fills its top bit. */
  lemma UpperTop(x: Float80)
    requires x.exp > 0 && IsSupported(x)
    ensures Upper(x) >= Pow2(TOP)
  {
    ShlBelow(x.signif, W - 1, W);
  }

  /** Below both operands' last bits when they are close, below the smaller's jammed bit when they are not. */
  function Grain(x: Float80, y: Float80): nat { if Gap(x, y) <= W then 0 else 1 }

  lemma SumStands(x: Float80, y: Float80)
    requires Gap(x, y) >= 0
    ensures Stands(Upper(x) + Lower(x, y), Grain(x, y), Scale(Mag(x) + Mag(y), TOP - UnbiasDenormal(x.exp)))
  {
    UpperExact(x);
    LowerStands(x, y);
    ScaleLinear(Mag(x), Mag(y), TOP - UnbiasDenormal(x.exp));
    StandsPlus(Upper(x), Lower(x, y), Grain(x, y), Scale(Mag(y), TOP - UnbiasDenormal(x.exp)));
  }

  lemma StandsSign(s: nat, g: nat, m: real, e: int)
    requires Stands(s, g, Scale(m, e)) && m >= 0.0
    ensures s == 0 <==> m == 0.0
  {
    AllLow(0, 0, g);
    StandsCompare(s, g, Scale(m, e), 0);
    ScalePositive(m, e);
  }

  /** The 128-bit sum, or the sum shifted down past a carry, represents the exact sum. */
  lemma SumRepresented(x: Float80, y: Float80, extra: nat)
    requires Gap(x, y) >= 0 && IsSupported(x)
    requires Upper(x) + Lower(x, y) < Pow2(2 * W)
    ensures Upper(x) + Lower(x, y) == 0 <==> Mag(x) + Mag(y) == 0.0
    ensures Mag(x) + Mag(y) != 0.0 ==>
              Represents(Upper(x) + Lower(x, y), UnbiasDenormal(x.exp), Grain(x, y), Mag(x) + Mag(y), extra)
  {
    SumStands(x, y);
    StandsSign(Upper(x) + Lower(x, y), Grain(x, y), Mag(x) + Mag(y), TOP - UnbiasDenormal(x.exp));
    if Grain(x, y) == 1 {
      UpperTop(x);
      ClzAtMost(Upper(x) + Lower(x, y), 0);
    }
  }

  lemma CarriedSumRepresented(x: Float80, y: Float80, extra: nat)
    requires Gap(x, y) >= 0
    requires Pow2(2 * W) <= Upper(x) + Lower(x, y) < Pow2(2 * W + 1)
    ensures Pow2(TOP) <= Sticky(Upper(x) + Lower(x, y), 1) < Pow2(2 * W)
    ensures Mag(x) + Mag(y) > 0.0
    ensures Represents(Sticky(Upper(x) + Lower(x, y), 1), UnbiasDenormal(x.exp) + 1, 1, Mag(x) + Mag(y), extra)
  {
    var t, m, e := Upper(x) + Lower(x, y), Mag(x) + Mag(y), TOP - UnbiasDenormal(x.exp);
    SumStands(x, y);
    StandsSign(t, Grain(x, y), m, e);
    StandsCoarser(t, Grain(x, y), 2, Scale(m, e));
    StandsStickyOne(t, 1, Scale(m, e));
    ScaleSucc(m, e - 1);
    StickyFits(t, 2 * W, 1);
    StickyOne(t);
    ClzAtMost(Sticky(t, 1), 0);
  }

  lemma DifferenceRepresented(x: Float80, y: Float80, extra: nat)
    requires Gap(x, y) >= 0 && IsSupported(x)
    ensures Upper(x) < Lower(x, y) <==> Mag(x) < Mag(y)
    ensures Upper(x) == Lower(x, y) <==> Mag(x) == Mag(y)
    ensures Upper(x) < Pow2(2 * W) && Lower(x, y) < Pow2(2 * W)
    ensures Upper(x) > Lower(x, y) ==>
              Represents(Upper(x) - Lower(x, y), UnbiasDenormal(x.exp), Grain(x, y), Mag(x) - Mag(y), extra)
    ensures Upper(x) < Lower(x, y) ==>
              Represents(Lower(x, y) - Upper(x), UnbiasDenormal(x.exp), Grain(x, y), Mag(y) - Mag(x), extra)
  {
    var a, b, g, e := Upper(x), Lower(x, y), Grain(x, y), TOP - UnbiasDenormal(x.exp);
    UpperExact(x); LowerStands(x, y); LowerFits(x, y);
    LowOne(a, g);
    StandsCompare(b, g, Scale(Mag(y), e), a);
    ScaleMono(Mag(x), Mag(y), e);
    ScaleLinear(Mag(x), Mag(y), e);
    ScaleLinear(Mag(y), Mag(x), e);
    if a >= b { StandsMinus(a, b, g, Scale(Mag(y), e)); } else { StandsMinusFrom(a, b, g, Scale(Mag(y), e)); }
    if g == 1 { FarApart(x, y); }
  }

  lemma FarApart(x: Float80, y: Float80)
    requires Gap(x, y) > W && IsSupported(x)
    ensures Upper(x) - Lower(x, y) >= Pow2(TOP - 1)
    ensures Upper(x) - Lower(x, y) < Pow2(2 * W) ==> Clz128(Upper(x) - Lower(x, y)) <= 1
  {
    UpperTop(x); LowerFits(x, y);
    Pow2Mono(W - 1, TOP - 1);
    if Upper(x) - Lower(x, y) < Pow2(2 * W) { ClzAtMost(Upper(x) - Lower(x, y), 1); }
  }

  /** A sum that carries out of bit 127: the carry comes back after the shift. */
  method AddCarried(env: Env, x: Float80, y: Float80, sum: nat, exp: int, sign: bool, ghost v: real)
    returns (r: Float80)
    requires Gap(x, y) >= 0 && IsSupported(x) && sum == Upper(x) + Lower(x, y) && exp == UnbiasDenormal(x.exp)
    requires Pow2(2 * W) <= sum < 2 * Pow2(2 * W)
    requires v != 0.0 && v == if sign then -(Mag(x) + Mag(y)) else Mag(x) + Mag(y)
    modifies env
    ensures RoundsTo(env, r, v)
  {
    CarriedSumRepresented(x, y, PrecisionExtra(env.precision));
    CarryRestored(sum);
    r := NormalizeRound(env, Sticky(sum - Pow2(2 * W), 1) + Pow2(TOP), exp + 1, sign, v, 1);
  }

  /** a + b for magnitudes: x's exponent is the larger. */
  method AddMagnitudes(env: Env, x: Float80, y: Float80, sign: bool) returns (r: Float80)
    requires Gap(x, y) >= 0 && IsSupported(x) && Mag(x) + Mag(y) != 0.0
    modifies env
    ensures RoundsTo(env, r, if sign then -(Mag(x) + Mag(y)) else Mag(x) + Mag(y))
  {
    UpperExact(x); LowerFits(x, y);
    var signif, exp := Upper(x) + Lower(x, y), UnbiasDenormal(x.exp);
    ghost var v := if sign then -(Mag(x) + Mag(y)) else Mag(x) + Mag(y);
    if signif >= Pow2(2 * W) {
      r := AddCarried(env, x, y, signif, exp, sign, v);
    } else {
      SumRepresented(x, y, PrecisionExtra(env.precision));
      r := NormalizeRound(env, signif, exp, sign, v, Grain(x, y));
    }
  }

  lemma CarryRestored(t: nat)
    requires Pow2(2 * W) <= t < Pow2(2 * W + 1)
    ensures Sticky(t - Pow2(2 * W), 1) + Pow2(TOP) == Sticky(t, 1)
  {
    StickyOneMinus(t, Pow2(TOP - 1));
  }

  lemma StickyOneMinus(t: nat, q: nat)
    requires t >= 4 * q
    ensures Sticky(t - 4 * q, 1) + 2 * q == Sticky(t, 1)
  {
    StickyOne(t);
    StickyOne(t - 4 * q);
    LessFours(t, q);
  }

  lemma LessFours(t: nat, q: nat)
    requires t >= 4 * q
    ensures (t - 4 * q) % 2 == t % 2 && (t - 4 * q) / 2 == t / 2 - 2 * q && (t / 2 - 2 * q) % 2 == t / 2 % 2
  {
    LessTwos(t, 2 * q);
    LessTwos(t / 2, q);
  }

  lemma LessTwos(t: nat, q: nat)
    requires t >= 2 * q
    ensures (t - 2 * q) % 2 == t % 2 && (t - 2 * q) / 2 == t / 2 - q
  {
    var h, l := t / 2, t % 2;
    assert t - 2 * q == 2 * (h - q) + l;
  }

  /** x - y for magnitudes: x's exponent is the larger. */
  method SubtractMagnitudes(env: Env, x: Float80, y: Float80, flipped: bool) returns (r: Float80)
    requires Gap(x, y) >= 0 && IsSupported(x) && Mag(x) + Mag(y) != 0.0
    modifies env
    ensures Mag(x) == Mag(y) ==> r == Zero(env.mode.Down?) && unchanged(env)
    ensures Mag(x) != Mag(y) ==> RoundsTo(env, r, if flipped then Mag(y) - Mag(x) else Mag(x) - Mag(y))
  {
    var a, b, sign, signif := Upper(x), Lower(x, y), false, 0;
    DifferenceRepresented(x, y, PrecisionExtra(env.precision));
    if a >= b {
      signif := a - b;
    } else {
      signif := b - a;
      sign := true;
    }
    UpperExact(x); ScalePositive(Mag(x), TOP - UnbiasDenormal(x.exp));
    if signif == 0 && a != 0 && env.mode.Down? {
      return Zero(true);
    }
    if signif == 0 {
      return Zero(false);
    }
    if flipped {
      sign := !sign;
    }
    r := NormalizeRound(env, signif, UnbiasDenormal(x.exp), sign,
                        if flipped then Mag(y) - Mag(x) else Mag(x) - Mag(y), Grain(x, y));
  }

  /** The sum of two finite numbers, not both zero. */
  method AddFinite(env: Env, a: Float80, b: Float80) returns (r: Float80)
    requires Ordinary(a) && Ordinary(b) && !(IsZero(a) && IsZero(b))
    modifies env
    ensures Value(a) + Value(b) == 0.0 ==> r == Zero(env.mode.Down?) && unchanged(env)
    ensures Value(a) + Value(b) != 0.0 ==> RoundsTo(env, r, Value(a) + Value(b))
  {
    MagZero(a); MagZero(b);
    var x, y := a, b;
    if x.exp < y.exp {
      x, y := y, x;
    }
    var flipped := x.sign;
    if x.sign == y.sign {
      r := AddMagnitudes(env, x, y, flipped);
    } else {
      r := SubtractMagnitudes(env, x, y, flipped);
    }
  }

  /** What Add promises of two finite operands. */
  twostate predicate Adds(env: Env, a: Float80, b: Float80, r: Float80)
    reads env
  {
    var sum := Value(a) + Value(b);
    if sum == 0.0
    then r == Zero(if IsZero(a) && IsZero(b) && a.sign == b.sign then a.sign else env.mode.Down?) && env.Only({})
    else RoundsTo(env, r, sum)
  }

  /** An infinite operand is the sum, unless the other is the opposite infinity. */
  method AddInfinite(env: Env, a: Float80, b: Float80) returns (r: Float80)
    requires IsInf(a) || IsInf(b)
    modifies env
    ensures IsInf(a) && IsInf(b) && a.sign != b.sign ==> r == NAN && env.Only({Invalid})
    ensures !(IsInf(a) && IsInf(b) && a.sign != b.sign) ==> r == (if IsInf(a) then a else b) && env.Only({})
  {
    if IsInf(a) && IsInf(b) && a.sign != b.sign {
      env.exceptions := env.exceptions + {Invalid};
      return NAN;
    }
    return if IsInf(a) then a else b;
  }

  /** f80_add. */
  method Add(env: Env, a: Float80, b: Float80) returns (r: Float80)
    modifies env
    ensures Ordinary(a) && Ordinary(b) ==> Adds(env, a, b, r)
    ensures NotNumbers(a, b) ==> NotNumber(env, a, b, r)
    ensures Numbers(a, b) && IsInf(a) && IsInf(b) && a.sign != b.sign ==> r == NAN && env.Only({Invalid})
    ensures Numbers(a, b) && IsInf(a) && !(IsInf(b) && a.sign != b.sign) ==> r == a && env.Only({})
    ensures Numbers(a, b) && IsInf(b) && !IsInf(a) ==> r == b && env.Only({})
  {
    var done;
    done, r := HandleNaNs(env, a, b);
    if done {
      return;
    }
    if IsInf(a) || IsInf(b) {
      r := AddInfinite(env, a, b);
      return;
    }
    MagZero(a); MagZero(b);
    if IsZero(a) && IsZero(b) {
      return Zero(if a.sign == b.sign then a.sign else env.mode.Down?);
    }
    r := AddFinite(env, a, b);
  }

  /** f80_sub. */
  method Sub(env: Env, a: Float80, b: Float80) returns (r: Float80)
    modifies env
    ensures Ordinary(a) && Ordinary(b) ==> Adds(env, a, Neg(b), r) && Value(a) + Value(Neg(b)) == Value(a) - Value(b)
    ensures NotNumbers(a, b) ==> NotNumber(env, a, Neg(b), r)
    ensures Numbers(a, b) && IsInf(a) && IsInf(b) && a.sign == b.sign ==> r == NAN && env.Only({Invalid})
    ensures Numbers(a, b) && IsInf(a) && !(IsInf(b) && a.sign == b.sign) ==> r == a && env.Only({})
    ensures Numbers(a, b) && IsInf(b) && !IsInf(a) ==> r == Neg(b) && env.Only({})
  {
    r := Add(env, a, Neg(b));
  }
}
