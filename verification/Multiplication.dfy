/** f80_mul and f80_div: exact 128-bit products, and quotients with the remainder jammed into the last bit. */
module Multiplication {
  import opened Powers
  import opened Rounding
  import opened StickyBits
  import opened Float80s
  import opened Normalize
  import opened Operands

  lemma MulFits(a: nat, b: nat, m: nat, n: nat)
    requires a < Pow2(m) && b < Pow2(n)
    ensures a * b < Pow2(m + n)
  {
    Pow2Add(m, n);
    MulLess(a, b, Pow2(m), Pow2(n));
  }

  lemma MulLess(a: nat, b: nat, c: nat, d: nat)
    requires a < c && b < d
    ensures a * b < c * d
  {
    assert a * b <= a * d;
    assert a * d < c * d;
  }

  lemma ScaleTimes(x: real, a: int, y: real, b: int)
    ensures Times(Scale(x, a), Scale(y, b)) == Scale(Times(x, y), a + b)
  {
    ScaleMul(x, y, b);
    ScaleMul(x, Scale(y, b), a);
    ScaleAdd(Times(x, y), b, a);
  }

  lemma ProductOfMags(a: Float80, b: Float80)
    ensures Times(Mag(a), Mag(b)) ==
      Scale((a.signif * b.signif) as real, UnbiasDenormal(a.exp) + UnbiasDenormal(b.exp) - 2 * W + 2)
  {
    ScaleTimes(a.signif as real, UnbiasDenormal(a.exp) - W + 1, b.signif as real, UnbiasDenormal(b.exp) - W + 1);
    assert Times(a.signif as real, b.signif as real) == (a.signif * b.signif) as real;
  }

  lemma ExactRepresented(p: U128, m: real, e: int, extra: nat)
    requires m == Scale(p as real, e - TOP)
    ensures m >= 0.0
    ensures p == 0 <==> m == 0.0
    ensures p > 0 ==> Represents(p, e, 0, m, extra)
  {
    ScalePositive(p as real, e - TOP);
    ScaleAdd(p as real, e - TOP, TOP - e);
  }

  lemma ProductRepresented(a: Float80, b: Float80, extra: nat)
    ensures a.signif * b.signif < Pow2(2 * W)
    ensures a.signif * b.signif == 0 <==> Mag(a) * Mag(b) == 0.0
    ensures Mag(a) * Mag(b) >= 0.0
    ensures Mag(a) * Mag(b) != 0.0 ==>
              Represents(a.signif * b.signif, UnbiasDenormal(a.exp) + UnbiasDenormal(b.exp) + 1, 0,
                         Mag(a) * Mag(b), extra)
  {
    MulFits(a.signif, b.signif, W, W);
    ProductOfMags(a, b);
    ExactRepresented(a.signif * b.signif, Mag(a) * Mag(b), UnbiasDenormal(a.exp) + UnbiasDenormal(b.exp) + 1, extra);
  }

  lemma SignOfProduct(a: Float80, b: Float80) returns (v: real)
    ensures v == Value(a) * Value(b)
    ensures v == if a.sign == b.sign then Mag(a) * Mag(b) else -(Mag(a) * Mag(b))
  {
    v := Value(a) * Value(b);
  }

  /** f80_mul. */
  method Mul(env: Env, a: Float80, b: Float80) returns (r: Float80)
    modifies env
    ensures Ordinary(a) && Ordinary(b) && Value(a) * Value(b) != 0.0 ==> RoundsTo(env, r, Value(a) * Value(b))
    ensures Ordinary(a) && Ordinary(b) && Value(a) * Value(b) == 0.0 ==> r == Zero(a.sign != b.sign) && env.Only({})
    ensures NotNumbers(a, b) ==> NotNumber(env, a, b, r)
    ensures Numbers(a, b) && (IsInf(a) || IsInf(b)) && (IsZero(a) || IsZero(b)) ==> r == NAN && env.Only({Invalid})
    ensures Numbers(a, b) && (IsInf(a) || IsInf(b)) && !IsZero(a) && !IsZero(b) ==>
      r == Inf(a.sign != b.sign) && env.Only({})
  {
    var done;
    done, r := HandleNaNs(env, a, b);
    if done {
      return;
    }
    if IsInf(a) || IsInf(b) {
      if IsZero(a) || IsZero(b) {
        env.exceptions := env.exceptions + {Invalid};
        return NAN;
      }
      return Inf(a.sign != b.sign);
    }
    ProductRepresented(a, b, PrecisionExtra(env.precision));
    ghost var v := SignOfProduct(a, b);
    var exp := UnbiasDenormal(a.exp) + UnbiasDenormal(b.exp) + 1;
    r := NormalizeRound(env, a.signif * b.signif, exp, a.sign != b.sign, v, 0);
  }

  // ---- division ----

  /** A nonzero significand shifted up to its top bit. */
  lemma Normalized(f: Float80)
    requires f.signif > 0
    ensures var z := Clz64(f.signif);
            && Pow2(W - 1) <= Shl(f.signif, z) < Pow2(W)
            && Scale(Shl(f.signif, z) as real, UnbiasDenormal(f.exp) - z - W + 1) == Mag(f)
  {
    var z := Clz64(f.signif);
    ShlBelow(f.signif, W - z, z);
    ShlBelow(f.signif, W - 1 - z, z);
    ScaleShl(f.signif, z, UnbiasDenormal(f.exp) - z - W + 1);
  }

  /** Two long divisions make one. */
  lemma LongDivision(n: nat, d: nat, w: nat)
    requires d > 0
    ensures Shl(n, w) == (Shl(n / d, w) + Shl(n % d, w) / d) * d + Shl(n % d, w) % d
  {
    var q, r := n / d, n % d;
    assert n == q * d + r;
    ShlPow2(n, w); ShlPow2(q, w); ShlPow2(r, w);
    DivisionStep(q, d, r, Pow2(w));
  }

  lemma DivisionStep(q: nat, d: nat, r: nat, p: nat)
    requires d > 0
    ensures (q * d + r) * p == (q * p + (r * p) / d) * d + (r * p) % d
  {
    var t := r * p;
    assert t == (t / d) * d + t % d;
    assert (q * d + r) * p == (q * p) * d + t;
    assert (q * p + t / d) * d == (q * p) * d + (t / d) * d;
  }

  /** The integer quotient with the remainder jammed into its last bit. */
  function Jammed(q: nat, r: nat): nat { Jam(q, r != 0) }

  lemma JammedStands(n: nat, d: nat, q: nat, r: nat, z: real)
    requires d > 0 && n == Prod(q, d) + r && r < d && Times(z, d as real) == n as real
    ensures Stands(Jammed(q, r), 1, z)
  {
    QuotientBounds(n, d, q, r, z);
    var s := Jammed(q, r);
    assert Low(s, 1) == s % 2 by { assert Low(s / 2, 0) == 0; }
    assert Pow2(1) == 2;
  }

  lemma QuotientBounds(n: nat, d: nat, q: nat, r: nat, z: real)
    requires d > 0 && n == Prod(q, d) + r && r < d && Times(z, d as real) == n as real
    ensures r == 0 ==> z == q as real
    ensures r > 0 ==> q as real < z < q as real + 1.0
  {
    var w := z - q as real;
    assert w * d as real == r as real by {
      assert w * d as real == z * d as real - q as real * d as real;
      assert (q * d) as real == q as real * d as real;
    }
    UnitFraction(w, d as real, r as real);
  }

  lemma UnitFraction(w: real, d: real, r: real)
    requires d > 0.0 && w * d == r && 0.0 <= r < d
    ensures r == 0.0 ==> w == 0.0
    ensures r > 0.0 ==> 0.0 < w < 1.0
  {
    MulSign(w, d);
    MulSign(1.0 - w, d);
    assert (1.0 - w) * d == d - r;
  }

  lemma MulSign(a: real, d: real)
    requires d > 0.0
    ensures a > 0.0 <==> a * d > 0.0
    ensures a == 0.0 <==> a * d == 0.0
  {
  }

  /** The quotient x of two scaled numbers, brought to a place where the dividend is whole. */
  lemma ScaledQuotient(n: nat, a: int, d: nat, b: int, t: nat, x: real)
    requires Times(x, Scale(d as real, b)) == Scale(n as real, a)
    ensures Times(Scale(x, t - (a - b)), d as real) == Shl(n, t) as real
  {
    var xd := Times(x, d as real);
    ScaleMul(x, d as real, b);
    ScaleMul(x, d as real, t - (a - b));
    ScaleAdd(xd, b, t - a);
    ScaleAdd(n as real, a, t - a);
    ScaleNat(n, t);
  }

  lemma QuotientAtLeast(q: nat, d: nat, r: nat, t: nat, w: nat)
    requires r < d <= Pow2(w) && Prod(q, d) + r >= Pow2(t + w)
    ensures q >= Pow2(t)
  {
    Pow2Add(t, w);
    MulSucc(q, d);
    if q + 1 <= Pow2(t) { MulLe(q + 1, d, Pow2(t), Pow2(w)); }
  }

  lemma QuotientBelow(q: nat, d: nat, r: nat, t: nat, w: nat)
    requires d >= Pow2(w) && Prod(q, d) + r < Pow2(t + w)
    ensures q < Pow2(t)
  {
    Pow2Add(t, w);
    if q >= Pow2(t) { MulLe(Pow2(t), Pow2(w), q, d); }
  }

  lemma QuotientSize(a: nat, b: nat, q: nat, r: nat)
    requires Pow2(W - 1) <= a < Pow2(W) && Pow2(W - 1) <= b < Pow2(W)
    requires Prod(q, b) + r == Shl(a, TOP) && r < b
    ensures Pow2(TOP - 1) <= q < Pow2(2 * W)
    ensures Pow2(TOP - 1) <= Jammed(q, r) < Pow2(2 * W)
  {
    QuotientSizeAt(a, b, q, r, W, TOP);
    JammedBelow(q, r, 2 * W);
  }

  lemma QuotientSizeAt(a: nat, b: nat, q: nat, r: nat, w: nat, t: nat)
    requires w > 0 && t > 0 && Pow2(w - 1) <= a < Pow2(w) && Pow2(w - 1) <= b < Pow2(w)
    requires Prod(q, b) + r == Shl(a, t) && r < b
    ensures Pow2(t - 1) <= q < Pow2(t + 1)
  {
    ShlBelow(a, w, t);
    ShlBelow(a, w - 1, t);
    QuotientAtLeast(q, b, r, t - 1, w);
    QuotientBelow(q, b, r, t + 1, w - 1);
  }

  lemma JammedBelow(q: nat, r: nat, n: nat)
    requires n > 0 && q < Pow2(n)
    ensures q <= Jammed(q, r) < Pow2(n)
  {
    assert Pow2(n) % 2 == 0;
  }

  /** 128 quotient bits of a / b in two divisions, and the last remainder. */
  function LongQuotient(a: nat, b: nat): nat
    requires b > 0
  {
    var n := Shl(a, W - 1);
    Shl(n / b, W) + Shl(n % b, W) / b
  }
  function LongRemainder(a: nat, b: nat): nat
    requires b > 0
  {
    Shl(Shl(a, W - 1) % b, W) % b
  }

  lemma LongQuotientExact(a: nat, b: nat)
    requires b > 0
    ensures Prod(LongQuotient(a, b), b) + LongRemainder(a, b) == Shl(a, TOP)
    ensures LongRemainder(a, b) < b
  {
    LongDivision(Shl(a, W - 1), b, W);
    ShlAdd(a, W - 1, W);
  }

  /** The quotient bits of two normalized significands, with a sticky bit for the remainder, stand for
      the exact quotient z. */
  lemma LongQuotientStands(a: U64, b: U64, z: real)
    requires a >= Pow2(W - 1) && b >= Pow2(W - 1) && Times(z, b as real) == Shl(a, TOP) as real
    ensures Stands(Jammed(LongQuotient(a, b), LongRemainder(a, b)), 1, z)
    ensures Pow2(TOP - 1) <= Jammed(LongQuotient(a, b), LongRemainder(a, b)) < Pow2(2 * W)
  {
    LongQuotientExact(a, b);
    QuotientSize(a, b, LongQuotient(a, b), LongRemainder(a, b));
    JammedStands(Shl(a, TOP), b, LongQuotient(a, b), LongRemainder(a, b), z);
  }

  /** The exact quotient, and the same at the place where the dividend is whole. */
  lemma ExactQuotient(a: Float80, b: Float80, k: int) returns (v: real)
    requires a.signif > 0 && b.signif > 0
    requires k == UnbiasDenormal(a.exp) - Clz64(a.signif) - (UnbiasDenormal(b.exp) - Clz64(b.signif))
    ensures Value(b) != 0.0 && v == Value(a) / Value(b) && v != 0.0 && (v < 0.0 <==> a.sign != b.sign)
    ensures Times(Scale(Abs(v), TOP - k), Shl(b.signif, Clz64(b.signif)) as real) ==
      Shl(Shl(a.signif, Clz64(a.signif)), TOP) as real
  {
    MagZero(a); MagZero(b);
    v := SignOfQuotient(a, b);
    Normalized(a); Normalized(b);
    var ea, eb := UnbiasDenormal(a.exp) - Clz64(a.signif), UnbiasDenormal(b.exp) - Clz64(b.signif);
    ScaledQuotient(Shl(a.signif, Clz64(a.signif)), ea - W + 1, Shl(b.signif, Clz64(b.signif)), eb - W + 1, TOP, Abs(v));
    assert TOP - ((ea - W + 1) - (eb - W + 1)) == TOP - k;
  }

  lemma SignOfQuotient(a: Float80, b: Float80) returns (v: real)
    requires Mag(a) > 0.0 && Mag(b) > 0.0
    ensures Value(b) != 0.0 && v == Value(a) / Value(b) && v != 0.0
    ensures v < 0.0 <==> a.sign != b.sign
    ensures Times(Abs(v), Mag(b)) == Mag(a)
  {
    v := Value(a) / Value(b);
    QuotientTimes(Value(a), Value(b), v);
    SignedFactor(v, Mag(b), Mag(a), a.sign, b.sign);
  }

  lemma QuotientTimes(a: real, b: real, v: real)
    requires b != 0.0 && v == a / b
    ensures Times(v, b) == a
  {
  }

  lemma SignedFactor(v: real, b: real, a: real, sa: bool, sb: bool)
    requires a > 0.0 && b > 0.0 && Times(v, if sb then -b else b) == if sa then -a else a
    ensures v != 0.0 && (v < 0.0 <==> sa != sb) && Times(Abs(v), b) == a
  {
    assert v * -b == -(v * b);
    SignOfFactor(v, b, a);
    assert -v * b == -(v * b);
  }

  lemma SignOfFactor(v: real, b: real, a: real)
    requires a > 0.0 && b > 0.0
    ensures v * b == a ==> v > 0.0
    ensures v * b == -a ==> v < 0.0 && -v * b == a
  {
    MulSign(v, b);
    MulSign(-v, b);
  }

  /** The quotient of two finite nonzero numbers. */
  method DivFinite(env: Env, a: Float80, b: Float80) returns (r: Float80)
    requires Ordinary(a) && Ordinary(b) && !IsZero(a) && !IsZero(b)
    modifies env
    ensures Value(b) != 0.0 && Value(a) / Value(b) != 0.0 && RoundsTo(env, r, Value(a) / Value(b))
  {
    Normalized(a); Normalized(b);
    var la, lb := Clz64(a.signif), Clz64(b.signif);
    var exp := UnbiasDenormal(a.exp) - la - (UnbiasDenormal(b.exp) - lb);
    ghost var v := ExactQuotient(a, b, exp);
    var as', bs' := Shl(a.signif, la), Shl(b.signif, lb);
    LongQuotientStands(as', bs', Scale(Abs(v), TOP - exp));
    var signif := Jammed(LongQuotient(as', bs'), LongRemainder(as', bs'));
    ClzAtMost(signif, 1);
    r := NormalizeRound(env, signif, exp, a.sign != b.sign, v, 1);
  }

  /** f80_div. */
  method Div(env: Env, a: Float80, b: Float80) returns (r: Float80)
    modifies env
    ensures Ordinary(a) && Ordinary(b) && !IsZero(a) && !IsZero(b) ==>
              Value(b) != 0.0 && Value(a) / Value(b) != 0.0 && RoundsTo(env, r, Value(a) / Value(b))
    ensures Ordinary(a) && Ordinary(b) && IsZero(a) && !IsZero(b) ==> r == Zero(a.sign != b.sign) && env.Only({})
    ensures Ordinary(a) && Ordinary(b) && !IsZero(a) && IsZero(b) ==> r == Inf(a.sign != b.sign) && env.Only({DivZero})
    ensures NotNumbers(a, b) ==> NotNumber(env, a, b, r)
    ensures Numbers(a, b) && ((IsInf(a) && IsInf(b)) || (IsZero(a) && IsZero(b))) ==>
      r == INDEFINITE && env.Only({Invalid})
    ensures Numbers(a, b) && IsInf(a) && !IsInf(b) ==> r == Inf(a.sign != b.sign) && env.Only({})
    ensures Numbers(a, b) && !IsInf(a) && IsInf(b) ==> r == Zero(a.sign != b.sign) && env.Only({})
  {
    var done;
    done, r := HandleNaNs(env, a, b);
    if done {
      return;
    }
    if IsInf(a) {
      if IsInf(b) {
        env.exceptions := env.exceptions + {Invalid};
        return INDEFINITE;
      }
      r := Inf(false);
    } else if IsInf(b) {
      r := Zero(false);
    } else if IsZero(b) {
      r := Inf(false);
      if IsZero(a) {
        env.exceptions := env.exceptions + {Invalid};
        return INDEFINITE;
      }
      env.exceptions := env.exceptions + {DivZero};
    } else if IsZero(a) {
      r := Zero(false);
    } else {
      r := DivFinite(env, a, b);
      return;
    }
    r := r.(sign := a.sign != b.sign);
  }
}
