/** The fast paths for two normal operands, rounding to nearest: exactly when they answer, and what. */
module FastPaths {
  import opened Powers
  import opened Rounding
  import opened StickyBits
  import opened Float80s
  import opened Normalize
  import opened Operands
  import opened Addition
  import opened Multiplication
  import opened FastDivision

  predicate FastNormal(f: Float80) {
    EXP_MIN <= f.exp <= EXP_MAX && f.signif >= Pow2(W - 1)
  }

  /** The normal numbers: finite, supported, and at least 2^-16382. */
  lemma FastNormalInNumbers(f: Float80)
    ensures FastNormal(f) <==> Ordinary(f) && Mag(f) >= Scale(1.0, -16382)
  {
    var e := UnbiasDenormal(f.exp) - (W - 1);
    UnitSignificand(W - 1);
    ScaleAdd(Pow2(W - 1) as real, 1 - W, UnbiasDenormal(f.exp));
    ScaleMono(f.signif as real, Pow2(W - 1) as real, e);
    ScaleExpMono(1.0, EMIN, UnbiasDenormal(f.exp));
  }

  /** x rounded to nearest at p bits, exponents unbounded, is a normal number. */
  ghost predicate RoundsToNormal(p: nat, sign: bool, x: real)
    requires x > 0.0
  {
    var q := Exponent(x) - p + 1;
    Scale(1.0, EMIN) <= Scale(RoundAt(Nearest, sign, x, q) as real, q) < Scale(1.0, EMAX + 1)
  }

  /** What a fast path promises: the outcome of the general code, which raises no exception. */
  ghost predicate FastOutcome(p: nat, sign: bool, x: real, out: Float80, inexact: bool, up: bool)
    requires x > 0.0
  {
    var o := Round(X87(p), Nearest, sign, x);
    Delivers(out, sign, o.mag) && inexact == o.inexact && up == o.up && !o.overflow && !o.underflow
  }

  // ---- the rounding ----

  lemma HalfwayTest(s: nat, k: nat, sign: bool)
    requires k > 0
    ensures var rem, half := Low(s, k), Pow2(k - 1);
            RoundShift(Nearest, sign, s, k) ==
            Shr(s, k) + if rem > half || (rem == half && Shr(s, k) % 2 == 1) then 1 else 0
  {
    GuardAndRest(s, k);
  }

  /** Just below the smallest normal, the carry up to it is what the coarser subnormal rounding gives too. */
  lemma CarryToMin(mode: Mode, sign: bool, x: real, q: int, p: nat)
    requires x > 0.0 && p > 1 && mode.Nearest?
    requires Scale(x, -q) < Pow2(p) as real && RoundAt(mode, sign, x, q) == Pow2(p)
    ensures RoundAt(mode, sign, x, q + 1) == Pow2(p - 1)
    ensures Scale(Pow2(p) as real, q) == Scale(Pow2(p - 1) as real, q + 1) > x
  {
    var z := Scale(x, -q);
    ScaleSucc(x, -q - 1);
    assert Scale(x, -(q + 1)) == z / 2.0;
    DoubleScale(Pow2(p - 1), q);
    ScaleMove(x, Scale(Pow2(p) as real, q), 0);
    ScaleMove(z, x, q);
    ScaleMono(z, Pow2(p) as real, q);
  }

  lemma RangeOfRounded(n: nat, p: nat, e: int)
    requires p > 0 && Pow2(p - 1) <= n <= Pow2(p)
    ensures Scale(1.0, EMIN) <= Scale(n as real, e - p + 1) <==> e >= EMIN || (e == EMIN - 1 && n == Pow2(p))
    ensures Scale(n as real, e - p + 1) < Scale(1.0, EMAX + 1) <==> e < EMAX || (e == EMAX && n < Pow2(p))
  {
    SizeVersusMin(n, p, e, EMIN);
    SizeVersusMin(n, p, e, EMAX + 1);
  }

  /** s's leading bit is bit TOP, so its exponent is x's. */
  lemma TopExponent(s: U128, g: nat, exp: int, x: real)
    requires x > 0.0 && s >= Pow2(TOP) && g <= TOP && Stands(s, g, Scale(x, TOP - exp))
    ensures Exponent(x) == exp
  {
    ExponentOfBits(s, g, exp, 0, x);
  }

  lemma FinishNormal(s: U128, exp: int, sign: bool, extra: nat, x: real)
    requires x > 0.0 && extra <= 40 && s >= Pow2(TOP) && Stands(s, W - 1 + extra, Scale(x, TOP - exp))
    requires EMIN <= exp <= EMAX
    ensures var n := RoundShift(Nearest, sign, s, W + extra);
            var o := Round(X87(W - extra), Nearest, sign, x);
            exp < EMAX || n < Pow2(W - extra) ==>
              && !o.overflow && !o.underflow && o.mag == Finite(n, exp - W + 1 + extra)
              && o.inexact == (Low(s, W + extra) != 0) && o.up == (n > Shr(s, W + extra))
  {
    TopExponent(s, W - 1 + extra, exp, x);
    RoundedSize(Nearest, sign, s, extra);
    OutcomeOfBits(Nearest, sign, s, extra, exp, x);
    TinyFromBits(Nearest, sign, s, extra, x);
  }

  lemma FinishCarryToMin(s: U128, sign: bool, extra: nat, x: real)
    requires x > 0.0 && extra <= 40 && s >= Pow2(TOP) && Stands(s, W - 1 + extra, Scale(x, TOP - (EMIN - 1)))
    requires RoundShift(Nearest, sign, s, W + extra) == Pow2(W - extra)
    ensures var o := Round(X87(W - extra), Nearest, sign, x);
            && !o.overflow && !o.underflow && o.inexact && o.up
            && o.mag == Finite(Pow2(W - 1 - extra), EMIN - W + 1 + extra)
    ensures Low(s, W + extra) != 0 && Pow2(W - extra) > Shr(s, W + extra)
  {
    var p, q := W - extra, EMIN - W + extra;
    TopExponent(s, W - 1 + extra, EMIN - 1, x);
    RoundAligned(Nearest, sign, s, W + extra, EMIN - 1, x);
    TinyFromBits(Nearest, sign, s, extra, x);
    BelowTop(x, EMIN - 1, p, q);
    CarryToMin(Nearest, sign, x, q, p);
    RoundUnfolds(X87(p), Nearest, sign, x);
    OverflowIff(Pow2(p - 1), p, EMIN, EMAX);
    ShrPow2(s, W + extra, W - extra);
  }

  lemma BelowTop(x: real, e: int, p: nat, q: int)
    requires x > 0.0 && Exponent(x) == e && q == e - p + 1
    ensures Scale(x, -q) < Pow2(p) as real
  {
    if p > 0 {
      ScaleAdd(x, -e, p - 1);
      ScaleMono(Scale(x, -e), 2.0, p - 1);
      ScalePow2(p - 1);
      ScaleLinear(1.0, 1.0, p - 1);
    } else {
      ScaleSucc(x, -e - 1);
    }
  }

  /** Round s * 2^(exp - TOP), or the x it stands for, to nearest at p bits; false unless a normal comes out. */
  method FastFinish(s: U128, exp: int, sign: bool, p: nat, ghost x: real)
    returns (ok: bool, out: Float80, inexact: bool, up: bool)
    requires 24 <= p <= W && s >= Pow2(TOP) && x > 0.0 && Stands(s, 2 * W - p - 1, Scale(x, TOP - exp))
    ensures ok == RoundsToNormal(p, sign, x)
    ensures ok ==> FastOutcome(p, sign, x, out, inexact, up)
  {
    var shift := 2 * W - p;
    var kept, rem, half := Shr(s, shift), Low(s, shift), Pow2(shift - 1);
    var e := exp;
    up := false;
    out, inexact := Zero(false), false;
    HalfwayTest(s, shift, sign);
    if rem > half || (rem == half && kept % 2 == 1) {
      kept := kept + 1;
      up := true;
    }
    ghost var n := kept;
    FinishRange(s, exp, sign, p, x);
    RoundedSize(Nearest, sign, s, W - p);
    if kept >= Pow2(p) {
      kept := kept / 2;
      e := e + 1;
    }
    if e < EMIN || e > EMAX {
      ok := false;
      return;
    }
    ok := true;
    FinishEncodes(s, exp, sign, p, x);
    inexact := rem != 0;
    out := Float80(Shl(kept, W - p), e + BIAS80, sign);
  }

  lemma FinishRange(s: U128, exp: int, sign: bool, p: nat, x: real)
    requires 24 <= p <= W && s >= Pow2(TOP) && x > 0.0 && Stands(s, 2 * W - p - 1, Scale(x, TOP - exp))
    ensures var n := RoundShift(Nearest, sign, s, 2 * W - p);
            RoundsToNormal(p, sign, x) <==> if n == Pow2(p) then EMIN <= exp + 1 <= EMAX else EMIN <= exp <= EMAX
  {
    var n := RoundShift(Nearest, sign, s, 2 * W - p);
    TopExponent(s, 2 * W - p - 1, exp, x);
    RoundAligned(Nearest, sign, s, 2 * W - p, exp, x);
    RoundedSize(Nearest, sign, s, W - p);
    RangeOfRounded(n, p, exp);
  }

  lemma FinishEncodes(s: U128, exp: int, sign: bool, p: nat, x: real)
    requires 24 <= p <= W && s >= Pow2(TOP) && x > 0.0 && Stands(s, 2 * W - p - 1, Scale(x, TOP - exp))
    ensures var n := RoundShift(Nearest, sign, s, 2 * W - p);
            var inexact, up := Low(s, 2 * W - p) != 0, n > Shr(s, 2 * W - p);
            && (n < Pow2(p) && EMIN <= exp <= EMAX ==>
                  && Shl(n, W - p) < Pow2(W)
                  && FastOutcome(p, sign, x, Float80(Shl(n, W - p), exp + BIAS80, sign), inexact, up))
            && (n == Pow2(p) && EMIN <= exp + 1 <= EMAX ==>
                  && Shl(n / 2, W - p) == Pow2(W - 1)
                  && FastOutcome(p, sign, x, Float80(Pow2(W - 1), exp + 1 + BIAS80, sign), inexact, up))
  {
    var n, extra := RoundShift(Nearest, sign, s, 2 * W - p), W - p;
    RoundedSize(Nearest, sign, s, extra);
    if n < Pow2(p) && EMIN <= exp <= EMAX {
      FinishNormal(s, exp, sign, extra, x);
      EncodedNormal(n, extra, exp, sign);
    } else if n == Pow2(p) && EMIN <= exp < EMAX {
      FinishNormal(s, exp, sign, extra, x);
      EncodedCarry(n, extra, exp, sign);
    } else if n == Pow2(p) && exp == EMIN - 1 {
      FinishCarryToMin(s, sign, extra, x);
      EncodedNormal(Pow2(p - 1), extra, EMIN, sign);
      ShlOne(W - 1 - extra, extra);
    }
  }

  // ---- addition ----

  /** The fast paths' account of a signed exact result v. */
  ghost predicate FastResult(p: nat, v: real, out: Float80, inexact: bool, up: bool) {
    if v == 0.0 then out == Zero(false) && !inexact && !up
    else FastOutcome(p, v < 0.0, Abs(v), out, inexact, up)
  }

  lemma FastNormalOrdinary(f: Float80)
    requires FastNormal(f)
    ensures Ordinary(f) && !IsZero(f) && Mag(f) > 0.0 && f.exp > 0
  {
    MagZero(f);
  }

  lemma CoarseEnough(s: nat, g: nat, p: nat, y: real)
    requires Stands(s, g, y) && g <= 1 && p <= W
    ensures Stands(s, 2 * W - p - 1, y)
  {
    StandsCoarser(s, g, 2 * W - p - 1, y);
  }

  /** Operands of one sign. */
  method AddFastSame(x: Float80, y: Float80, sign: bool, p: nat)
    returns (ok: bool, out: Float80, inexact: bool, up: bool)
    requires FastNormal(x) && FastNormal(y) && 0 <= x.exp - y.exp < W && 24 <= p <= W
    ensures Mag(x) + Mag(y) > 0.0
    ensures ok == RoundsToNormal(p, sign, Mag(x) + Mag(y))
    ensures ok ==> FastOutcome(p, sign, Mag(x) + Mag(y), out, inexact, up)
  {
    FastNormalOrdinary(x); FastNormalOrdinary(y);
    UpperExact(x); LowerFits(x, y); UpperTop(x);
    var s, e := Upper(x) + Lower(x, y), UnbiasDenormal(x.exp);
    if s >= Pow2(2 * W) {
      CarriedSumRepresented(x, y, 0);
      CarryRestored(s);
      s := Sticky(s - Pow2(2 * W), 1) + Pow2(TOP);
      e := e + 1;
      CoarseEnough(s, 1, p, Scale(Mag(x) + Mag(y), TOP - e));
      ok, out, inexact, up := FastFinish(s, e, sign, p, Mag(x) + Mag(y));
    } else {
      SumStands(x, y);
      CoarseEnough(s, 0, p, Scale(Mag(x) + Mag(y), TOP - e));
      ok, out, inexact, up := FastFinish(s, e, sign, p, Mag(x) + Mag(y));
    }
  }

  /** Operands of opposite signs. */
  method AddFastOpposite(x: Float80, y: Float80, sign: bool, p: nat)
    returns (ok: bool, out: Float80, inexact: bool, up: bool)
    requires FastNormal(x) && FastNormal(y) && 0 <= x.exp - y.exp < W && 24 <= p <= W
    ensures var v := if sign then Mag(y) - Mag(x) else Mag(x) - Mag(y);
            && ok == (v == 0.0 || RoundsToNormal(p, v < 0.0, Abs(v)))
            && (ok ==> FastResult(p, v, out, inexact, up))
  {
    FastNormalOrdinary(x); FastNormalOrdinary(y);
    DifferenceRepresented(x, y, 0);
    var a, b, e, neg := Upper(x), Lower(x, y), UnbiasDenormal(x.exp), sign;
    var s: U128 := 0;
    if a >= b {
      s := a - b;
    } else {
      s := b - a;
      neg := !sign;
    }
    if s == 0 {
      return true, Zero(false), false, false;
    }
    ghost var m := if a >= b then Mag(x) - Mag(y) else Mag(y) - Mag(x);
    var z := Clz128(s);
    Sizes(s, 0);
    AlignLeft(s, 0, e, z, 2 * W - p - 1, m);
    ok, out, inexact, up := FastFinish(Shl(s, z), e - z, neg, p, m);
  }

  /** f80_add_fast. */
  method AddFast(a: Float80, b: Float80, p: nat) returns (ok: bool, out: Float80, inexact: bool, up: bool)
    requires 24 <= p <= W
    ensures var v := Value(a) + Value(b);
            && ok == (&& FastNormal(a) && FastNormal(b) && a.exp - b.exp < W && b.exp - a.exp < W
                      && (v == 0.0 || RoundsToNormal(p, v < 0.0, Abs(v))))
            && (ok ==> FastResult(p, v, out, inexact, up))
  {
    ok, out, inexact, up := false, Zero(false), false, false;
    if !FastNormal(a) || !FastNormal(b) {
      return;
    }
    var x, y := a, b;
    if x.exp < y.exp {
      x, y := y, x;
    }
    if x.exp - y.exp > W - 1 {
      return;
    }
    if x.sign == y.sign {
      ok, out, inexact, up := AddFastSame(x, y, x.sign, p);
    } else {
      ok, out, inexact, up := AddFastOpposite(x, y, x.sign, p);
    }
  }

  // ---- multiplication ----

  lemma ProductSize(a: Float80, b: Float80)
    requires FastNormal(a) && FastNormal(b)
    ensures Pow2(TOP - 1) <= a.signif * b.signif < Pow2(2 * W)
  {
    MulFits(a.signif, b.signif, W, W);
    Pow2Add(W - 1, W - 1);
    MulLe(Pow2(W - 1), Pow2(W - 1), a.signif, b.signif);
  }

  lemma OneBitUp(s: U128)
    requires Pow2(TOP - 1) <= s < Pow2(TOP)
    ensures Pow2(TOP) <= Shl(s, 1) < Pow2(2 * W)
  {
    ShlBelow(s, TOP, 1);
    ShlBelow(s, TOP - 1, 1);
  }

  /** f80_mul_fast. */
  method MulFast(a: Float80, b: Float80, p: nat) returns (ok: bool, out: Float80, inexact: bool, up: bool)
    requires 24 <= p <= W
    ensures ok ==> FastNormal(a) && FastNormal(b)
    ensures FastNormal(a) && FastNormal(b) ==>
              && Value(a) * Value(b) != 0.0
              && ok == RoundsToNormal(p, Value(a) * Value(b) < 0.0, Abs(Value(a) * Value(b)))
              && (ok ==> FastResult(p, Value(a) * Value(b), out, inexact, up))
  {
    ok, out, inexact, up := false, Zero(false), false, false;
    if !FastNormal(a) || !FastNormal(b) {
      return;
    }
    ProductSize(a, b); ProductRepresented(a, b, 0);
    ghost var v := SignOfProduct(a, b);
    var s: U128, exp := a.signif * b.signif, UnbiasDenormal(a.exp) + UnbiasDenormal(b.exp) + 1;
    if s < Pow2(TOP) {
      OneBitUp(s);
      AlignLeft(s, 0, exp, 1, 2 * W - p - 1, Abs(v));
      s := Shl(s, 1);
      exp := exp - 1;
    } else {
      CoarseEnough(s, 0, p, Scale(Abs(v), TOP - exp));
    }
    ok, out, inexact, up := FastFinish(s, exp, a.sign != b.sign, p, Abs(v));
  }

  // ---- division ----

  lemma QuotientIs(n: nat, d: nat, q: nat, r: nat)
    requires Prod(q, d) + r == n && r < d
    ensures n / d == q && n % d == r
  {
    DivideWithRemainder(n, d);
    if n / d < q { MulSucc(n / d, d); MulLe(n / d + 1, d, q, d); }
    if q < n / d { MulSucc(q, d); MulLe(q + 1, d, n / d, d); }
  }

  lemma {:induction false} SplitDividend(a: nat, w: nat)
    requires w > 0
    ensures Shl(a / 2, w) + Shl(a % 2, w - 1) == Shl(a, w - 1)
  {
    ShlSum(2 * (a / 2), a % 2, w - 1);
    ShlAdd(a / 2, 1, w - 1);
  }

  /** The two 128-by-64 divisions make the general code's quotient and remainder. */
  lemma FastQuotient(a: U64, b: U64, qHi: nat, r: nat, qLo: nat, last: nat)
    requires b > 0 && r < b && last < b
    requires Prod(qHi, b) + r == Shl(a, W - 1) && Prod(qLo, b) + last == Shl(r, W)
    ensures LongQuotient(a, b) == Shl(qHi, W) + qLo && LongRemainder(a, b) == last
  {
    QuotientIs(Shl(a, W - 1), b, qHi, r);
    QuotientIs(Shl(r, W), b, qLo, last);
  }

  lemma HighOfJammed(qHi: nat, qLo: nat, last: nat)
    requires qLo < Pow2(W)
    ensures Shr(Jammed(Shl(qHi, W) + qLo, last), W) == qHi
  {
    var j := Jammed(Shl(qHi, W) + qLo, last);
    EvenTop(qHi, qLo);
    ShrUnique(j, W, qHi, j - Shl(qHi, W));
  }

  lemma EvenTop(qHi: nat, qLo: nat)
    requires qLo < Pow2(W)
    ensures Shl(qHi, W) % 2 == 0 && Pow2(W) % 2 == 0
  {
  }

  lemma FastQuotientStands(a: Float80, b: Float80) returns (v: real)
    requires FastNormal(a) && FastNormal(b)
    ensures a.signif < 2 * b.signif
    ensures Value(b) != 0.0 && v == Value(a) / Value(b) && v != 0.0 && (v < 0.0 <==> a.sign != b.sign)
    ensures var s := Jammed(LongQuotient(a.signif, b.signif), LongRemainder(a.signif, b.signif));
            && Pow2(TOP - 1) <= s < Pow2(2 * W)
            && Stands(s, 1, Scale(Abs(v), TOP - (UnbiasDenormal(a.exp) - UnbiasDenormal(b.exp))))
  {
    ClzOfNormal(a); ClzOfNormal(b);
    var k := UnbiasDenormal(a.exp) - UnbiasDenormal(b.exp);
    v := ExactQuotient(a, b, k);
    LongQuotientStands(a.signif, b.signif, Scale(Abs(v), TOP - k));
  }

  lemma HighNonzero(q: U128)
    requires q >= Pow2(TOP - 1)
    ensures Shr(q, W) > 0 && Clz128(q) == Clz64(HighHalf(q))
  {
    Pow2Mono(W, TOP - 1);
    SmallIfHighZero(q);
  }

  /** f80_div_fast. */
  method DivFast(a: Float80, b: Float80, p: nat) returns (ok: bool, out: Float80, inexact: bool, up: bool)
    requires 24 <= p <= W
    ensures ok ==> FastNormal(a) && FastNormal(b)
    ensures FastNormal(a) && FastNormal(b) ==>
              && Value(b) != 0.0 && Value(a) / Value(b) != 0.0
              && ok == RoundsToNormal(p, Value(a) / Value(b) < 0.0, Abs(Value(a) / Value(b)))
              && (ok ==> FastResult(p, Value(a) / Value(b), out, inexact, up))
  {
    ok, out, inexact, up := false, Zero(false), false, false;
    if !FastNormal(a) || !FastNormal(b) {
      return;
    }
    ghost var v := FastQuotientStands(a, b);
    var qHi, q := FastQuotientBits(a.signif, b.signif);
    var exp := UnbiasDenormal(a.exp) - UnbiasDenormal(b.exp);
    FastQuotientReady(q, exp, p, Abs(v));
    var z := Clz64(qHi);
    ok, out, inexact, up := FastFinish(Shl(q, z), exp - z, a.sign != b.sign, p, Abs(v));
  }

  /** The 128 bits of quotient, the last remainder jammed into them, and their upper half. */
  method FastQuotientBits(m: U64, n: U64) returns (qHi: U64, q: U128)
    requires m < 2 * n && n >= Pow2(W - 1)
    requires Jammed(LongQuotient(m, n), LongRemainder(m, n)) < Pow2(2 * W)
    ensures q == Jammed(LongQuotient(m, n), LongRemainder(m, n)) && qHi == HighHalf(q)
  {
    SplitDividend(m, W);
    DividendHalves(m);
    var r, qLo, last;
    qHi, r := Divlu(m / 2, Shl(m % 2, W - 1), n);
    qLo, last := Divlu(r, 0, n);
    FastQuotient(m, n, qHi, r, qLo, last);
    q := Jammed(Shl(qHi, W) + qLo, last);
    HighOfJammed(qHi, qLo, last);
  }

  lemma FastQuotientReady(q: U128, exp: int, p: nat, x: real)
    requires 24 <= p <= W && q >= Pow2(TOP - 1) && Stands(q, 1, Scale(x, TOP - exp))
    ensures HighHalf(q) > 0
    ensures var z := Clz64(HighHalf(q));
            && Pow2(TOP) <= Shl(q, z) < Pow2(2 * W)
            && Stands(Shl(q, z), 2 * W - p - 1, Scale(x, TOP - (exp - z)))
  {
    ClzAtMost(q, 1); Sizes(q, 0); HighNonzero(q);
    AlignLeft(q, 1, exp, Clz64(HighHalf(q)), 2 * W - p - 1, x);
  }

  lemma DividendHalves(m: U64)
    ensures m / 2 < Pow2(W - 1) && Shl(m % 2, W - 1) < Pow2(W)
  {
    ShlBelow(m % 2, 1, W - 1);
  }
}
