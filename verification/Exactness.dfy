/** Results that need no rounding, and results too small or too large for rounding to matter. */
module Exactness {
  import opened Powers
  import opened Rounding
  import opened Float80s
  import opened Normalize
  import opened Operands

  /** m * 2^q fits the format, its range of exponents apart. */
  lemma RoundAtExact(fmt: Format, mode: Mode, sign: bool, m: nat, q: int, x: real)
    requires fmt.p > 0 && 0 < m < Pow2(fmt.p) && q >= fmt.emin - fmt.p + 1
    requires x > 0.0 && x == Scale(m as real, q)
    ensures Quantum(fmt, x) <= q
    ensures RoundAt(mode, sign, x, Quantum(fmt, x)) == Shl(m, q - Quantum(fmt, x))
    ensures Scale(Shl(m, q - Quantum(fmt, x)) as real, Quantum(fmt, x)) == x
  {
    GridPoint(fmt, x, m, q);
    ScaleShl(m, q - Quantum(fmt, x), Quantum(fmt, x));
  }

  /** A representable value comes through rounding untouched, with no flag. */
  lemma RoundExact(fmt: Format, mode: Mode, sign: bool, m: nat, q: int, x: real)
    requires fmt.p > 0 && 0 < m < Pow2(fmt.p) && q >= fmt.emin - fmt.p + 1
    requires x == Scale(m as real, q) && 0.0 < x < Scale(1.0, fmt.emax + 1)
    ensures var o := Round(fmt, mode, sign, x);
            && !o.inexact && !o.up && !o.overflow && !o.underflow
            && o.mag.Finite? && Scale(o.mag.n as real, o.mag.q) == x
  {
    RoundAtExact(fmt, mode, sign, m, q, x);
  }

  lemma MagBelowTop(f: Float80)
    requires Ordinary(f)
    ensures Mag(f) < Scale(1.0, EMAX + 1)
  {
    var e := UnbiasDenormal(f.exp) - W + 1;
    ScaleMono(f.signif as real, Pow2(W) as real, e);
    OneAt(W, e);
    ScaleExpMono(1.0, W + e, EMAX + 1);
  }

  /** A float80 rounded to 64 bits is itself. */
  lemma FloatIsExact(f: Float80, mode: Mode, sign: bool, x: real)
    requires Ordinary(f) && x == Mag(f) && x > 0.0
    ensures var o := Round(X87(W), mode, sign, x);
            && !o.inexact && !o.up && !o.overflow && !o.underflow
            && Delivers(f.(sign := sign), sign, o.mag)
            && forall g: Float80 :: Delivers(g, sign, o.mag) ==> g == f.(sign := sign)
  {
    MagBelowTop(f); MagZero(f);
    RoundExact(X87(W), mode, sign, f.signif, UnbiasDenormal(f.exp) - W + 1, x);
    var o := Round(X87(W), mode, sign, x);
    forall g: Float80 | Delivers(g, sign, o.mag)
      ensures g == f.(sign := sign)
    {
      UniqueEncoding(g, f.(sign := sign));
    }
  }

  // ---- exponents ----

  lemma {:induction false} ExponentScaled(x: real, k: int)
    requires x > 0.0
    ensures Scale(x, k) > 0.0 && Exponent(Scale(x, k)) == Exponent(x) + k
  {
    ScalePositive(x, k);
    ExponentOfScaled(x, k, Exponent(x), Scale(x, k));
  }

  lemma ExponentOfScaled(x: real, k: int, e: int, y: real)
    requires y == Scale(x, k) && y > 0.0 && 1.0 <= Scale(x, -e) < 2.0
    ensures Exponent(y) == e + k
  {
    ScaleAdd(x, k, -e - k);
    ExponentUnique(y, e + k);
  }

  lemma ExponentAtLeast(x: real, e: int)
    requires x >= Scale(1.0, e)
    ensures x > 0.0 && Exponent(x) >= e
  {
    ScalePositive(1.0, e);
    var e' := Exponent(x);
    if e' < e {
      ScaleMove(x, 2.0, -e');
      ScaleSucc(1.0, e');
      ScaleLinear(1.0, 1.0, e');
      ScaleExpMono(1.0, e' + 1, e);
    }
  }

  lemma ExponentBelow(x: real, e: int)
    requires 0.0 < x < Scale(1.0, e)
    ensures Exponent(x) < e
  {
    var e' := Exponent(x);
    if e' >= e {
      ScaleMove(x, 1.0, -e');
      ScaleExpMono(1.0, e, e');
    }
  }

  lemma MagExponents(f: Float80)
    requires Ordinary(f) && f.signif > 0
    ensures Mag(f) > 0.0 && EMIN - W + 1 <= Exponent(Mag(f)) <= EMAX
  {
    MagZero(f);
    MagBelowTop(f);
    ExponentBelow(Mag(f), EMAX + 1);
    var e := UnbiasDenormal(f.exp) - W + 1;
    ScaleMono(f.signif as real, 1.0, e);
    ScaleExpMono(1.0, EMIN - W + 1, e);
    ExponentAtLeast(Mag(f), EMIN - W + 1);
  }

  // ---- far below the smallest subnormal ----

  /** Less than half the smallest subnormal: 0 or the smallest subnormal, by the mode alone. */
  lemma TinyOutcome(fmt: Format, mode: Mode, sign: bool, x: real)
    requires x > 0.0 && fmt.p > 0 && fmt.emin <= fmt.emax && Exponent(x) < fmt.emin - fmt.p
    ensures Round(fmt, mode, sign, x) ==
            var away := AwayFromZero(mode, sign);
            Outcome(Finite(if away then 1 else 0, fmt.emin - fmt.p + 1), true, away, false, true)
  {
    var q := fmt.emin - fmt.p + 1;
    TinySmall(x, Exponent(x), q);
    BelowHalf(mode, sign, Scale(x, -q));
    TinyIsTiny(fmt, mode, sign, x);
    TinyDelivered(x, q, fmt.emax + 1);
  }

  lemma TinyDelivered(x: real, q: int, top: int)
    requires 0.0 < Scale(x, -q) < 0.5 && q < top && x > 0.0
    ensures Scale(0.0, q) == 0.0 < Scale(1.0, top) && x < Scale(1.0, q) < Scale(1.0, top)
  {
    ScaleZero(q);
    ScaleExpMono(1.0, q, top - 1); ScaleSucc(1.0, top - 1);
    ScaleMove(x, 1.0, -q);
    ScalePositive(1.0, q);
  }

  lemma TinySmall(x: real, e: int, q: int)
    requires x > 0.0 && Exponent(x) == e && e < q - 1
    ensures 0.0 < Scale(x, -q) < 0.5
  {
    ScalePositive(x, -q);
    ScaleExpMono(x, -q, -e - 2);
    ScaleSucc(x, -e - 2); ScaleSucc(x, -e - 1);
  }

  lemma TinyIsTiny(fmt: Format, mode: Mode, sign: bool, x: real)
    requires x > 0.0 && fmt.p > 0 && Exponent(x) < fmt.emin - 1
    ensures Tiny(fmt, mode, sign, x)
  {
    var e, p := Exponent(x), fmt.p;
    var q := e - p + 1;
    ScaleAdd(x, -e, p - 1);
    ScaleMono(Scale(x, -e), 2.0, p - 1);
    ScaleLinear(1.0, 1.0, p - 1);
    ScalePow2(p - 1);
    var n := RoundAt(mode, sign, x, q);
    assert n <= Pow2(p);
    ScaleMono(n as real, Pow2(p) as real, q);
    OneAt(p, q);
    ScaleExpMono(1.0, e + 1, fmt.emin);
    ScalePositive(1.0, e + 1);
  }

  lemma TopExponentOf(s: nat, e: int, x: real)
    requires Pow2(W - 1) <= s < Pow2(W) && x > 0.0 && x == Scale(s as real, e - W + 1)
    ensures Exponent(x) == e
  {
    ScaleAdd(s as real, e - W + 1, -e);
    ScaleMove(1.0, s as real, W - 1); ScaleMove(2.0, s as real, W - 1);
    ScalePow2(W - 1);
    ScaleLinear(1.0, 1.0, W - 1);
    ExponentUnique(x, e);
  }

  lemma TopOf(f: Float80, s: nat, e: int)
    requires Ordinary(f) && f.signif > 0
    requires s == Shl(f.signif, Clz64(f.signif)) && e == UnbiasDenormal(f.exp) - Clz64(f.signif)
    ensures Pow2(W - 1) <= s < Pow2(W) && Mag(f) == Scale(s as real, e - W + 1)
    ensures Mag(f) > 0.0 && Exponent(Mag(f)) == e
  {
    var z := Clz64(f.signif);
    ShlBelow(f.signif, W - z, z);
    ShlBelow(f.signif, W - 1 - z, z);
    ScaleShl(f.signif, z, e - W + 1);
    MagZero(f);
    TopExponentOf(s, e, Mag(f));
  }

  // ---- what is delivered is a number of the format ----

  lemma RoundedWithin(fmt: Format, mode: Mode, sign: bool, x: real)
    requires x > 0.0 && fmt.p > 0
    ensures RoundAt(mode, sign, x, Quantum(fmt, x)) <= Pow2(fmt.p)
  {
    var e, q := Exponent(x), Quantum(fmt, x);
    ScaleAdd(x, -e, e - q);
    ScaleMono(Scale(x, -e), 2.0, e - q);
    ScaleLinear(1.0, 1.0, e - q); ScaleSucc(1.0, e - q);
    ScaleExpMono(1.0, e - q + 1, fmt.p);
    ScalePow2(fmt.p);
    assert Scale(x, -q).Floor < Pow2(fmt.p);
  }

  /** A finite outcome is the value of a number of the format: rounding never delivers anything else. */
  lemma DeliveredInFormat(fmt: Format, mode: Mode, sign: bool, x: real) returns (m: nat, j: int)
    requires x > 0.0 && fmt.p > 0 && fmt.emin <= fmt.emax && Round(fmt, mode, sign, x).mag.Finite?
    ensures InFormat(fmt, m, j)
    ensures var mag := Round(fmt, mode, sign, x).mag; Scale(m as real, j) == Scale(mag.n as real, mag.q)
  {
    var o, q := Round(fmt, mode, sign, x), Quantum(fmt, x);
    RoundedWithin(fmt, mode, sign, x);
    if o.overflow {
      m, j := Pow2(fmt.p) - 1, fmt.emax - fmt.p + 1;
    } else {
      if Exponent(x) > fmt.emax { TooLarge(fmt, mode, sign, x); }
      m, j := o.mag.n, q;
      if m == Pow2(fmt.p) {
        DoubleScale(Pow2(fmt.p - 1), q);
        OneAt(fmt.p, q);
        if q == fmt.emax - fmt.p + 1 { assert Scale(m as real, q) == Scale(1.0, fmt.emax + 1); }
        m, j := Pow2(fmt.p - 1), q + 1;
      }
    }
  }
}
