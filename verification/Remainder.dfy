/** FPREM and FPREM1: the exact remainder by repeated scaled subtraction. */
module Remainder {
  import opened Powers
  import opened Rounding
  import opened Float80s
  import opened Normalize
  import opened Operands
  import opened Addition
  import opened Exactness
  import opened Comparison
  import opened Scaling
  import Multiplication

  /** The working mode of the remainder: 64 bits, to nearest. */
  predicate Working(env: Env)
    reads env
  {
    env.mode == Nearest && env.precision == W
  }

  predicate Nonnegative(f: Float80) { Ordinary(f) && !f.sign }

  // ---- exact steps ----

  lemma LargerPlace(r: Float80, t: Float80)
    requires Ordinary(r) && Ordinary(t) && Units(t) <= Units(r)
    ensures UnbiasDenormal(t.exp) <= UnbiasDenormal(r.exp)
  {
    UnitsCompare(t, r);
    if UnbiasDenormal(r.exp) < UnbiasDenormal(t.exp) { MagLess(r, t); }
  }

  /** Sterbenz: the difference of two numbers within a factor of two is a multiple of the smaller one's last place,
      with no more than the smaller one's significand. */
  lemma DifferenceFits(r: Float80, t: Float80) returns (m: nat)
    requires Ordinary(r) && Ordinary(t) && Units(t) < Units(r) <= 2 * Units(t)
    ensures 0 < m < Pow2(W)
    ensures Units(r) - Units(t) == Shl(m, UnbiasDenormal(t.exp) - EMIN)
  {
    LargerPlace(r, t);
    var kr, kt := UnbiasDenormal(r.exp) - EMIN, UnbiasDenormal(t.exp) - EMIN;
    var wide := Shl(r.signif, kr - kt);
    ShlAdd(r.signif, kr - kt, kt);
    ShlMono(t.signif, wide, kt);
    m := wide - t.signif;
    ShlSum(m, t.signif, kt);
    ShlMono(m, t.signif, kt);
  }

  lemma DifferenceExact(r: Float80, t: Float80, mode: Mode, v: real)
    requires Ordinary(r) && Ordinary(t) && Units(t) < Units(r) <= 2 * Units(t) && v == Mag(r) - Mag(t)
    ensures v > 0.0
    ensures var o := Round(X87(W), mode, false, v);
            o.mag.Finite? && Scale(o.mag.n as real, o.mag.q) == v
  {
    var m := DifferenceFits(r, t);
    var q := UnbiasDenormal(t.exp) - W + 1;
    MagIsUnits(r); MagIsUnits(t);
    ScaleLinear(Units(r) as real, Units(t) as real, UNIT);
    ScaleShl(m, UnbiasDenormal(t.exp) - EMIN, UNIT);
    ScalePositive((Units(r) - Units(t)) as real, UNIT);
    MagBelowTop(r);
    ScalePositive(Units(t) as real, UNIT);
    RoundExact(X87(W), mode, false, m, q, v);
  }

  /** r - t when it is representable: no rounding. */
  method SubExact(env: Env, r: Float80, t: Float80) returns (d: Float80)
    requires Working(env) && Nonnegative(r) && Nonnegative(t) && Units(t) <= Units(r) <= 2 * Units(t)
    modifies env
    ensures Working(env) && Nonnegative(d) && Units(d) == Units(r) - Units(t)
  {
    UnitsCompare(r, t);
    if Units(t) < Units(r) { DifferenceExact(r, t, Nearest, Mag(r) - Mag(t)); }
    d := Sub(env, r, t);
    MagIsUnits(r); MagIsUnits(t); MagIsUnits(d);
    ScaleLinear(Units(r) as real, Units(t) as real, UNIT);
    ScaleMono(Units(d) as real, (Units(r) - Units(t)) as real, UNIT);
    ScaleZero(UNIT);
    MagZero(Zero(false));
  }

  lemma BelowNextPower(x: real)
    requires x > 0.0
    ensures Scale(1.0, Exponent(x)) <= x < Scale(1.0, Exponent(x) + 1)
  {
    ScaleMove(1.0, x, Exponent(x));
    ScaleMove(2.0, x, Exponent(x));
    ScaleSucc(1.0, Exponent(x)); ScaleLinear(1.0, 1.0, Exponent(x));
  }

  lemma ScaledExact(d: Float80, i: nat, x: real)
    requires Ordinary(d) && d.signif > 0 && x == Scale(Mag(d), i) && LeadingExponent(d) + i <= EMAX
    ensures x > 0.0 && x == Scale(Shl(Units(d), i) as real, UNIT)
    ensures var o := Round(X87(W), Nearest, false, x);
            o.mag.Finite? && Scale(o.mag.n as real, o.mag.q) == x
  {
    ScaledBelowTop(d, i, x);
    ScaleAdd(d.signif as real, UnbiasDenormal(d.exp) - W + 1, i);
    RoundExact(X87(W), Nearest, false, d.signif, UnbiasDenormal(d.exp) - W + 1 + i, x);
    MagIsUnits(d);
    ScaleAdd(Units(d) as real, UNIT, i);
    ScaleShl(Units(d), i, UNIT);
  }

  lemma ScaledBelowTop(d: Float80, i: nat, x: real)
    requires Ordinary(d) && d.signif > 0 && x == Scale(Mag(d), i) && LeadingExponent(d) + i <= EMAX
    ensures 0.0 < x < Scale(1.0, EMAX + 1)
  {
    XtractExact(d);
    ExponentScaled(Mag(d), i);
    BelowNextPower(x);
    ScaleExpMono(1.0, Exponent(x) + 1, EMAX + 1);
  }

  /** d * 2^i, no larger in exponent than a finite number: no rounding. */
  method ScaleExact(env: Env, d: Float80, i: nat) returns (t: Float80)
    requires Working(env) && Nonnegative(d) && d.signif > 0 && LeadingExponent(d) + i <= EMAX
    modifies env
    ensures Working(env) && Nonnegative(t) && Units(t) == Shl(Units(d), i)
  {
    ScaledExact(d, i, Scale(Mag(d), i));
    t := ScaleBy(env, d, i);
    MagIsUnits(t);
    ScaleMono(Units(t) as real, Shl(Units(d), i) as real, UNIT);
  }

  /** The comparison of the remainder loop, exact at full precision. */
  method LessExact(env: Env, a: Float80, b: Float80) returns (r: bool)
    requires Working(env) && Nonnegative(a) && Nonnegative(b)
    modifies env
    ensures Working(env) && r == (Units(a) < Units(b))
  {
    UnitsCompare(a, b);
    if Value(a) < Value(b) { LtExactAtFullPrecision(a, b, Nearest); }
    r := Lt(env, a, b);
  }

  /** The first scaled divisor leaves less than twice itself. */
  lemma FirstScale(r: Float80, d: Float80)
    requires Ordinary(r) && Ordinary(d) && r.signif > 0 && d.signif > 0 && Units(d) <= Units(r)
    ensures LeadingExponent(r) >= LeadingExponent(d) && LeadingExponent(r) <= EMAX
    ensures Units(r) < Shl(Units(d), LeadingExponent(r) - LeadingExponent(d) + 1)
  {
    XtractExact(r); XtractExact(d); MagExponents(r);
    UnitsCompare(r, d);
    MagIsUnits(r); MagIsUnits(d);
    UnitsWithin(Units(r), Units(d), Mag(r), Mag(d));
  }

  lemma UnitsWithin(r: nat, d: nat, x: real, y: real)
    requires x == Scale(r as real, UNIT) && y == Scale(d as real, UNIT) && 0.0 < y <= x
    ensures Exponent(x) >= Exponent(y) && r < Shl(d, Exponent(x) - Exponent(y) + 1)
  {
    var er, ed := Exponent(x), Exponent(y);
    BelowNextPower(x); BelowNextPower(y);
    if er < ed { ScaleExpMono(1.0, er + 1, ed); }
    UnitsScaled(r, d, er, ed);
  }

  lemma UnitsScaled(r: nat, d: nat, er: int, ed: int)
    requires er >= ed && Scale(r as real, UNIT) < Scale(1.0, er + 1) && Scale(1.0, ed) <= Scale(d as real, UNIT)
    ensures r < Shl(d, er - ed + 1)
  {
    var k := er - ed + 1;
    ScaleAdd(1.0, ed, k);
    ScaleMono(Scale(1.0, ed), Scale(d as real, UNIT), k);
    ScaleAdd(d as real, UNIT, k);
    ScaleShl(d, k, UNIT);
    ScaleMono(r as real, Shl(d, k) as real, UNIT);
  }

  lemma ProdStep(q: nat, i: nat, y: nat)
    ensures Prod(q + Pow2(i), y) == Prod(q, y) + Shl(y, i)
  {
    ShlPow2(y, i);
  }

  /** One turn of the loop: subtract y * 2^i if it goes. */
  method ReduceStep(env: Env, r: Float80, y: Float80, i: nat) returns (r': Float80, took: bool)
    requires Working(env) && Nonnegative(r) && Nonnegative(y) && y.signif > 0
    requires LeadingExponent(y) + i <= EMAX && Units(r) < Shl(Units(y), i + 1)
    modifies env
    ensures Working(env) && Nonnegative(r')
    ensures took == (Shl(Units(y), i) <= Units(r))
    ensures Units(r') == Units(r) - if took then Shl(Units(y), i) else 0
  {
    var t := ScaleExact(env, y, i);
    var less := LessExact(env, r, t);
    if less {
      return r, false;
    }
    r' := SubExact(env, r, t);
    took := true;
  }

  /** X = q * Y + R with a quotient that is even until its last bit is decided. */
  ghost predicate Partial(X: nat, Y: nat, q: nat, R: nat, i: int, odd: bool) {
    && i >= -1 && X == Prod(q, Y) + R && R < Shl(Y, i + 1)
    && (i >= 0 ==> q % 2 == 0) && odd == (q % 2 == 1)
  }

  lemma PartialStep(X: nat, Y: nat, q: nat, R: nat, i: nat, odd: bool)
    requires Partial(X, Y, q, R, i, odd)
    ensures Shl(Y, i) <= R ==> Partial(X, Y, q + Pow2(i), R - Shl(Y, i), i - 1, odd || i == 0)
    ensures Shl(Y, i) > R ==> Partial(X, Y, q, R, i - 1, odd)
  {
    ProdStep(q, i, Y);
    ParityStep(q, i);
  }

  lemma ParityStep(q: nat, i: nat)
    requires q % 2 == 0
    ensures (q + Pow2(i)) % 2 == if i == 0 then 1 else 0
  {
    if i > 0 { assert Pow2(i) == 2 * Pow2(i - 1); }
  }

  lemma PartialStart(X: nat, Y: nat, i: int)
    requires i >= -1 && X < Shl(Y, i + 1)
    ensures Partial(X, Y, 0, X, i, false)
  {
    assert Prod(0, Y) == 0;
  }

  /** The turn, and what it does to the quotient of X by y. */
  method ReduceTurn(env: Env, r: Float80, y: Float80, i: nat, odd: bool, ghost X: nat, ghost q: nat)
    returns (r': Float80, odd': bool, ghost q': nat)
    requires Working(env) && Nonnegative(r) && Nonnegative(y) && y.signif > 0 && LeadingExponent(y) + i <= EMAX
    requires Partial(X, Units(y), q, Units(r), i, odd)
    modifies env
    ensures Working(env) && Nonnegative(r') && Partial(X, Units(y), q', Units(r'), i - 1, odd')
  {
    var took;
    PartialStep(X, Units(y), q, Units(r), i, odd);
    r', took := ReduceStep(env, r, y, i);
    odd', q' := odd, q;
    if took {
      if i == 0 {
        odd' := true;
      }
      q' := q + Pow2(i);
    }
  }

  /** x reduced by multiples of y, down from the largest scaled one; q is the integer quotient. */
  method Reduce(env: Env, x: Float80, y: Float80) returns (r: Float80, odd: bool, ghost q: nat)
    requires Working(env) && Nonnegative(x) && Nonnegative(y) && x.signif > 0 && y.signif > 0
    modifies env
    ensures Working(env) && Nonnegative(r)
    ensures Partial(Units(x), Units(y), q, Units(r), -1, odd)
  {
    ghost var X := Units(x);
    r, odd, q := x, false, 0;
    var less := LessExact(env, r, y);
    if less {
      PartialStart(X, Units(y), -1);
      return;
    }
    FirstScale(x, y);
    var i := LeadingExponent(x) - LeadingExponent(y);
    PartialStart(X, Units(y), i);
    while i >= 0
      invariant LeadingExponent(y) + i <= EMAX
      invariant Working(env) && Nonnegative(r)
      invariant Partial(X, Units(y), q, Units(r), i, odd)
    {
      r, odd, q := ReduceTurn(env, r, y, i, odd, X, q);
      i := i - 1;
    }
  }

  // ---- FPREM1's rounded quotient ----

  lemma DoubledRounds(r: Float80, v: real)
    requires Ordinary(r) && r.signif > 0 && v == Mag(r) + Mag(r)
    ensures v > 0.0 && v == Scale((2 * Units(r)) as real, UNIT)
    ensures var o := Round(X87(W), Nearest, false, v);
            if v < Scale(1.0, EMAX + 1) then o.mag.Finite? && Scale(o.mag.n as real, o.mag.q) == v
            else o.mag == Infinite
  {
    MagZero(r);
    var q := UnbiasDenormal(r.exp) - W + 1;
    ScaleSucc(r.signif as real, q);
    MagIsUnits(r);
    ScaleLinear(Units(r) as real, Units(r) as real, UNIT);
    if v < Scale(1.0, EMAX + 1) {
      RoundExact(X87(W), Nearest, false, r.signif, q + 1, v);
    } else {
      ExponentAtLeast(v, EMAX + 1);
      TooLarge(X87(W), Nearest, false, v);
    }
  }

  /** r + r: exact, or infinite when it is past every finite number. */
  method Twice(env: Env, r: Float80) returns (t: Float80)
    requires Working(env) && Nonnegative(r)
    modifies env
    ensures Working(env)
    ensures (Nonnegative(t) && Units(t) == 2 * Units(r)) || (t == Inf(false) && Mag(r) + Mag(r) >= Scale(1.0, EMAX + 1))
  {
    if r.signif > 0 { DoubledRounds(r, Mag(r) + Mag(r)); }
    MagZero(r);
    t := Add(env, r, r);
    MagIsUnits(t);
    ScaleMono(Units(t) as real, (2 * Units(r)) as real, UNIT);
    ZeroUnits(r);
  }

  lemma ZeroUnits(r: Float80)
    requires Ordinary(r)
    ensures r.signif == 0 <==> Units(r) == 0
    ensures Units(Zero(false)) == 0
  {
    ShlMono(0, r.signif, UnbiasDenormal(r.exp) - EMIN);
    ShlZero(UnbiasDenormal(r.exp) - EMIN);
    ShlZero(UnbiasDenormal(0) - EMIN);
  }

  lemma InfinityIsInf()
    ensures IsInf(Inf(false)) && IsSupported(Inf(false)) && !IsNaN(Inf(false))
  {
    LowPow2(W - 1, W - 1);
  }

  lemma OverflowedTwice(r: Float80, d: Float80)
    requires Ordinary(r) && Ordinary(d) && Mag(r) + Mag(r) >= Scale(1.0, EMAX + 1)
    ensures 2 * Units(r) > Units(d)
  {
    MagBelowTop(d);
    MagIsUnits(r); MagIsUnits(d);
    ScaleLinear(Units(r) as real, Units(r) as real, UNIT);
    ScaleMono(Units(d) as real, (2 * Units(r)) as real, UNIT);
  }

  /** Past halfway, or halfway with an odd quotient, the remainder is taken from above. */
  method NearestStep(env: Env, r: Float80, d: Float80, odd: bool) returns (r': Float80, flip: bool)
    requires Working(env) && Nonnegative(r) && Nonnegative(d) && Units(r) < Units(d)
    modifies env
    ensures Working(env) && Nonnegative(r')
    ensures flip == (2 * Units(r) > Units(d) || (2 * Units(r) == Units(d) && odd))
    ensures Units(r') == if flip then Units(d) - Units(r) else Units(r)
  {
    r', flip := r, false;
    var twice := Twice(env, r);
    var past := false;
    if Nonnegative(twice) {
      past := LessExact(env, d, twice);
      EqIsEqual(twice, d);
      UnitsCompare(twice, d);
    } else {
      InfinityIsInf();
      OverflowedTwice(r, d);
      past := Lt(env, d, twice);
    }
    if past || (Eq(twice, d) && odd) {
      r' := SubExact(env, d, r);
      flip := true;
    }
  }

  // ---- the quotient as a real ----

  lemma QuotientReal(X: nat, Y: nat, q: nat, R: nat, z: real)
    requires R < Y && X == Prod(q, Y) + R && Times(z, Y as real) == X as real
    ensures z.Floor == q
    ensures RoundInt(Nearest, false, z) == q + if 2 * R > Y || (2 * R == Y && q % 2 == 1) then 1 else 0
  {
    var w := z - q as real;
    TimesLess(z, q, Y, X);
    HalfFraction(w, Y as real, R as real);
  }

  lemma TimesLess(z: real, q: nat, Y: nat, X: nat)
    requires Times(z, Y as real) == X as real
    ensures Times(z - q as real, Y as real) == (X - Prod(q, Y)) as real
  {
    assert (q * Y) as real == q as real * Y as real;
  }

  lemma HalfFraction(w: real, d: real, r: real)
    requires d > 0.0 && Times(w, d) == r && 0.0 <= r < d
    ensures 0.0 <= w < 1.0
    ensures w == 0.0 <==> r == 0.0
    ensures w < 0.5 <==> 2.0 * r < d
    ensures w == 0.5 <==> 2.0 * r == d
  {
    Multiplication.UnitFraction(w, d, r);
    HalfFractionOnly(w, d, r);
  }

  lemma HalfFractionOnly(w: real, d: real, r: real)
    requires d > 0.0 && Times(w, d) == r
    ensures w < 0.5 <==> 2.0 * r < d
    ensures w == 0.5 <==> 2.0 * r == d
  {
    Multiplication.MulSign(0.5 - w, d);
    assert (0.5 - w) * d == 0.5 * d - r;
  }

  // ---- the instruction ----

  /** r = x - n * y in magnitude, with x's sign when that is not negative and the opposite one when it is. */
  ghost predicate SignedRemainder(x: Float80, y: Float80, n: int, r: Float80) {
    var rest := Mag(x) - Times(n as real, Mag(y));
    && Ordinary(r)
    && Mag(r) == (if rest < 0.0 then -rest else rest)
    && r.sign == (if rest < 0.0 then !x.sign else x.sign)
  }

  /** FPREM truncates the exact quotient, FPREM1 rounds it to nearest even. */
  ghost function QuotientOf(x: Float80, y: Float80, ieee: bool): int
    requires Mag(y) > 0.0
  {
    if ieee then RoundInt(Nearest, false, Mag(x) / Mag(y)) else (Mag(x) / Mag(y)).Floor
  }

  lemma DividesBack(a: real, b: real)
    requires b > 0.0
    ensures Times(a / b, b) == a
  {
  }

  lemma QuotientUnits(x: Float80, y: Float80)
    requires Ordinary(x) && Ordinary(y) && Mag(y) > 0.0
    ensures Times(Mag(x) / Mag(y), Units(y) as real) == Units(x) as real
  {
    var z := Mag(x) / Mag(y);
    DividesBack(Mag(x), Mag(y));
    MagIsUnits(x); MagIsUnits(y);
    ScaleMul(z, Units(y) as real, UNIT);
    ScaleMono(Times(z, Units(y) as real), Units(x) as real, UNIT);
  }

  lemma ScaledMultiple(n: nat, y: Float80)
    requires Ordinary(y)
    ensures Times(n as real, Mag(y)) == Scale(Prod(n, Units(y)) as real, UNIT)
  {
    MagIsUnits(y);
    ScaleMul(n as real, Units(y) as real, UNIT);
    ProdIsTimes(n, Units(y));
  }

  lemma ProdIsTimes(a: nat, b: nat)
    ensures Prod(a, b) as real == Times(a as real, b as real)
  {
  }

  lemma RestOfUnits(x: Float80, y: Float80, n: nat, r: Float80)
    requires Ordinary(x) && Ordinary(y) && Ordinary(r)
    requires Units(r) == Abs(Units(x) - Prod(n, Units(y)))
    requires r.sign == if Units(x) < Prod(n, Units(y)) then !x.sign else x.sign
    ensures SignedRemainder(x, y, n, r)
  {
    ScaledMultiple(n, y);
    MagIsUnits(x); MagIsUnits(r);
    var X, N := Units(x) as real, Prod(n, Units(y)) as real;
    ScaleMono(X, N, UNIT);
    if X < N { ScaleLinear(X, N - X, UNIT); } else { ScaleLinear(N, X - N, UNIT); }
  }

  function Abs(i: int): nat { if i < 0 then -i else i }

  lemma SignIrrelevant(f: Float80, sign: bool)
    requires Ordinary(f)
    ensures Ordinary(f.(sign := sign)) && Mag(f.(sign := sign)) == Mag(f) && Units(f.(sign := sign)) == Units(f)
  {
  }

  /** What the reduction and the nearest step leave is the remainder by the exact quotient. */
  lemma RemainderRight(x: Float80, y: Float80, ieee: bool, q: nat, R: nat, odd: bool, r: Float80)
    requires Ordinary(x) && Ordinary(y) && Ordinary(r) && Mag(y) > 0.0
    requires Partial(Units(x), Units(y), q, R, -1, odd)
    requires var flip := ieee && (2 * R > Units(y) || (2 * R == Units(y) && odd));
             && Units(r) == (if flip then Units(y) - R else R)
             && r.sign == (if flip then !x.sign else x.sign)
    ensures SignedRemainder(x, y, QuotientOf(x, y, ieee), r)
  {
    QuotientUnits(x, y);
    QuotientReal(Units(x), Units(y), q, R, Mag(x) / Mag(y));
    MulSucc(q, Units(y));
    RestOfUnits(x, y, QuotientOf(x, y, ieee), r);
  }

  /** The reduction under the saved and restored rounding state. */
  method FiniteRemainder(env: Env, x: Float80, y: Float80, ieee: bool) returns (r: Float80)
    requires Ordinary(x) && Ordinary(y) && x.signif > 0 && y.signif > 0
    modifies env
    ensures Mag(y) > 0.0 && SignedRemainder(x, y, QuotientOf(x, y, ieee), r)
    ensures env.Only({})
  {
    var mode, precision, exceptions, inexact, roundedUp :=
      env.mode, env.precision, env.exceptions, env.inexact, env.roundedUp;
    env.mode, env.precision := Nearest, W;
    SignIrrelevant(x, false); SignIrrelevant(y, false);
    var d := AbsF(y);
    var odd; ghost var q;
    r, odd, q := Reduce(env, AbsF(x), d);
    ghost var R := Units(r);
    var flip := false;
    if ieee {
      r, flip := NearestStep(env, r, d, odd);
    }
    env.mode, env.precision := mode, precision;
    env.exceptions, env.inexact, env.roundedUp := exceptions, inexact, roundedUp;
    SignIrrelevant(r, flip != x.sign);
    r := r.(sign := flip != x.sign);
    MagZero(y);
    RemainderRight(x, y, ieee, q, R, odd, r);
  }

  /** What the remainder of SignedRemainder is like: FPREM's has x's sign and is below y; FPREM1's is at most half of
      y, and at half the quotient is even. Both are x less a whole number of y's, n taken with the sign of x / y. */
  lemma RemainderSize(x: Float80, y: Float80, ieee: bool, r: Float80)
    requires Mag(y) > 0.0 && SignedRemainder(x, y, QuotientOf(x, y, ieee), r)
    ensures !ieee ==> Mag(r) < Mag(y) && r.sign == x.sign
    ensures ieee ==> 2.0 * Mag(r) <= Mag(y) && (2.0 * Mag(r) == Mag(y) ==> QuotientOf(x, y, ieee) % 2 == 0)
    ensures var n := QuotientOf(x, y, ieee);
            Value(r) == Value(x) - Times((if x.sign == y.sign then n else 0 - n) as real, Value(y))
  {
    var z, n := Mag(x) / Mag(y), QuotientOf(x, y, ieee);
    DividesBack(Mag(x), Mag(y));
    TimesApart(z, n as real, Mag(y));
    TimesSigns(n as real, Mag(y));
  }

  /** How far n * d is from z * d, by how far n is from z. */
  lemma TimesApart(z: real, n: real, d: real)
    requires d > 0.0
    ensures z - n >= 0.0 <==> Times(z, d) - Times(n, d) >= 0.0
    ensures z - n < 1.0 <==> Times(z, d) - Times(n, d) < d
    ensures z - n <= 0.5 <==> 2.0 * (Times(z, d) - Times(n, d)) <= d
    ensures z - n >= -0.5 <==> 2.0 * (Times(n, d) - Times(z, d)) <= d
    ensures z - n == 0.5 <==> 2.0 * (Times(z, d) - Times(n, d)) == d
    ensures z - n == -0.5 <==> 2.0 * (Times(n, d) - Times(z, d)) == d
  {
    assert Times(z, d) - Times(n, d) == Times(z - n, d);
    Multiplication.MulSign(z - n, d); Multiplication.MulSign(1.0 - (z - n), d);
    Multiplication.MulSign(0.5 - (z - n), d); Multiplication.MulSign(0.5 + (z - n), d);
    assert Times(1.0 - (z - n), d) == d - Times(z - n, d);
    assert Times(0.5 - (z - n), d) == 0.5 * d - Times(z - n, d);
    assert Times(0.5 + (z - n), d) == 0.5 * d + Times(z - n, d);
  }

  lemma TimesSigns(n: real, y: real)
    ensures Times(-n, y) == -Times(n, y) && Times(n, -y) == -Times(n, y) && Times(-n, -y) == Times(n, y)
  {
  }

  /** f80_mod with ieee false, f80_rem with ieee true. */
  method RemainderOf(env: Env, x: Float80, y: Float80, ieee: bool) returns (r: Float80)
    modifies env
    ensures !IsSupported(x) || !IsSupported(y) ==> r == INDEFINITE && env.Only({Invalid})
    ensures Numbers(x, y) && (IsInf(x) || IsZero(y)) ==> r == INDEFINITE && env.Only({Invalid})
    ensures IsSupported(x) && IsSupported(y) && !Numbers(x, y) ==>
      && r == Quiet(if IsNaN(x) then x else y)
      && env.Only(if IsSNaN(x) || IsSNaN(y) then {Invalid} else {})
    ensures Numbers(x, y) && !IsInf(x) && !IsZero(y) ==>
      && env.Only(if IsDenormal(x) || IsDenormal(y) then {Exception.Denormal} else {})
      && (if IsInf(y) then r == x else Mag(y) > 0.0 && SignedRemainder(x, y, QuotientOf(x, y, ieee), r))
  {
    if !IsSupported(x) || !IsSupported(y) {
      env.exceptions := env.exceptions + {Invalid};
      return INDEFINITE;
    }
    if IsSNaN(x) || IsSNaN(y) {
      env.exceptions := env.exceptions + {Invalid};
    }
    if IsNaN(x) {
      return Quiet(x);
    }
    if IsNaN(y) {
      return Quiet(y);
    }
    if IsInf(x) || IsZero(y) {
      env.exceptions := env.exceptions + {Invalid};
      return INDEFINITE;
    }
    if IsDenormal(x) || IsDenormal(y) {
      env.exceptions := env.exceptions + {Exception.Denormal};
    }
    if IsZero(x) || IsInf(y) {
      if !IsInf(y) { ZeroRemainder(x, y, ieee); }
      return x;
    }
    NumberNonzero(x); NumberNonzero(y);
    r := FiniteRemainder(env, x, y, ieee);
  }

  lemma NumberNonzero(f: Float80)
    requires IsSupported(f) && !IsNaN(f) && !IsInf(f) && !IsZero(f)
    ensures Ordinary(f) && f.signif > 0
  {
  }

  lemma ZeroRemainder(x: Float80, y: Float80, ieee: bool)
    requires IsZero(x) && IsSupported(y) && !IsNaN(y) && !IsInf(y) && !IsZero(y)
    ensures Mag(y) > 0.0 && SignedRemainder(x, y, QuotientOf(x, y, ieee), x)
  {
    NumberNonzero(y);
    MagZero(x); MagZero(y);
    assert Mag(x) / Mag(y) == 0.0;
    assert Times(0.0, Mag(y)) == 0.0;
  }
}
