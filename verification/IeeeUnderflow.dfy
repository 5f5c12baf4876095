/** When f80_to_ieee's underflow flag is the one the x87 would raise: it looks at the delivered result, the x87 at the
    result rounded with unbounded exponent. */
module IeeeUnderflow {
  import opened Powers
  import opened Rounding
  import opened Float80s
  import opened Normalize
  import opened Operands
  import opened Ieee

  // ---- rounding up to an integer from just below it ----

  lemma RoundIntBelow(mode: Mode, sign: bool, z: real, k: int)
    requires z < k as real
    ensures RoundInt(mode, sign, z) <= k
    ensures RoundInt(mode, sign, z) == k ==>
      && !TowardZero(mode, sign) && k as real - z < 1.0 && (mode.Nearest? ==> k as real - z <= 0.5)
    ensures !TowardZero(mode, sign) && k as real - z < 0.5 ==> RoundInt(mode, sign, z) == k
  {
    if k as real - z < 1.0 { assert z.Floor == k - 1; } else { assert z.Floor <= k - 1; }
  }

  lemma {:induction false} ScaleExpAtLeast(y: real, d: nat)
    requires y >= 0.0 && d >= 1
    ensures Scale(y, d) >= 2.0 * y
    decreases d
  {
    if d == 1 {
      ScaleSucc(y, 0);
    } else {
      ScaleExpAtLeast(y, d - 1);
      ScaleSucc(y, d - 1);
    }
  }

  /** What rounds up to k at a finer place rounds up to k at a coarser one. */
  lemma CoarserCarries(mode: Mode, sign: bool, z: real, k: nat, d: nat)
    requires z < k as real && d >= 1
    requires RoundInt(mode, sign, Scale(z, d)) >= Shl(k, d)
    ensures RoundInt(mode, sign, z) == k
  {
    var y := k as real - z;
    ScaleNat(k, d);
    ScaleLinear(z, y, d);
    ScaleExpAtLeast(y, d);
    ScaleMono(z, k as real, d);
    RoundIntBelow(mode, sign, Scale(z, d), Shl(k, d));
    RoundIntBelow(mode, sign, z, k);
  }

  // ---- tininess and the delivered result ----

  /** 2^emin in units of the last subnormal place, and x in the same units, when x is below the normal range. */
  lemma BelowNormal(fmt: Format, x: real)
    requires x > 0.0 && fmt.p > 0 && Exponent(x) < fmt.emin
    ensures var q := fmt.emin - fmt.p + 1;
            && Quantum(fmt, x) == q
            && Scale(1.0, fmt.emin) == Scale(Pow2(fmt.p - 1) as real, q)
            && Scale(x, -q) < Pow2(fmt.p - 1) as real
            && Scale(x, fmt.p - 1 - Exponent(x)) == Scale(Scale(x, -q), fmt.emin - Exponent(x))
  {
    var e, q := Exponent(x), fmt.emin - fmt.p + 1;
    ScalePow2(fmt.p - 1);
    ScaleAdd(1.0, fmt.p - 1, q);
    ScaleAdd(x, -q, fmt.emin - e);
    PlacesBelow(x, q, fmt.p - 1);
  }

  lemma PlacesBelow(x: real, q: int, k: nat)
    requires x > 0.0 && Exponent(x) - q < k
    ensures Scale(x, -q) < Scale(1.0, k)
  {
    var e := Exponent(x);
    ScaleAdd(x, -e, e - q);
    ScaleMono(Scale(x, -e), 2.0, e - q);
    ScaleSucc(1.0, e - q); ScaleLinear(1.0, 1.0, e - q);
    ScaleExpMono(1.0, e - q + 1, k);
  }

  /** A result delivered below the smallest normal is tiny; a tiny one is delivered as the smallest normal at most. */
  lemma DeliveredTiny(fmt: Format, mode: Mode, sign: bool, x: real)
    requires x > 0.0 && fmt.p > 0
    ensures var q := Quantum(fmt, x);
            var r := Scale(RoundAt(mode, sign, x, q) as real, q);
            && (r < Scale(1.0, fmt.emin) ==> Tiny(fmt, mode, sign, x))
            && (Tiny(fmt, mode, sign, x) ==> r <= Scale(1.0, fmt.emin))
  {
    if Exponent(x) < fmt.emin { DeliveredBelow(fmt, mode, sign, x); }
  }

  lemma DeliveredBelow(fmt: Format, mode: Mode, sign: bool, x: real)
    requires x > 0.0 && fmt.p > 0 && Exponent(x) < fmt.emin
    ensures var q := Quantum(fmt, x);
            var r := Scale(RoundAt(mode, sign, x, q) as real, q);
            r <= Scale(1.0, fmt.emin) && (r < Scale(1.0, fmt.emin) ==> Tiny(fmt, mode, sign, x))
  {
    var e, q := Exponent(x), Quantum(fmt, x);
    BelowNormal(fmt, x);
    ScalePositive(x, -q);
    DeliveredSubnormal(mode, sign, Scale(x, -q), Pow2(fmt.p - 1), fmt.emin - e, q);
  }

  lemma DeliveredSubnormal(mode: Mode, sign: bool, z: real, k: nat, d: nat, q: int)
    requires 0.0 <= z < k as real && d >= 1
    ensures var r := Scale(RoundInt(mode, sign, z) as real, q);
            var u := Scale(RoundInt(mode, sign, Scale(z, d)) as real, q - d);
            r <= Scale(k as real, q) && (r < Scale(k as real, q) ==> u < Scale(k as real, q))
  {
    var n, n' := RoundInt(mode, sign, z), RoundInt(mode, sign, Scale(z, d));
    RoundIntBelow(mode, sign, z, k);
    ScaleMono(n as real, k as real, q);
    ScaleShl(k, d, q - d);
    ScaleMono(n' as real, Shl(k, d) as real, q - d);
    if n' >= Shl(k, d) { CoarserCarries(mode, sign, z, k, d); }
  }

  // ---- which operands are tiny and yet delivered as the smallest normal ----

  /** z is below k, rounds up to it, and at half the place does not. */
  predicate InGap(mode: Mode, sign: bool, z: real, k: int) {
    if TowardZero(mode, sign) then false
    else if AwayFromZero(mode, sign) then k as real - 1.0 < z <= k as real - 0.5
    else k as real - 0.5 <= z < k as real - 0.25
  }

  /** z rounds up to k, and y falls short of j. */
  lemma ReachesOne(mode: Mode, sign: bool, z: real, k: int, y: real, j: int)
    requires z < k as real && k % 2 == 0 && y < j as real && j % 2 == 0
    ensures RoundInt(mode, sign, z) == k && RoundInt(mode, sign, y) < j <==>
            Reaches(mode, sign, z, k) && !Reaches(mode, sign, y, j)
  {
    RoundsUpTo(mode, sign, z, k);
    RoundsUpTo(mode, sign, y, j);
  }

  lemma ReachesAtHalf(mode: Mode, sign: bool, z: real, k: int, y: real, j: int)
    requires z < k as real && y == 2.0 * z && j == 2 * k
    ensures y < j as real && j % 2 == 0
    ensures Reaches(mode, sign, z, k) && !Reaches(mode, sign, y, j) <==> InGap(mode, sign, z, k)
  {
  }

  /** z, below the even k, rounds up to it. */
  predicate Reaches(mode: Mode, sign: bool, z: real, k: int) {
    if TowardZero(mode, sign) then false
    else if AwayFromZero(mode, sign) then k as real - 1.0 < z
    else k as real - 0.5 <= z
  }

  lemma RoundsUpTo(mode: Mode, sign: bool, z: real, k: int)
    requires z < k as real && k % 2 == 0
    ensures RoundInt(mode, sign, z) <= k
    ensures RoundInt(mode, sign, z) == k <==> Reaches(mode, sign, z, k)
  {
    if k as real - z <= 1.0 { assert z == k as real - 1.0 || z.Floor == k - 1; } else { assert z.Floor < k - 1; }
  }

  /** The same one place further down: x in [2^(emin-1), 2^emin) against anything smaller. */
  lemma FarBelowNormal(fmt: Format, x: real)
    requires x > 0.0 && fmt.p >= 2 && Exponent(x) < fmt.emin - 1
    ensures Scale(x, 0 - (fmt.emin - fmt.p + 1)) < Pow2(fmt.p - 2) as real
  {
    BelowNormal(Format(fmt.p - 1, fmt.emin - 1, fmt.emax), x);
  }

  lemma AtLeastNormal(fmt: Format, x: real)
    requires x > 0.0 && fmt.p > 0 && Exponent(x) >= fmt.emin
    ensures Scale(x, 0 - (fmt.emin - fmt.p + 1)) >= Pow2(fmt.p - 1) as real
  {
    var e, q := Exponent(x), fmt.emin - fmt.p + 1;
    ScaleAdd(x, -e, e - q);
    ScaleMono(Scale(x, -e), 1.0, e - q);
    ScaleExpMono(1.0, fmt.p - 1, e - q);
    ScalePow2(fmt.p - 1);
  }

  /** x's outcome is an underflow, and the value delivered is 2^emin. */
  ghost predicate TinyAtNormal(fmt: Format, mode: Mode, sign: bool, x: real)
    requires x > 0.0
  {
    var o := Round(fmt, mode, sign, x);
    o.underflow && o.mag.Finite? && Scale(o.mag.n as real, o.mag.q) == Scale(1.0, fmt.emin)
  }

  lemma TinyAtNormalIff(fmt: Format, mode: Mode, sign: bool, x: real)
    requires x > 0.0 && fmt.p >= 2 && fmt.emin <= fmt.emax
    ensures TinyAtNormal(fmt, mode, sign, x) <==>
            InGap(mode, sign, Scale(x, 0 - (fmt.emin - fmt.p + 1)), Pow2(fmt.p - 1))
  {
    RoundUnfolds(fmt, mode, sign, x);
    if Exponent(x) >= fmt.emin {
      AtLeastNormal(fmt, x);
    } else {
      SubnormalGap(fmt, mode, sign, x);
    }
  }

  lemma SubnormalGap(fmt: Format, mode: Mode, sign: bool, x: real)
    requires x > 0.0 && fmt.p >= 2 && fmt.emin <= fmt.emax && Exponent(x) < fmt.emin
    ensures TinyAtNormal(fmt, mode, sign, x) <==>
            InGap(mode, sign, Scale(x, 0 - (fmt.emin - fmt.p + 1)), Pow2(fmt.p - 1))
  {
    SubnormalOutcome(fmt, mode, sign, x);
    if Exponent(x) < fmt.emin - 1 {
      FarBelowNormal(fmt, x);
      FarFromGap(mode, sign, Scale(x, 0 - (fmt.emin - fmt.p + 1)), Pow2(fmt.p - 2));
    } else {
      NearGap(fmt, mode, sign, x);
    }
  }

  lemma FarFromGap(mode: Mode, sign: bool, z: real, h: nat)
    requires z < h as real && h > 0
    ensures RoundInt(mode, sign, z) != 2 * h && !InGap(mode, sign, z, 2 * h)
  {
    RoundIntBelow(mode, sign, z, h);
  }

  lemma NearGap(fmt: Format, mode: Mode, sign: bool, x: real)
    requires x > 0.0 && fmt.p >= 2 && Exponent(x) == fmt.emin - 1
    ensures var z := Scale(x, 0 - (fmt.emin - fmt.p + 1));
            RoundInt(mode, sign, z) == Pow2(fmt.p - 1) && Tiny(fmt, mode, sign, x) <==>
            InGap(mode, sign, z, Pow2(fmt.p - 1))
  {
    var q := fmt.emin - fmt.p + 1;
    BelowNormal(fmt, x);
    ScalePositive(x, -q);
    TinyAtHalfPlace(fmt, mode, sign, x);
    HalfPlace(mode, sign, Scale(x, -q), Pow2(fmt.p - 1), q);
  }

  lemma TinyAtHalfPlace(fmt: Format, mode: Mode, sign: bool, x: real)
    requires x > 0.0 && fmt.p >= 2 && Exponent(x) == fmt.emin - 1
    ensures var q := fmt.emin - fmt.p + 1;
            Tiny(fmt, mode, sign, x) <==>
            Scale(RoundInt(mode, sign, Scale(Scale(x, -q), 1)) as real, q - 1) < Scale(Pow2(fmt.p - 1) as real, q)
  {
    BelowNormal(fmt, x);
  }

  /** Below the normal range the delivered value is 2^emin when the significand rounds up to 2^(p-1). */
  lemma SubnormalOutcome(fmt: Format, mode: Mode, sign: bool, x: real)
    requires x > 0.0 && fmt.p >= 2 && fmt.emin <= fmt.emax && Exponent(x) < fmt.emin
    ensures TinyAtNormal(fmt, mode, sign, x) <==>
            && RoundInt(mode, sign, Scale(x, 0 - (fmt.emin - fmt.p + 1))) == Pow2(fmt.p - 1)
            && Tiny(fmt, mode, sign, x)
  {
    var q, k := fmt.emin - fmt.p + 1, Pow2(fmt.p - 1);
    BelowNormal(fmt, x);
    var n := RoundInt(mode, sign, Scale(x, -q));
    RoundIntBelow(mode, sign, Scale(x, -q), k);
    DeliveredAtNormal(x, q, k, n);
    OutcomeBelow(fmt, mode, sign, x, n, q);
  }

  /** What is delivered below 2^(emax+1) is no overflow. */
  lemma OutcomeBelow(fmt: Format, mode: Mode, sign: bool, x: real, n: int, q: int)
    requires x > 0.0 && fmt.emin <= fmt.emax && q == Quantum(fmt, x) && n == RoundAt(mode, sign, x, q)
    requires Scale(n as real, q) <= Scale(1.0, fmt.emin)
    ensures var o := Round(fmt, mode, sign, x);
            o.mag == Finite(n, q) && o.underflow == (Scale(n as real, q) != x && Tiny(fmt, mode, sign, x))
  {
    ScaleExpMono(1.0, fmt.emin, fmt.emax + 1);
    ScalePositive(1.0, fmt.emin);
  }

  /** x and the multiple of 2^q it is rounded to, against k places. */
  lemma DeliveredAtNormal(x: real, q: int, k: int, n: int)
    requires Scale(x, -q) < k as real && n <= k
    ensures x < Scale(k as real, q)
    ensures Scale(n as real, q) <= Scale(k as real, q) && (Scale(n as real, q) == Scale(k as real, q) <==> n == k)
  {
    ScaleMono(n as real, k as real, q);
    ScaleMove(Scale(x, -q), x, q);
    ScaleMono(Scale(x, -q), k as real, q);
  }

  lemma HalfPlace(mode: Mode, sign: bool, z: real, k: nat, q: int)
    requires 0.0 <= z < k as real && k % 2 == 0
    ensures var u := Scale(RoundInt(mode, sign, Scale(z, 1)) as real, q - 1);
            RoundInt(mode, sign, z) == k && u < Scale(k as real, q) <==> InGap(mode, sign, z, k)
  {
    var y := Scale(z, 1);
    ScaleSucc(z, 0);
    ReachesAtHalf(mode, sign, z, k, y, 2 * k);
    ReachesOne(mode, sign, z, k, y, 2 * k);
    ShortOfTwice(RoundInt(mode, sign, y), k, q);
  }

  lemma ShortOfTwice(n: int, k: nat, q: int)
    ensures Scale(n as real, q - 1) < Scale(k as real, q) <==> n < 2 * k
  {
    DoubleScale(k, q - 1);
    ScaleMono(n as real, (2 * k) as real, q - 1);
  }

  // ---- the flag ----

  lemma NormalPattern(l: Layout, rest: nat)
    ensures rest < Pow2(l.frac) <==> IeeeMag(l, rest) < Scale(1.0, 1 - l.bias)
    ensures rest == Pow2(l.frac) <==> IeeeMag(l, rest) == Scale(1.0, 1 - l.bias)
  {
    SmallestNormal(l);
    ShrPow2(rest, l.frac, 0);
    if rest < Pow2(l.frac) {
      AllLow(rest, l.frac, l.frac);
      ScaleMono(rest as real, Pow2(l.frac) as real, 1 - l.bias - l.frac);
    } else {
      ScaleExpMono(Pow2(l.frac) as real, 1 - l.bias - l.frac, PlaceOf(l, rest));
      ScaleMono(SignifOf(l, rest) as real, Pow2(l.frac) as real, PlaceOf(l, rest));
    }
    if IeeeMag(l, rest) == Scale(1.0, 1 - l.bias) { IeeeMagInjective(l, rest, Pow2(l.frac)); }
  }

  lemma SmallestNormal(l: Layout)
    ensures IeeeMag(l, Pow2(l.frac)) == Scale(1.0, 1 - l.bias) == Scale(Pow2(l.frac) as real, 1 - l.bias - l.frac)
  {
    ShlOne(0, l.frac);
    ShrUnique(Pow2(l.frac), l.frac, 1, 0);
    ScalePow2(l.frac);
    ScaleAdd(1.0, l.frac, 1 - l.bias - l.frac);
  }

  /** The operands whose underflow goes unreported, by their place in units of the last subnormal place. */
  ghost predicate Unreported(l: Layout, mode: Mode, sign: bool, x: real) {
    InGap(mode, sign, Scale(x, l.bias + l.frac - 1), Pow2(l.frac))
  }

  /** The flag f80_to_ieee raises is the x87's if and only if the operand does not lie in a gap just below the
      smallest normal; there the x87 reports underflow and f80_to_ieee does not. */
  lemma UnderflowJudged(l: Layout, mode: Mode, f: Float80, b: Bits, o: Outcome)
    requires Narrow(l) && Mag(f) > 0.0 && o == Round(Fmt(l), mode, f.sign, Mag(f)) && IeeeDelivers(l, b, f.sign, o.mag)
    ensures LostBelowNormal(l, b, o) == (if o.underflow then {Underflow} else {}) <==>
      !Unreported(l, mode, f.sign, Mag(f))
    ensures Unreported(l, mode, f.sign, Mag(f)) ==> o.underflow && LostBelowNormal(l, b, o) == {}
  {
    var x := Mag(f);
    RoundUnfolds(Fmt(l), mode, f.sign, x);
    DeliveredTiny(Fmt(l), mode, f.sign, x);
    NormalPattern(l, b.rest);
    TinyAtNormalIff(Fmt(l), mode, f.sign, x);
  }

  /** f80_to_ieee raises what the x87 raises, but for the underflow of an operand in the gap. */
  method ToIeeeJudged(env: Env, l: Layout, f: Float80) returns (b: Bits, ghost o: Outcome)
    requires Narrow(l) && Ordinary(f) && f.signif > 0
    modifies env
    ensures Mag(f) > 0.0 && o == Round(Fmt(l), old(env.mode), f.sign, Mag(f)) && IeeeDelivers(l, b, f.sign, o.mag)
    ensures env.Raised(o.(underflow := o.underflow && !Unreported(l, old(env.mode), f.sign, Mag(f))))
  {
    b, o := ToIeee(env, l, f);
    UnderflowJudged(l, old(env.mode), f, b, o);
  }

  /** The number one place of a full significand below the smallest normal. */
  ghost function JustBelow(l: Layout): real { Scale((Pow2(l.frac + 1) - 1) as real, 0 - l.bias - l.frac) }

  lemma JustBelowExponent(l: Layout)
    requires Narrow(l)
    ensures JustBelow(l) > 0.0 && Exponent(JustBelow(l)) == 0 - l.bias
    ensures Scale(JustBelow(l), l.bias + l.frac) == (Pow2(l.frac + 1) - 1) as real
    ensures 2.0 * Scale(JustBelow(l), l.bias + l.frac - 1) == (Pow2(l.frac + 1) - 1) as real
  {
    var m, e := (Pow2(l.frac + 1) - 1) as real, 0 - l.bias - l.frac;
    ScalePositive(m, e);
    ScaleMove(m, JustBelow(l), e);
    ScaleAdd(m, e, l.bias);
    ScaleSucc(JustBelow(l), l.bias + l.frac - 1);
    ScalePow2(l.frac);
    ScaleMove(1.0, m, l.frac); ScaleMove(2.0, m, l.frac);
    ScaleLinear(1.0, 1.0, l.frac);
    ExponentUnique(JustBelow(l), 0 - l.bias);
  }

  /** The operand that holds it: a significand of ones, one exponent below the smallest normal. */
  lemma JustBelowFloat(l: Layout, sign: bool) returns (f: Float80)
    requires Narrow(l)
    ensures Ordinary(f) && f.signif > 0 && f.sign == sign && Mag(f) == JustBelow(l)
  {
    var ones, up := Pow2(l.frac + 1) - 1, W - 1 - l.frac;
    AllOnes(l.frac + 1, up);
    Pow2Mono(up, W - 1);
    f := Float80(Shl(ones, up), BIAS80 - l.bias, sign);
    ScaleShl(ones, up, 0 - l.bias - (W - 1));
  }

  /** An operand in the gap: tiny and inexact, so the x87 reports underflow; rounded to nearest it is delivered as the
      smallest normal, and f80_to_ieee does not. */
  lemma UnderflowMissed(l: Layout, sign: bool) returns (f: Float80, b: Bits, o: Outcome)
    requires Narrow(l)
    ensures Ordinary(f) && f.signif > 0 && f.sign == sign && Mag(f) == JustBelow(l) > 0.0
    ensures o == Round(Fmt(l), Nearest, sign, Mag(f)) && IeeeDelivers(l, b, sign, o.mag)
    ensures o.underflow && LostBelowNormal(l, b, o) == {}
  {
    f := JustBelowFloat(l, sign);
    JustBelowUnreported(l, sign);
    b, o := UnreportedDelivered(l, Nearest, sign, Mag(f));
    UnderflowJudged(l, Nearest, f, b, o);
  }

  lemma JustBelowUnreported(l: Layout, sign: bool)
    requires Narrow(l)
    ensures JustBelow(l) > 0.0 && Unreported(l, Nearest, sign, JustBelow(l))
  {
    JustBelowExponent(l);
  }

  /** An operand in the gap is delivered as the smallest normal. */
  lemma UnreportedDelivered(l: Layout, mode: Mode, sign: bool, x: real) returns (b: Bits, o: Outcome)
    requires Narrow(l) && x > 0.0 && Unreported(l, mode, sign, x)
    ensures b == Bits(sign, Pow2(l.frac)) && o == Round(Fmt(l), mode, sign, x) && IeeeDelivers(l, b, sign, o.mag)
  {
    b, o := Bits(sign, Pow2(l.frac)), Round(Fmt(l), mode, sign, x);
    TinyAtNormalIff(Fmt(l), mode, sign, x);
    NormalPattern(l, Pow2(l.frac));
    ShlOne(0, l.frac); ShrUnique(Pow2(l.frac), l.frac, 1, 0);
  }
}
