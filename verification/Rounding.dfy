/** Rounding a real number into a binary format: the reference every operation is held to. */
module Rounding {
  import opened Powers

  datatype Mode = Nearest | Down | Up | Chop

  predicate AwayFromZero(mode: Mode, sign: bool) {
    (mode.Up? && !sign) || (mode.Down? && sign)
  }

  /** The integer a magnitude y rounds to, in a mode, for a number of the given sign. */
  ghost function RoundInt(mode: Mode, sign: bool, y: real): (n: int)
    ensures y >= 0.0 ==> n >= 0
  {
    var n := y.Floor;
    var rest := y - n as real;
    if rest == 0.0 then n
    else if AwayFromZero(mode, sign) then n + 1
    else if mode.Nearest? && (rest > 0.5 || (rest == 0.5 && n % 2 == 1)) then n + 1
    else n
  }

  // ---- formats ----

  /** p significand bits, and exponents of the leading bit from emin to emax. */
  datatype Format = Format(p: nat, emin: int, emax: int)

  /** The exponent of x's leading bit: 2^e <= x < 2^(e + 1). */
  ghost function Exponent(x: real): (e: int)
    requires x > 0.0
    ensures 1.0 <= Scale(x, -e) < 2.0
    decreases x < 1.0, if x < 1.0 then (1.0 / x).Floor else x.Floor
  {
    if x >= 2.0 then
      var e := Exponent(x / 2.0);
      ScaleLinear(x / 2.0, x / 2.0, -e);
      ScaleSucc(x, -e - 1);
      e + 1
    else if x < 1.0 then
      InverseHalves(x);
      var e := Exponent(2.0 * x);
      ScaleLinear(x, x, -e);
      ScaleSucc(x, -e);
      e - 1
    else 0
  }

  lemma InverseHalves(x: real)
    requires 0.0 < x < 1.0
    ensures 0 <= (1.0 / (2.0 * x)).Floor < (1.0 / x).Floor
  {
    var y := 1.0 / x;
    assert y * x == 1.0;
    assert y > 1.0;
    assert 1.0 / (2.0 * x) == y / 2.0;
  }

  lemma ExponentUnique(x: real, e: int)
    requires x > 0.0 && 1.0 <= Scale(x, -e) < 2.0
    ensures Exponent(x) == e
  {
    var e' := Exponent(x);
    if e < e' { ScaleExpMono(x, -e', -e); }
    if e' < e { ScaleExpMono(x, -e, -e'); }
  }

  function Max(a: int, b: int): int { if a < b then b else a }

  /** The place of the last bit kept of x: p bits, but none below the smallest subnormal. */
  ghost function Quantum(fmt: Format, x: real): int
    requires x > 0.0
  {
    Max(Exponent(x), fmt.emin) - fmt.p + 1
  }

  /** Infinity, or n * 2^q. */
  datatype Magnitude = Infinite | Finite(n: nat, q: int)

  /** A rounded magnitude and what rounding to it raises. */
  datatype Outcome = Outcome(mag: Magnitude, inexact: bool, up: bool, overflow: bool, underflow: bool)

  /** x to a multiple of 2^q. */
  ghost function RoundAt(mode: Mode, sign: bool, x: real, q: int): nat
    requires x >= 0.0
  {
    ScalePositive(x, -q);
    RoundInt(mode, sign, Scale(x, -q))
  }

  /** x, rounded as if exponents had no lower bound, is below the smallest normal. */
  ghost predicate Tiny(fmt: Format, mode: Mode, sign: bool, x: real)
    requires x > 0.0
  {
    var q := Exponent(x) - fmt.p + 1;
    Scale(RoundAt(mode, sign, x, q) as real, q) < Scale(1.0, fmt.emin)
  }

  predicate TowardZero(mode: Mode, sign: bool) {
    mode.Chop? || (mode.Up? && sign) || (mode.Down? && !sign)
  }

  /** What comes of a number too large: the largest finite one or infinity, by the direction of rounding. */
  function Overflowed(fmt: Format, mode: Mode, sign: bool): Outcome {
    if TowardZero(mode, sign)
    then Outcome(Finite(Pow2(fmt.p) - 1, fmt.emax - fmt.p + 1), true, false, true, false)
    else Outcome(Infinite, true, true, true, false)
  }

  /** x rounded into fmt: the value delivered, and whether it is inexact, larger than x, an overflow, an underflow. */
  ghost function Round(fmt: Format, mode: Mode, sign: bool, x: real): Outcome
    requires x > 0.0
  {
    var q := Quantum(fmt, x);
    var n := RoundAt(mode, sign, x, q);
    var r := Scale(n as real, q);
    if r >= Scale(1.0, fmt.emax + 1) then Overflowed(fmt, mode, sign)
    else Outcome(Finite(n, q), r != x, r > x, false, r != x && Tiny(fmt, mode, sign, x))
  }

  // ---- what Round means ----

  ghost function Abs(x: real): real { if x < 0.0 then -x else x }

  /** RoundInt gives the best integer there is, in each direction. */
  lemma RoundIntOptimal(mode: Mode, sign: bool, z: real, m: int)
    ensures var n := RoundInt(mode, sign, z);
            && (TowardZero(mode, sign) ==> n as real <= z && (m as real <= z ==> m <= n))
            && (AwayFromZero(mode, sign) ==> z <= n as real && (z <= m as real ==> n <= m))
            && (mode.Nearest? ==> Abs(z - n as real) <= Abs(z - m as real))
            && (mode.Nearest? && Abs(z - n as real) == Abs(z - m as real) && m != n ==> n % 2 == 0)
            && Abs(z - n as real) < 1.0
  {
  }

  /** A positive fraction below one half rounds to 0, or to 1 away from zero. */
  lemma BelowHalf(mode: Mode, sign: bool, z: real)
    requires 0.0 < z < 0.5
    ensures RoundInt(mode, sign, z) == if AwayFromZero(mode, sign) then 1 else 0
  {
    assert z.Floor == 0;
  }

  /** The number of magnitude y and the given sign. */
  ghost function WithSign(sign: bool, y: real): real { if sign then -y else y }

  /** The directions, on the number line: rounding up never goes down, and so on. */
  lemma RoundIntDirected(mode: Mode, sign: bool, y: real)
    requires y >= 0.0
    ensures var v, r := WithSign(sign, y), WithSign(sign, RoundInt(mode, sign, y) as real);
            && (mode.Up? ==> v <= r < v + 1.0)
            && (mode.Down? ==> v - 1.0 < r <= v)
            && (mode.Chop? ==> Abs(v) - 1.0 < Abs(r) <= Abs(v))
            && (mode.Nearest? ==> Abs(v - r) <= 0.5)
  {
  }

  /** What Round delivers lies on the side of x its mode names, and its flags say how it compares with x. */
  lemma RoundDirected(fmt: Format, mode: Mode, sign: bool, x: real)
    requires x > 0.0 && fmt.p > 0 && fmt.emin <= fmt.emax
    ensures var o, v := Round(fmt, mode, sign, x), WithSign(sign, x);
            match o.mag
            case Finite(n, q) =>
              var m := Scale(n as real, q);
              && (mode.Up? ==> v <= WithSign(sign, m)) && (mode.Down? ==> WithSign(sign, m) <= v)
              && (mode.Chop? ==> m <= x)
              && o.inexact == (m != x) && o.up == (m > x)
            case Infinite =>
              && (mode.Up? ==> !sign) && (mode.Down? ==> sign) && !mode.Chop?
              && o.inexact && o.up && o.overflow
  {
    RoundOptimal(fmt, mode, sign, x, 0, fmt.emin - fmt.p + 1);
    LargestNumber(fmt, 0, fmt.emin - fmt.p + 1);
    RoundAtOptimal(fmt, mode, sign, x, 0, fmt.emin - fmt.p + 1);
  }

  /** Every number of the format is a multiple of x's last place, or lies well below x. */
  lemma GridPoint(fmt: Format, x: real, m: nat, j: int)
    requires x > 0.0 && fmt.p > 0 && m < Pow2(fmt.p) && j >= fmt.emin - fmt.p + 1
    ensures var q := Quantum(fmt, x);
            var g := Scale(Scale(m as real, j), -q);
            if j >= q then g == Shl(m, j - q) as real else g < Pow2(fmt.p - 1) as real <= Scale(x, -q)
  {
    var q := Quantum(fmt, x);
    ScaleAdd(m as real, j, -q);
    if j >= q {
      ScaleNat(m, j - q);
    } else {
      var e := Exponent(x);
      ScaleAdd(x, -e, e - q);
      ScaleMono(Scale(x, -e), 1.0, e - q);
      ScalePow2(fmt.p - 1);
      ScalePow2(fmt.p);
      if m > 0 {
        ScaleExpMono(m as real, j - q, -1);
      } else { ScaleZero(j - q); }
    }
  }

  /** No number with the format's bits does better than rounding at the last place, exponents unbounded above. */
  lemma RoundAtOptimal(fmt: Format, mode: Mode, sign: bool, x: real, m: nat, j: int)
    requires x > 0.0 && fmt.p > 0 && m < Pow2(fmt.p) && j >= fmt.emin - fmt.p + 1
    ensures var q := Quantum(fmt, x);
            var n := RoundAt(mode, sign, x, q);
            var r, g := Scale(n as real, q), Scale(m as real, j);
            && (TowardZero(mode, sign) ==> r <= x && (g <= x ==> g <= r))
            && (AwayFromZero(mode, sign) ==> x <= r && (x <= g ==> r <= g))
            && (mode.Nearest? ==> Abs(x - r) <= Abs(x - g))
            && (mode.Nearest? && Abs(x - r) == Abs(x - g) && g != r ==> n % 2 == 0)
  {
    var q := Quantum(fmt, x);
    var z := Scale(x, -q);
    var n := RoundAt(mode, sign, x, q);
    var r, g := Scale(n as real, q), Scale(m as real, j);
    var g' := Scale(g, -q);
    GridPoint(fmt, x, m, j);
    RoundIntOptimal(mode, sign, z, if j >= q then Shl(m, j - q) else Pow2(fmt.p - 1));
    ScaleMove(z, x, q); ScaleMove(n as real, r, q); ScaleMove(g', g, q);
    ScaleMono(z, n as real, q); ScaleMono(z, g', q); ScaleMono(n as real, g', q);
    ScaleLinear(z, n as real, q); ScaleLinear(z, g', q);
    DistanceScaled(z, n as real, g', q);
  }

  /** m * 2^j is a number of the format. */
  predicate InFormat(fmt: Format, m: nat, j: int) {
    m < Pow2(fmt.p) && fmt.emin - fmt.p + 1 <= j <= fmt.emax - fmt.p + 1
  }

  lemma LargestNumber(fmt: Format, m: nat, j: int)
    requires fmt.p > 0 && InFormat(fmt, m, j)
    ensures Scale(m as real, j) <= Scale((Pow2(fmt.p) - 1) as real, fmt.emax - fmt.p + 1) < Scale(1.0, fmt.emax + 1)
  {
    var last, q := Pow2(fmt.p) - 1, fmt.emax - fmt.p + 1;
    ScaleMono(m as real, last as real, j);
    if j < q { ScaleExpMono(last as real, j, q); }
    ScaleMono(last as real, Pow2(fmt.p) as real, q);
    ScalePow2(fmt.p);
    ScaleAdd(1.0, fmt.p, q);
  }

  /** No number of the format does better than what Round delivers. A finite result is the closest on its side in a
      directed mode and the closest of all to nearest, an even one on a tie; infinity is delivered only away from
      zero past every number of the format, or to nearest past halfway to the first power of two beyond it. */
  lemma RoundOptimal(fmt: Format, mode: Mode, sign: bool, x: real, m: nat, j: int)
    requires x > 0.0 && fmt.p > 0 && InFormat(fmt, m, j)
    ensures var g := Scale(m as real, j);
            match Round(fmt, mode, sign, x).mag
            case Finite(n, q) =>
              var r := Scale(n as real, q);
              && r < Scale(1.0, fmt.emax + 1)
              && (TowardZero(mode, sign) ==> r <= x && (g <= x ==> g <= r))
              && (AwayFromZero(mode, sign) ==> x <= r && (x <= g ==> r <= g))
              && (mode.Nearest? ==> Abs(x - r) <= Abs(x - g))
              && (mode.Nearest? && Abs(x - r) == Abs(x - g) && g != r ==> n % 2 == 0)
            case Infinite =>
              && !TowardZero(mode, sign)
              && (AwayFromZero(mode, sign) ==> g < x)
              && (mode.Nearest? ==> Abs(x - Scale(1.0, fmt.emax + 1)) <= Abs(x - g))
  {
    RoundAtOptimal(fmt, mode, sign, x, m, j);
    LargestNumber(fmt, m, j);
  }

  lemma DistanceScaled(z: real, a: real, b: real, e: int)
    ensures Abs(z - a) < Abs(z - b) <==> Abs(Scale(z, e) - Scale(a, e)) < Abs(Scale(z, e) - Scale(b, e))
    ensures Abs(z - a) == Abs(z - b) <==> Abs(Scale(z, e) - Scale(a, e)) == Abs(Scale(z, e) - Scale(b, e))
  {
    AbsScaled(z, a, e);
    AbsScaled(z, b, e);
    ScaleMono(Abs(z - a), Abs(z - b), e);
  }

  lemma AbsScaled(z: real, a: real, e: int)
    ensures Abs(Scale(z, e) - Scale(a, e)) == Scale(Abs(z - a), e)
  {
    ScaleLinear(z, a, e);
    ScaleLinear(a, z, e);
    ScaleMono(z, a, e);
  }
}
