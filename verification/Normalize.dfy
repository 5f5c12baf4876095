/** The thread's rounding state and the one place every result is rounded. */
module Normalize {
  import opened Powers
  import opened Rounding
  import opened StickyBits
  import opened Float80s

  datatype Exception = Invalid | Denormal | DivZero | Overflow | Underflow

  /** f80_rounding_mode, f80_precision, f80_inexact, f80_rounded_up, f80_exceptions. */
  class Env {
    var mode: Mode
    var precision: int
    var inexact: bool
    var roundedUp: bool
    var exceptions: set<Exception>

    constructor ()
      ensures mode == Nearest && precision == W && !inexact && !roundedUp && exceptions == {}
    {
      mode, precision, inexact, roundedUp, exceptions := Nearest, W, false, false, {};
    }

    /** The precision arithmetic rounds to. */
    function P(): nat
      reads this
    {
      W - PrecisionExtra(precision)
    }

    /** Nothing has changed but the exceptions ex, raised. */
    twostate predicate Only(ex: set<Exception>)
      reads this
    {
      && mode == old(mode) && precision == old(precision)
      && inexact == old(inexact) && roundedUp == old(roundedUp)
      && exceptions == old(exceptions) + ex
    }

    /** The flags are the old ones and what rounding to o raises. */
    twostate predicate Raised(o: Outcome)
      reads this
    {
      RaisedWith(o, {})
    }

    /** The same, beside the exceptions ex. */
    twostate predicate RaisedWith(o: Outcome, ex: set<Exception>)
      reads this
    {
      && mode == old(mode) && precision == old(precision)
      && inexact == (old(inexact) || o.inexact)
      && roundedUp == (if o.overflow then o.up else old(roundedUp) || o.up)
      && exceptions == old(exceptions) + ex + OutcomeExceptions(o)
    }
  }

  function OutcomeExceptions(o: Outcome): (e: set<Exception>)
    ensures e <= {Overflow, Underflow} && (Overflow in e <==> o.overflow) && (Underflow in e <==> o.underflow)
  {
    (if o.overflow then {Overflow} else {}) + (if o.underflow then {Underflow} else {})
  }

  function PrecisionExtra(precision: int): nat {
    var extra := W - precision;
    if extra < 0 || extra > 40 then 0 else extra
  }

  /** Precision control: 24 to 64 bits are used as they are, anything else counts as 64. */
  lemma PrecisionInNumbers(env: Env)
    ensures env.P() == if 24 <= env.precision <= 64 then env.precision else 64
  {
  }

  // ---- leading zeros ----

  function BitLength(x: nat): nat { if x == 0 then 0 else 1 + BitLength(x / 2) }

  lemma {:induction false} BitLengthBounds(x: nat)
    requires x > 0
    ensures BitLength(x) > 0 && Pow2(BitLength(x) - 1) <= x < Pow2(BitLength(x))
  {
    if x > 1 { BitLengthBounds(x / 2); }
  }

  lemma {:induction false} BitLengthAtMost(x: nat, n: nat)
    requires x < Pow2(n)
    ensures BitLength(x) <= n
  {
    if x > 0 { BitLengthAtMost(x / 2, n - 1); }
  }

  /** __builtin_clzl, on a nonzero argument. */
  function Clz64(x: U64): (z: nat)
    requires x > 0
    ensures z < W && Pow2(W - 1 - z) <= x < Pow2(W - z)
  {
    BitLengthBounds(x); BitLengthAtMost(x, W);
    W - BitLength(x)
  }

  /** Operands with their integer bit set need no normalizing. */
  lemma ClzOfNormal(f: Float80)
    requires f.signif >= Pow2(W - 1)
    ensures Clz64(f.signif) == 0
  {
    var z := Clz64(f.signif);
    if z > 0 { Pow2Mono(W - z, W - 1); }
  }

  function HighHalf(x: U128): (h: U64)
    ensures h == Shr(x, W)
  {
    ShrPow2(x, W, W);
    Shr(x, W)
  }

  function Clz128(x: U128): nat {
    if HighHalf(x) != 0 then Clz64(HighHalf(x))
    else if x != 0 then SmallIfHighZero(x); W + Clz64(x)
    else 2 * W
  }

  lemma SmallIfHighZero(x: nat)
    ensures Shr(x, W) == 0 <==> x < Pow2(W)
  {
    ShrPow2(x, W, 0);
  }

  lemma Clz128Bounds(x: U128)
    requires x > 0
    ensures Clz128(x) < 2 * W && Pow2(TOP - Clz128(x)) <= x < Pow2(2 * W - Clz128(x))
  {
    if HighHalf(x) != 0 { ClzOfHigh(x, W, Clz64(HighHalf(x))); } else { SmallIfHighZero(x); }
  }

  lemma ClzOfHigh(x: nat, n: nat, z: nat)
    requires z < n && Pow2(n - 1 - z) <= Shr(x, n) < Pow2(n - z)
    ensures Pow2(2 * n - 1 - z) <= x < Pow2(2 * n - z)
  {
    ShrPow2(x, n, n - 1 - z);
    ShrPow2(x, n, n - z);
  }

  lemma ClzAtMost(s: U128, k: nat)
    requires k <= TOP && s >= Pow2(TOP - k)
    ensures Clz128(s) <= k
  {
    Clz128Bounds(s);
    if Clz128(s) > k { Pow2Mono(2 * W - Clz128(s), TOP - k); }
  }

  // ---- the rounding shift ----

  function ShiftRound(mode: Mode, sign: bool, i: nat, shift: nat): nat {
    if shift == 0 then i
    else if shift > TOP then (if i != 0 && AwayFromZero(mode, sign) then 1 else 0)
    else RoundShift(mode, sign, i, shift)
  }

  /** u128_shift_right_round, and what it adds to the flags. */
  method ShiftRightRound(env: Env, i: U128, shift: nat, sign: bool) returns (r: U128)
    modifies env`inexact, env`roundedUp
    ensures r == ShiftRound(env.mode, sign, i, shift)
    ensures env.inexact == (old(env.inexact) || Low(i, shift) != 0)
    ensures env.roundedUp == (old(env.roundedUp) || r > Shr(i, shift))
  {
    if shift == 0 {
      return i;
    }
    if shift > TOP {
      AllLow(i, 2 * W, shift);
      if i != 0 {
        env.inexact := true;
      }
      if AwayFromZero(env.mode, sign) && i != 0 {
        env.roundedUp := true;
        return 1;
      }
      return 0;
    }
    var guard := Shr(i, shift - 1) % 2;
    var rest := Low(i, shift - 1);
    var n := Shr(i, shift);
    GuardAndRest(i, shift);
    ShrBound(i, shift, 2 * W);
    if guard == 0 && rest == 0 {
      return n;
    }
    env.inexact := true;
    if AwayFromZero(env.mode, sign) {
      n := n + 1;
      env.roundedUp := true;
    } else if env.mode.Nearest? && guard == 1 {
      if rest != 0 {
        n := n + 1;
        env.roundedUp := true;
      } else if n % 2 == 1 {
        n := n + 1;
        env.roundedUp := true;
      }
    }
    return n;
  }

  lemma {:induction false} AllLow(i: nat, n: nat, shift: nat)
    requires i < Pow2(n) && n <= shift
    ensures Low(i, shift) == i && Shr(i, shift) == 0
    decreases shift
  {
    if shift > 0 {
      if n == 0 { AllLow(i / 2, 0, shift - 1); } else { AllLow(i / 2, n - 1, shift - 1); }
    }
  }

  lemma ShrBound(i: nat, shift: nat, n: nat)
    requires i < Pow2(n) && shift <= n
    ensures Shr(i, shift) < Pow2(n - shift)
    ensures shift > 0 ==> Shr(i, shift) + 1 < Pow2(n)
  {
    ShrPow2(i, shift, n - shift);
    if shift > 0 {
      Pow2Mono(n - shift, n);
    }
  }

  // ---- lining a significand up for its one rounding ----

  /** The leading bit of s gives x's exponent. */
  lemma ExponentOfBits(s: nat, g: nat, exp: int, z: nat, x: real)
    requires x > 0.0 && Stands(s, g, Scale(x, TOP - exp)) && z + g <= TOP
    requires Pow2(TOP - z) <= s < Pow2(2 * W - z)
    ensures Exponent(x) == exp - z
  {
    var y := Scale(x, TOP - exp);
    LowPow2(TOP - z, g);
    LowPow2(2 * W - z, g);
    StandsCompare(s, g, y, Pow2(TOP - z));
    StandsCompare(s, g, y, Pow2(2 * W - z));
    ScaleAdd(x, TOP - exp, z - TOP);
    ScalePow2(TOP - z);
    ScaleMove(1.0, y, TOP - z);
    ScaleMove(2.0, y, TOP - z);
    ScaleLinear(1.0, 1.0, TOP - z);
    ExponentUnique(x, exp - z);
  }

  /** Left shift by j: exact, or with room left below the rounding point. */
  lemma AlignLeft(s: nat, g: nat, exp: int, j: nat, r: nat, x: real)
    requires Stands(s, g, Scale(x, TOP - exp)) && (g == 0 || g + j <= r)
    ensures Stands(Shl(s, j), r, Scale(x, TOP - (exp - j)))
  {
    ScaleAdd(x, TOP - exp, j);
    if g == 0 {
      ScaleNat(s, j);
      StandsCoarser(Shl(s, j), 0, r, Scale(x, TOP - (exp - j)));
    } else {
      StandsShl(s, g, j, Scale(x, TOP - exp));
      StandsCoarser(Shl(s, j), g + j, r, Scale(x, TOP - (exp - j)));
    }
  }

  /** Sticky right shift by j. */
  lemma AlignRight(s: nat, g: nat, exp: int, j: int, r: nat, x: real)
    requires Stands(s, g, Scale(x, TOP - exp)) && j >= 0 && r > 0 && g <= j + r
    ensures Stands(Sticky(s, j), r, Scale(x, TOP - (exp + j)))
  {
    StandsCoarser(s, g, j + r, Scale(x, TOP - exp));
    StandsSticky(s, j, r, Scale(x, TOP - exp));
    ScaleAdd(x, TOP - exp, -j);
  }

  /** Rounding an aligned significand is rounding x at the place of its last kept bit. */
  lemma RoundAligned(mode: Mode, sign: bool, s: nat, k: nat, e: int, x: real)
    requires x > 0.0 && k > 0 && Stands(s, k - 1, Scale(x, TOP - e))
    ensures var n, q := RoundShift(mode, sign, s, k), e - TOP + k;
            && n == RoundAt(mode, sign, x, q)
            && (Low(s, k) == 0 <==> Scale(n as real, q) == x)
            && (n > Shr(s, k) <==> Scale(n as real, q) > x)
  {
    var q := e - TOP + k;
    var z := Scale(x, -q);
    ScaleAdd(x, -q, k);
    RoundShiftCorrect(mode, sign, s, k, Scale(x, TOP - e), z);
    var n := RoundShift(mode, sign, s, k);
    ScaleMove(n as real, x, q);
    ScaleMove(z, x, q);
    ScaleMono(z, n as real, q);
  }

  lemma RoundShiftBounds(mode: Mode, sign: bool, s: nat, k: nat, m: nat)
    requires k > 0 && s < Pow2(m + k)
    ensures RoundShift(mode, sign, s, k) <= Pow2(m)
    ensures m > 0 && s >= Pow2(m + k - 1) ==> RoundShift(mode, sign, s, k) >= Pow2(m - 1)
  {
    ShrPow2(s, k, m);
    if m > 0 { ShrPow2(s, k, m - 1); }
  }

  // ---- the result ----

  /** f80_overflow: infinity, or the largest number of the precision in use. */
  method OverflowResult(env: Env, sign: bool) returns (f: Float80)
    modifies env
    ensures Delivers(f, sign, Overflowed(X87(env.P()), env.mode, sign).mag)
    ensures env.Raised(Overflowed(X87(env.P()), env.mode, sign))
  {
    if (env.mode.Up? && sign) || (env.mode.Down? && !sign) || env.mode.Chop? {
      var extra := PrecisionExtra(env.precision);
      LargestFinite(extra);
      f := Float80(Pow2(W) - Pow2(extra), EXP_MAX, sign);
      env.roundedUp := false;
    } else {
      f := Inf(sign);
      env.roundedUp := true;
    }
    env.exceptions := env.exceptions + {Overflow};
    env.inexact := true;
  }

  lemma LargestFinite(extra: nat)
    requires extra <= 40
    ensures Pow2(W - 1) <= Pow2(W) - Pow2(extra) < Pow2(W)
    ensures Scale((Pow2(W) - Pow2(extra)) as real, EMAX - (W - 1)) ==
      Scale((Pow2(W - extra) - 1) as real, EMAX - W + 1 + extra)
  {
    Pow2Mono(extra, W - 1);
    AllOnes(W - extra, extra);
    var m := Pow2(W - extra) - 1;
    ScaleNat(m, extra);
    ScaleAdd(m as real, extra, EMAX - (W - 1));
  }

  lemma AllOnes(a: nat, b: nat)
    ensures Shl(Pow2(a) - 1, b) == Pow2(a + b) - Pow2(b)
  {
    ShlSum(Pow2(a) - 1, 1, b);
    ShlOne(a, b);
    ShlOne(0, b);
  }

  // ---- the encodings built from a rounded significand n at the exponent e ----

  lemma EncodedNormal(n: nat, extra: nat, e: int, sign: bool)
    requires extra <= 40 && EMIN <= e <= EMAX && Pow2(W - 1 - extra) <= n < Pow2(W - extra)
    ensures Pow2(W - 1) <= Shl(n, extra) < Pow2(W)
    ensures Delivers(Float80(Shl(n, extra), e + BIAS80, sign), sign, Finite(n, e - W + 1 + extra))
  {
    ShlBelow(n, W - extra, extra);
    ShlBelow(n, W - 1 - extra, extra);
    ScaleShl(n, extra, e - W + 1);
  }

  lemma EncodedSubnormal(n: nat, extra: nat, sign: bool)
    requires extra <= 40 && n < Pow2(W - 1 - extra)
    ensures Shl(n, extra) < Pow2(W - 1)
    ensures Delivers(Float80(Shl(n, extra), 0, sign), sign, Finite(n, EMIN - W + 1 + extra))
  {
    ShlBelow(n, W - 1 - extra, extra);
    ScaleShl(n, extra, EMIN - W + 1);
  }

  lemma EncodedCarry(n: nat, extra: nat, e: int, sign: bool)
    requires extra <= 40 && EMIN <= e < EMAX && n == Pow2(W - extra)
    ensures Shl(n / 2, extra) == Pow2(W - 1)
    ensures Delivers(Float80(Pow2(W - 1), e + 1 + BIAS80, sign), sign, Finite(n, e - W + 1 + extra))
  {
    ShlOne(W - 1 - extra, extra);
    ScaleShl(n / 2, extra, e - W + 2);
    DoubleScale(n / 2, e - W + 1 + extra);
  }

  lemma DoubleScale(n: nat, e: int)
    ensures Scale((2 * n) as real, e) == Scale(n as real, e + 1)
  {
    ScaleSucc(n as real, e);
    ScaleLinear(n as real, n as real, e);
  }

  /** Past the largest exponent only by a carry out of the top one. */
  lemma OverflowIff(n: nat, p: nat, e: int, emax: int)
    requires p > 0 && n <= Pow2(p) && e <= emax
    ensures Scale(n as real, e - p + 1) >= Scale(1.0, emax + 1) <==> e == emax && n == Pow2(p)
  {
    ScalePow2(p);
    ScaleAdd(1.0, p, e - p + 1);
    ScaleMono(n as real, Pow2(p) as real, e - p + 1);
    ScaleExpMono(1.0, e + 1, emax + 1);
    ScalePositive(1.0, e + 1);
  }

  /** How large the rounded significand can be. */
  lemma RoundedSize(mode: Mode, sign: bool, s: U128, extra: nat)
    requires extra <= 40
    ensures var n := RoundShift(mode, sign, s, W + extra);
            if s >= Pow2(TOP) then Pow2(W - 1 - extra) <= n <= Pow2(W - extra) else n <= Pow2(W - 1 - extra)
  {
    RoundShiftBounds(mode, sign, s, W + extra, W - extra);
    if s < Pow2(TOP) { RoundShiftBounds(mode, sign, s, W + extra, (W - 1) - extra); }
  }

  /** o is what rounding the aligned significand s to W - extra bits gives, tininess apart. */
  ghost predicate BitsGive(o: Outcome, mode: Mode, sign: bool, s: U128, extra: nat, e: int)
    requires extra <= 40
  {
    var n := RoundShift(mode, sign, s, W + extra);
    if e == EMAX && n == Pow2(W - extra)
    then o == Overflowed(X87(W - extra), mode, sign)
    else && !o.overflow && o.mag == Finite(n, e - W + 1 + extra)
         && o.inexact == (Low(s, W + extra) != 0) && o.up == (n > Shr(s, W + extra))
  }

  lemma RoundUnfolds(fmt: Format, mode: Mode, sign: bool, x: real)
    requires x > 0.0
    ensures var q := Quantum(fmt, x);
            var n := RoundAt(mode, sign, x, q);
            var o := Round(fmt, mode, sign, x);
            if Scale(n as real, q) >= Scale(1.0, fmt.emax + 1) then o == Overflowed(fmt, mode, sign)
            else
              && !o.overflow && o.mag == Finite(n, q)
              && o.inexact == (Scale(n as real, q) != x) && o.up == (Scale(n as real, q) > x)
  {
  }

  lemma OutcomeOfBits(mode: Mode, sign: bool, s: U128, extra: nat, e: int, x: real)
    requires x > 0.0 && extra <= 40 && e <= EMAX && e == Max(Exponent(x), EMIN)
    requires Stands(s, W - 1 + extra, Scale(x, TOP - e))
    ensures BitsGive(Round(X87(W - extra), mode, sign, x), mode, sign, s, extra, e)
  {
    var fmt, n, q := X87(W - extra), RoundShift(mode, sign, s, W + extra), e - W + 1 + extra;
    RoundedBits(mode, sign, s, extra, e, x);
    assert Quantum(fmt, x) == q;
    RoundUnfolds(fmt, mode, sign, x);
    BitsGiveFrom(Round(fmt, mode, sign, x), mode, sign, s, extra, e, x, n, Scale(n as real, q));
  }

  /** The rounded bits, and how the number they make compares with x and with the first power of two too large. */
  lemma RoundedBits(mode: Mode, sign: bool, s: U128, extra: nat, e: int, x: real)
    requires x > 0.0 && extra <= 40 && e <= EMAX
    requires Stands(s, W - 1 + extra, Scale(x, TOP - e))
    ensures var n, q := RoundShift(mode, sign, s, W + extra), e - W + 1 + extra;
            var r := Scale(n as real, q);
            && n == RoundAt(mode, sign, x, q)
            && (r >= Scale(1.0, EMAX + 1) <==> e == EMAX && n == Pow2(W - extra))
            && (Low(s, W + extra) == 0 <==> r == x) && (n > Shr(s, W + extra) <==> r > x)
  {
    var n := RoundShift(mode, sign, s, W + extra);
    RoundedSize(mode, sign, s, extra);
    Pow2Mono(W - 1 - extra, W - extra);
    RoundAligned(mode, sign, s, W + extra, e, x);
    OverflowIff(n, W - extra, e, EMAX);
  }

  /** The outcome of rounding to n * 2^(e - W + 1 + extra) == r, read off the bits. */
  lemma BitsGiveFrom(o: Outcome, mode: Mode, sign: bool, s: U128, extra: nat, e: int, x: real, n: nat, r: real)
    requires extra <= 40 && n == RoundShift(mode, sign, s, W + extra)
    requires r >= Scale(1.0, EMAX + 1) <==> e == EMAX && n == Pow2(W - extra)
    requires Low(s, W + extra) == 0 <==> r == x
    requires n > Shr(s, W + extra) <==> r > x
    requires if r >= Scale(1.0, EMAX + 1) then o == Overflowed(X87(W - extra), mode, sign)
             else !o.overflow && o.mag == Finite(n, e - W + 1 + extra) && o.inexact == (r != x) && o.up == (r > x)
    ensures BitsGive(o, mode, sign, s, extra, e)
  {
  }

  datatype Packed = CarriedPastTop | Packed(value: Float80)

  /** The encoding of a significand just rounded to W - extra bits, its exponent field being exp
      (0 for a denormal), or the news that a carry took the largest exponent past the top. */
  function Pack(n: nat, exp: nat, extra: nat, sign: bool): Packed
    requires extra <= 40 && exp <= EXP_MAX && n <= Pow2(W - extra)
    requires exp == 0 ==> n <= Pow2(W - 1 - extra)
  {
    PackFits(n, extra);
    if n >= Pow2(W - extra) then
      if exp + 1 > EXP_MAX then CarriedPastTop else Packed(Float80(Shl(n / 2, extra), exp + 1, sign))
    else if exp == 0 && Shl(n, extra) >= Pow2(W - 1) then Packed(Float80(Shl(n, extra), EXP_MIN, sign))
    else Packed(Float80(Shl(n, extra), exp, sign))
  }

  lemma PackFits(n: nat, extra: nat)
    requires extra <= 40 && n <= Pow2(W - extra)
    ensures n < Pow2(W - extra) ==> Shl(n, extra) < Pow2(W)
    ensures n == Pow2(W - extra) ==> Shl(n / 2, extra) < Pow2(W)
  {
    if n < Pow2(W - extra) { ShlBelow(n, W - extra, extra); } else { ShlOne(W - 1 - extra, extra); }
  }

  lemma PackDelivers(n: nat, exp: nat, extra: nat, sign: bool, e: int)
    requires extra <= 40 && exp <= EXP_MAX && EMIN <= e <= EMAX && n <= Pow2(W - extra)
    requires if exp == 0 then e == EMIN && n <= Pow2(W - 1 - extra) else e == exp - BIAS80 && n >= Pow2(W - 1 - extra)
    ensures var v := Pack(n, exp, extra, sign);
            if e == EMAX && n == Pow2(W - extra) then v == CarriedPastTop
            else v.Packed? && Delivers(v.value, sign, Finite(n, e - W + 1 + extra))
  {
    if n == Pow2(W - extra) {
      if e < EMAX { EncodedCarry(n, extra, e, sign); }
    } else if n >= Pow2(W - 1 - extra) {
      EncodedNormal(n, extra, e, sign);
    } else {
      EncodedSubnormal(n, extra, sign);
    }
  }

  /** The rounding proper: s is aligned for the exponent e, or for EMIN when it has no bit TOP. */
  method RoundToPrecision(env: Env, s: U128, exp: nat, sign: bool, ghost e: int, ghost o: Outcome) returns (f: Float80)
    requires EMIN <= e <= EMAX
    requires if s >= Pow2(TOP) then exp == e + BIAS80 else exp == 0 && e == EMIN
    requires BitsGive(o, env.mode, sign, s, PrecisionExtra(env.precision), e)
    modifies env
    ensures Delivers(f, sign, o.mag)
    ensures env.Raised(o.(underflow := false))
  {
    var extra := PrecisionExtra(env.precision);
    RoundedSize(env.mode, sign, s, extra);
    var n := ShiftRightRound(env, s, W + extra, sign);
    PackDelivers(n, exp, extra, sign, e);
    match Pack(n, exp, extra, sign) {
      case CarriedPastTop =>
        f := OverflowResult(env, sign);
      case Packed(value) =>
        f := value;
    }
  }

  // ---- alignment ----

  /** signif shifted so that bit TOP has the weight of the result's exponent, or of EMIN if that is larger. */
  function AlignedBits(signif: nat, exp: int, shift: nat): nat {
    if exp - shift >= EMIN then Shl(signif, shift)
    else if exp > EMIN then Shl(signif, exp - EMIN)
    else Sticky(signif, EMIN - exp)
  }

  lemma ShlFits(s: nat, w: nat, z: nat, j: nat)
    requires z <= w && j <= z && s < Pow2(w - z)
    ensures Shl(s, j) < Pow2(w - z + j) <= Pow2(w)
  {
    ShlBelow(s, w - z, j);
    Pow2Mono(w - z + j, w);
  }

  lemma StickyFits(s: nat, w: nat, j: nat)
    requires w > 0 && s < Pow2(w + j)
    ensures Sticky(s, j) < Pow2(w)
  {
    ShrPow2(s, j, w);
    assert Pow2(w) % 2 == 0;
  }

  lemma AlignedBitsFit(signif: nat, exp: int, shift: nat)
    requires shift <= TOP && Pow2(TOP - shift) <= signif < Pow2(2 * W - shift)
    ensures exp - shift >= EMIN ==> Pow2(TOP) <= AlignedBits(signif, exp, shift) < Pow2(2 * W)
    ensures exp - shift < EMIN ==> AlignedBits(signif, exp, shift) < Pow2(TOP)
  {
    if exp - shift >= EMIN {
      ShlFits(signif, 2 * W, shift, shift);
      ShlBelow(signif, TOP - shift, shift);
    } else if exp > EMIN {
      ShlFits(signif, 2 * W, shift, exp - EMIN);
      Pow2Mono(2 * W - shift + (exp - EMIN), TOP);
    } else {
      Pow2Mono(2 * W - shift, TOP + (EMIN - exp));
      StickyFits(signif, TOP, EMIN - exp);
    }
  }

  lemma AlignedBitsStand(signif: nat, exp: int, shift: nat, g: nat, r: nat, x: real)
    requires Stands(signif, g, Scale(x, TOP - exp)) && r > 0 && (g == 0 || g + shift <= r)
    ensures Stands(AlignedBits(signif, exp, shift), r, Scale(x, TOP - Max(exp - shift, EMIN)))
  {
    if exp - shift >= EMIN {
      AlignLeft(signif, g, exp, shift, r, x);
    } else if exp > EMIN {
      AlignLeft(signif, g, exp, exp - EMIN, r, x);
    } else {
      AlignRight(signif, g, exp, EMIN - exp, r, x);
    }
  }

  // ---- tininess ----

  lemma TinyFromBits(mode: Mode, sign: bool, s: U128, extra: nat, x: real)
    requires x > 0.0 && extra <= 40 && Stands(s, W - 1 + extra, Scale(x, TOP - Exponent(x)))
    requires s >= Pow2(TOP)
    ensures Tiny(X87(W - extra), mode, sign, x) <==>
            || Exponent(x) < EMIN - 1
            || (Exponent(x) == EMIN - 1 && RoundShift(mode, sign, s, W + extra) < Pow2(W - extra))
  {
    var e, n := Exponent(x), RoundShift(mode, sign, s, W + extra);
    RoundAligned(mode, sign, s, W + extra, e, x);
    RoundedSize(mode, sign, s, extra);
    SizeVersusMin(n, W - extra, e, EMIN);
  }

  lemma SizeVersusMin(n: nat, p: nat, e: int, emin: int)
    requires p > 0 && Pow2(p - 1) <= n <= Pow2(p)
    ensures Scale(n as real, e - p + 1) < Scale(1.0, emin) <==> e < emin - 1 || (e == emin - 1 && n < Pow2(p))
  {
    OneAt(p, e - p + 1); OneAt(p - 1, e - p + 1);
    ScaleMono(n as real, Pow2(p) as real, e - p + 1);
    ScaleMono(n as real, Pow2(p - 1) as real, e - p + 1);
    if e + 1 < emin { ScaleExpMono(1.0, e + 1, emin); }
    if e >= emin { ScaleExpMono(1.0, emin, e); }
    ScalePositive(1.0, e + 1);
  }

  lemma OneAt(p: nat, e: int)
    ensures Scale(Pow2(p) as real, e) == Scale(1.0, p + e)
  {
    ScalePow2(p);
    ScaleAdd(1.0, p, e);
  }

  /** Whether a significand just below the smallest normal stays below it when rounded. */
  method StaysTiny(env: Env, top: U128, extra: nat, sign: bool) returns (tiny: bool)
    requires extra <= 40
    modifies env`inexact, env`roundedUp
    ensures unchanged(env)
    ensures tiny == (RoundShift(env.mode, sign, top, W + extra) < Pow2(W - extra))
  {
    var savedInexact, savedUp := env.inexact, env.roundedUp;
    var r := ShiftRightRound(env, top, W + extra, sign);
    tiny := r < Pow2(W - extra);
    env.inexact, env.roundedUp := savedInexact, savedUp;
  }

  // ---- the whole of it ----

  /** The significand compares like the exact result x at every place rounding can look. */
  ghost predicate Represents(signif: U128, exp: int, g: nat, x: real, extra: nat) {
    && x > 0.0 && signif > 0 && Stands(signif, g, Scale(x, TOP - exp))
    && (g == 0 || g + Clz128(signif) < W + extra)
  }

  lemma Sizes(signif: U128, exp: int)
    requires signif > 0
    ensures var z := Clz128(signif);
            && z <= TOP && Pow2(TOP) <= Shl(signif, z) < Pow2(2 * W)
            && AlignedBits(signif, exp, z) < Pow2(2 * W)
            && (exp - z >= EMIN <==> AlignedBits(signif, exp, z) >= Pow2(TOP))
  {
    var z := Clz128(signif);
    Clz128Bounds(signif);
    AlignedBitsFit(signif, exp, z);
    AlignedBitsFit(signif, EMIN + z, z);
    Pow2Mono(TOP, 2 * W);
  }

  predicate TinyBits(mode: Mode, sign: bool, signif: U128, e: int, extra: nat)
    requires extra <= 40
  {
    e < EMIN - 1 ||
    (e == EMIN - 1 && RoundShift(mode, sign, Shl(signif, Clz128(signif)), W + extra) < Pow2(W - extra))
  }

  /** o is the outcome of rounding signif * 2^(exp - TOP), in terms of the bits. */
  ghost predicate Foretells(signif: U128, exp: int, mode: Mode, sign: bool, extra: nat, o: Outcome)
    requires extra <= 40 && signif > 0
  {
    Sizes(signif, exp);
    var e := exp - Clz128(signif);
    if e > EMAX then o == Overflowed(X87(W - extra), mode, sign)
    else && BitsGive(o, mode, sign, AlignedBits(signif, exp, Clz128(signif)), extra, Max(e, EMIN))
         && o.underflow == (!o.overflow && o.inexact && TinyBits(mode, sign, signif, e, extra))
  }

  lemma ExponentRepresented(signif: U128, exp: int, g: nat, x: real, extra: nat)
    requires extra <= 40 && Represents(signif, exp, g, x, extra)
    ensures Exponent(x) == exp - Clz128(signif)
  {
    Clz128Bounds(signif);
    ExponentOfBits(signif, g, exp, Clz128(signif), x);
  }

  lemma TinyRepresented(signif: U128, exp: int, g: nat, x: real, extra: nat, mode: Mode, sign: bool)
    requires extra <= 40 && Represents(signif, exp, g, x, extra)
    ensures Tiny(X87(W - extra), mode, sign, x) <==> TinyBits(mode, sign, signif, Exponent(x), extra)
  {
    var z := Clz128(signif);
    ExponentRepresented(signif, exp, g, x, extra);
    Sizes(signif, exp);
    AlignLeft(signif, g, exp, z, W - 1 + extra, x);
    TinyFromBits(mode, sign, Shl(signif, z), extra, x);
  }

  lemma RoundForetold(signif: U128, exp: int, g: nat, x: real, extra: nat, mode: Mode, sign: bool)
    requires extra <= 40 && Represents(signif, exp, g, x, extra)
    ensures Foretells(signif, exp, mode, sign, extra, Round(X87(W - extra), mode, sign, x))
  {
    ExponentRepresented(signif, exp, g, x, extra);
    if exp - Clz128(signif) > EMAX {
      TooLarge(X87(W - extra), mode, sign, x);
    } else {
      BitsRepresented(signif, exp, g, x, extra, mode, sign);
      TinyRepresented(signif, exp, g, x, extra, mode, sign);
      UnderflowIs(X87(W - extra), mode, sign, x);
    }
  }

  lemma UnderflowIs(fmt: Format, mode: Mode, sign: bool, x: real)
    requires x > 0.0
    ensures var o := Round(fmt, mode, sign, x); o.underflow == (!o.overflow && o.inexact && Tiny(fmt, mode, sign, x))
  {
  }

  lemma BitsRepresented(signif: U128, exp: int, g: nat, x: real, extra: nat, mode: Mode, sign: bool)
    requires extra <= 40 && Represents(signif, exp, g, x, extra) && exp - Clz128(signif) <= EMAX
    ensures AlignedBits(signif, exp, Clz128(signif)) < Pow2(2 * W)
    ensures BitsGive(Round(X87(W - extra), mode, sign, x), mode, sign,
                     AlignedBits(signif, exp, Clz128(signif)), extra, Max(exp - Clz128(signif), EMIN))
  {
    var z := Clz128(signif);
    ExponentRepresented(signif, exp, g, x, extra);
    Sizes(signif, exp);
    AlignedBitsStand(signif, exp, z, g, W - 1 + extra, x);
    OutcomeOfBits(mode, sign, AlignedBits(signif, exp, z), extra, Max(exp - z, EMIN), x);
  }

  lemma TooLarge(fmt: Format, mode: Mode, sign: bool, x: real)
    requires x > 0.0 && fmt.p > 0 && Exponent(x) > fmt.emax >= fmt.emin
    ensures Round(fmt, mode, sign, x) == Overflowed(fmt, mode, sign)
  {
    RoundAtLeast(fmt, mode, sign, x);
    ScaleExpMono(1.0, fmt.emax + 1, Exponent(x));
  }

  lemma RoundAtLeast(fmt: Format, mode: Mode, sign: bool, x: real)
    requires x > 0.0 && fmt.p > 0 && Exponent(x) >= fmt.emin
    ensures Scale(RoundAt(mode, sign, x, Quantum(fmt, x)) as real, Quantum(fmt, x)) >= Scale(1.0, Exponent(x))
  {
    var e, q := Exponent(x), Quantum(fmt, x);
    ScaleAdd(x, -e, e - q);
    ScaleMono(Scale(x, -e), 1.0, fmt.p - 1);
    ScalePow2(fmt.p - 1);
    var n := RoundAt(mode, sign, x, q);
    assert n >= Pow2(fmt.p - 1);
    OneAt(fmt.p - 1, q);
    ScaleMono(n as real, Pow2(fmt.p - 1) as real, q);
  }

  /** The bits decide the whole outcome: two exact results with the same bits round alike. */
  lemma RoundDetermined(signif: U128, exp: int, g: nat, x: real, g': nat, x': real, extra: nat, mode: Mode, sign: bool)
    requires extra <= 40 && Represents(signif, exp, g, x, extra) && Represents(signif, exp, g', x', extra)
    ensures Round(X87(W - extra), mode, sign, x) == Round(X87(W - extra), mode, sign, x')
  {
    RoundForetold(signif, exp, g, x, extra, mode, sign);
    RoundForetold(signif, exp, g', x', extra, mode, sign);
    ForetellsOne(signif, exp, mode, sign, extra,
                 Round(X87(W - extra), mode, sign, x), Round(X87(W - extra), mode, sign, x'));
  }

  lemma ForetellsOne(signif: U128, exp: int, mode: Mode, sign: bool, extra: nat, o: Outcome, o': Outcome)
    requires extra <= 40 && signif > 0
    requires Foretells(signif, exp, mode, sign, extra, o) && Foretells(signif, exp, mode, sign, extra, o')
    ensures o == o'
  {
  }

  /** Whether the result is tiny after rounding with unbounded exponent; the flags are as they were. */
  method DecideTiny(env: Env, signif: U128, e: int, extra: nat, sign: bool) returns (tiny: bool)
    requires signif > 0 && extra <= 40
    modifies env`inexact, env`roundedUp
    ensures unchanged(env) && tiny == (e < EMIN && TinyBits(env.mode, sign, signif, e, extra))
  {
    tiny := e < EMIN;
    if e == EMIN - 1 {
      Sizes(signif, 0);
      tiny := StaysTiny(env, Shl(signif, Clz128(signif)), extra, sign);
    }
  }

  /** u128_normalize_round, given the outcome its bits foretell. */
  method NormalizeRoundBits(env: Env, signif: U128, exp: int, sign: bool, ghost o: Outcome) returns (f: Float80)
    requires signif != 0 ==> Foretells(signif, exp, env.mode, sign, PrecisionExtra(env.precision), o)
    modifies env
    ensures signif == 0 ==> f == Zero(sign) && unchanged(env)
    ensures signif != 0 ==> Delivers(f, sign, o.mag) && env.Raised(o)
  {
    if signif == 0 {
      return Zero(sign);
    }
    var callerInexact := env.inexact;
    env.inexact := false;
    var shift := Clz128(signif);
    var tiny := DecideTiny(env, signif, exp - shift, PrecisionExtra(env.precision), sign);
    if exp - shift > EMAX {
      f := OverflowResult(env, sign);
      return;
    }
    f := RoundInRange(env, signif, exp, shift, sign, o);
    if tiny && env.inexact {
      env.exceptions := env.exceptions + {Underflow};
    }
    env.inexact := env.inexact || callerInexact;
  }

  /** The rounding of a significand that is not too large, tininess apart. */
  method RoundInRange(env: Env, signif: U128, exp: int, shift: nat, sign: bool, ghost o: Outcome) returns (f: Float80)
    requires signif > 0 && shift == Clz128(signif) && exp - shift <= EMAX
    requires Foretells(signif, exp, env.mode, sign, PrecisionExtra(env.precision), o)
    modifies env
    ensures Delivers(f, sign, o.mag) && env.Raised(o.(underflow := false))
  {
    Sizes(signif, exp);
    var biased := if exp - shift < EMIN then 0 else exp - shift + BIAS80;
    f := RoundToPrecision(env, AlignedBits(signif, exp, shift), biased, sign, Max(exp - shift, EMIN), o);
  }

  /** f is the nonzero v, correctly rounded in the environment's mode and precision, and the flags say so. */
  twostate predicate RoundsTo(env: Env, f: Float80, v: real)
    requires v != 0.0
    reads env
  {
    var o := Round(X87(env.P()), env.mode, v < 0.0, Abs(v));
    Delivers(f, v < 0.0, o.mag) && env.Raised(o)
  }

  /** signif * 2^(exp - TOP), or the exact v it stands for, rounded once. */
  method NormalizeRound(env: Env, signif: U128, exp: int, sign: bool, ghost v: real, ghost g: nat) returns (f: Float80)
    requires signif == 0 <==> v == 0.0
    requires v != 0.0 ==> sign == (v < 0.0) && Represents(signif, exp, g, Abs(v), PrecisionExtra(env.precision))
    modifies env
    ensures v == 0.0 ==> f == Zero(sign) && unchanged(env)
    ensures v != 0.0 ==> RoundsTo(env, f, v)
  {
    ghost var o := Overflowed(X87(env.P()), env.mode, sign);
    if signif != 0 {
      RoundForetold(signif, exp, g, Abs(v), PrecisionExtra(env.precision), env.mode, sign);
      o := Round(X87(env.P()), env.mode, sign, Abs(v));
    }
    f := NormalizeRoundBits(env, signif, exp, sign, o);
  }
}
