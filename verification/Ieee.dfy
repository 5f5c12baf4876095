/** Conversions to and from the IEEE single and double formats, bit for bit. */
module Ieee {
  import opened Powers
  import opened Rounding
  import opened Float80s
  import opened Normalize
  import opened Operands
  import opened Exactness
  import opened Integers

  /** An IEEE interchange format: fraction bits and exponent bias. */
  datatype Layout = Layout(frac: nat, bias: nat)

  const DOUBLE: Layout := Layout(52, 1023)
  const SINGLE: Layout := Layout(23, 127)

  /** Narrower than the x87 format in both fields, as single and double are. */
  predicate Narrow(l: Layout) { 2 <= l.frac <= 52 && 1 <= l.bias <= 1023 }

  /** The two layouts are those f80_to_double and f80_to_float pass, and the formats they name are binary64 and
      binary32. */
  lemma SourceLayouts()
    ensures Narrow(DOUBLE) && Fmt(DOUBLE) == Format(53, -1022, 1023) && Special(DOUBLE) == 0x7ff
    ensures Narrow(SINGLE) && Fmt(SINGLE) == Format(24, -126, 127) && Special(SINGLE) == 0xff
  {
  }

  /** Every word of 63 bits below the sign is a pattern of a double, and every one of 31 of a single. */
  lemma PatternsInNumbers(b: Bits)
    ensures Pattern(DOUBLE, b) <==> b.rest < Pow2(63)
    ensures Pattern(SINGLE, b) <==> b.rest < Pow2(31)
  {
    PatternsOf(DOUBLE, b, 11); PatternsOf(SINGLE, b, 8);
  }

  lemma PatternsOf(l: Layout, b: Bits, k: nat)
    requires Special(l) + 1 == Pow2(k)
    ensures Pattern(l, b) <==> b.rest < Pow2(l.frac + k)
  {
    ShrPow2(b.rest, l.frac, k);
  }

  /** 1 in the two formats, and NaN fractions moved to the top of the significand. */
  lemma LayoutsInNumbers(b: Bits)
    ensures IeeeMag(DOUBLE, Shl(0x3ff, 52)) == 1.0 && IeeeMag(SINGLE, Shl(0x7f, 23)) == 1.0
    ensures Widened(DOUBLE, b) == FracOf(DOUBLE, b) * Pow2(11) + (if ExpOf(DOUBLE, b) == 0 then 0 else Pow2(63))
    ensures Widened(SINGLE, b) == FracOf(SINGLE, b) * Pow2(40) + (if ExpOf(SINGLE, b) == 0 then 0 else Pow2(63))
  {
    UnitPattern(DOUBLE); UnitPattern(SINGLE);
    ShlPow2(FracOf(DOUBLE, b), 11); ShlPow2(FracOf(SINGLE, b), 40);
  }

  /** The pattern with the bias in its exponent field and an empty fraction is 1. */
  lemma UnitPattern(l: Layout)
    requires l.bias > 0
    ensures IeeeMag(l, Shl(l.bias, l.frac)) == 1.0
  {
    ShrUnique(Shl(l.bias, l.frac), l.frac, l.bias, 0);
    UnitSignificand(l.frac);
  }

  /** A bit pattern: the sign bit, and the exponent field and fraction as one integer. */
  datatype Bits = Bits(sign: bool, rest: nat)

  function Special(l: Layout): nat { 2 * l.bias + 1 }
  function ExpOf(l: Layout, b: Bits): nat { Shr(b.rest, l.frac) }
  function FracOf(l: Layout, b: Bits): nat { Low(b.rest, l.frac) }
  predicate Pattern(l: Layout, b: Bits) { ExpOf(l, b) <= Special(l) }

  function Fmt(l: Layout): Format { Format(l.frac + 1, 1 - l.bias, l.bias) }

  /** Significand and scale of a finite pattern. */
  function SignifOf(l: Layout, rest: nat): nat {
    Low(rest, l.frac) + if Shr(rest, l.frac) == 0 then 0 else Pow2(l.frac)
  }
  function PlaceOf(l: Layout, rest: nat): int {
    Max(Shr(rest, l.frac), 1) - l.bias - l.frac
  }
  ghost function IeeeMag(l: Layout, rest: nat): real { Scale(SignifOf(l, rest) as real, PlaceOf(l, rest)) }

  ghost predicate IeeeDelivers(l: Layout, b: Bits, sign: bool, mag: Magnitude) {
    && b.sign == sign
    && match mag
       case Infinite => b.rest == Shl(Special(l), l.frac)
       case Finite(n, q) => ExpOf(l, b) < Special(l) && IeeeMag(l, b.rest) == Scale(n as real, q)
  }

  // ---- patterns are values ----

  lemma IeeeMagLess(l: Layout, r: nat, s: nat)
    requires Max(Shr(r, l.frac), 1) < Max(Shr(s, l.frac), 1)
    ensures IeeeMag(l, r) < IeeeMag(l, s)
  {
    var a, b := PlaceOf(l, r), PlaceOf(l, s);
    LowBound(r, l.frac);
    DoubleScale(Pow2(l.frac), a);
    ScaleMono(SignifOf(l, r) as real, (2 * Pow2(l.frac)) as real, a);
    ScaleExpMono(Pow2(l.frac) as real, a + 1, b);
    ScaleMono(SignifOf(l, s) as real, Pow2(l.frac) as real, b);
  }

  lemma IeeeMagInjective(l: Layout, r: nat, s: nat)
    requires IeeeMag(l, r) == IeeeMag(l, s)
    ensures r == s
  {
    if Max(Shr(r, l.frac), 1) < Max(Shr(s, l.frac), 1) { IeeeMagLess(l, r, s); }
    else if Max(Shr(s, l.frac), 1) < Max(Shr(r, l.frac), 1) { IeeeMagLess(l, s, r); }
    else {
      ScaleMono(SignifOf(l, r) as real, SignifOf(l, s) as real, PlaceOf(l, r));
      LowBound(r, l.frac); LowBound(s, l.frac);
      ShrLow(r, l.frac); ShrLow(s, l.frac);
    }
  }

  // ---- from IEEE ----

  /** The significand field before normalizing: the fraction at the top, and the integer bit. */
  function Widened(l: Layout, b: Bits): nat
    requires Narrow(l)
  {
    Shl(FracOf(l, b), W - 1 - l.frac) + if ExpOf(l, b) == 0 then 0 else Pow2(W - 1)
  }

  lemma WidenedFits(l: Layout, b: Bits)
    requires Narrow(l)
    ensures Shl(FracOf(l, b), W - 1 - l.frac) < Pow2(W - 1)
    ensures Widened(l, b) == Shl(SignifOf(l, b.rest), W - 1 - l.frac) < Pow2(W)
  {
    LowBound(b.rest, l.frac);
    ShlBelow(FracOf(l, b), l.frac, W - 1 - l.frac);
    ShlSum(FracOf(l, b), Pow2(l.frac), W - 1 - l.frac);
    ShlOne(l.frac, W - 1 - l.frac);
  }

  function WidenedExp(l: Layout, b: Bits): int {
    if ExpOf(l, b) == Special(l) then EXP_SPECIAL
    else if ExpOf(l, b) == 0 then (if FracOf(l, b) == 0 then 0 else 1 - l.bias + BIAS80)
    else ExpOf(l, b) - l.bias + BIAS80
  }

  lemma WidenedExact(l: Layout, b: Bits)
    requires Narrow(l) && ExpOf(l, b) < Special(l)
    ensures Widened(l, b) < Pow2(W) && 0 <= WidenedExp(l, b) < EXP_SPECIAL
    ensures Mag(Float80(Widened(l, b), WidenedExp(l, b), b.sign)) == IeeeMag(l, b.rest)
    ensures WidenedExp(l, b) == 0 <==> b.rest == 0
    ensures Widened(l, b) == 0 <==> b.rest == 0
  {
    WidenedFits(l, b);
    ShrLow(b.rest, l.frac);
    AllLow(0, 0, l.frac);
    ShlMono(SignifOf(l, b.rest), 0, W - 1 - l.frac);
    ShlMono(0, 0, W - 1 - l.frac);
    ScaleZero(EMIN - W + 1); ScaleZero(PlaceOf(l, b.rest));
    ShlZero(W - 1 - l.frac); ShlZero(l.frac);
    if b.rest != 0 { ScaleShl(SignifOf(l, b.rest), W - 1 - l.frac, WidenedExp(l, b) - BIAS80 - W + 1); }
  }

  /** A NaN pattern is quiet when the top bit of its fraction is set. */
  predicate QuietFrac(l: Layout, m: nat)
    requires l.frac > 0
  {
    m >= Pow2(l.frac - 1)
  }

  lemma WidenedNaN(l: Layout, b: Bits)
    requires Narrow(l) && ExpOf(l, b) == Special(l)
    ensures Widened(l, b) < Pow2(W)
    ensures var f := Float80(Widened(l, b), EXP_SPECIAL, b.sign);
            && IsSupported(f)
            && (FracOf(l, b) == 0 ==> f == Inf(b.sign) && IsInf(f))
            && (FracOf(l, b) != 0 ==> IsNaN(f) && (IsSNaN(f) <==> !QuietFrac(l, FracOf(l, b))))
  {
    var m, k := FracOf(l, b), W - 1 - l.frac;
    WidenedFits(l, b);
    LowBound(b.rest, l.frac);
    ShlZero(k);
    ShlMono(0, m, k);
    ShlOne(0, W - 1);
    ShrUnique(Widened(l, b), W - 1, 1, Shl(m, k));
    QuietBit(l, m, k);
  }

  lemma QuietBit(l: Layout, m: nat, k: nat)
    requires Narrow(l) && k == W - 1 - l.frac && m < Pow2(l.frac)
    ensures Shr(Pow2(W - 1) + Shl(m, k), W - 2) % 2 == if QuietFrac(l, m) then 1 else 0
  {
    var top := Pow2(l.frac - 1);
    ShlOne(l.frac - 1, k);
    if QuietFrac(l, m) {
      ShlSum(m - top, top, k);
      ShlBelow(m - top, l.frac - 1, k);
      TwoBits(1);
      ShrUnique(Pow2(W - 1) + Shl(m, k), W - 2, 3, Shl(m - top, k));
    } else {
      ShlBelow(m, l.frac - 1, k);
      TwoBits(0);
      ShrUnique(Pow2(W - 1) + Shl(m, k), W - 2, 2, Shl(m, k));
    }
  }

  lemma TwoBits(bit: nat)
    requires bit <= 1
    ensures Shl(2 + bit, W - 2) == Pow2(W - 1) + if bit == 1 then Pow2(W - 2) else 0
  {
    ShlSum(2, bit, W - 2);
    ShlOne(1, W - 2); ShlOne(0, W - 2); ShlZero(W - 2);
  }

  /** f80_from_double and f80_from_float. */
  method FromIeee(env: Env, l: Layout, b: Bits) returns (r: Float80)
    requires Narrow(l) && Pattern(l, b)
    modifies env`exceptions
    ensures ExpOf(l, b) < Special(l) ==>
              && Ordinary(r) && r.sign == b.sign && Mag(r) == IeeeMag(l, b.rest)
              && env.Only(if ExpOf(l, b) == 0 && FracOf(l, b) != 0 then {Denormal} else {})
    ensures ExpOf(l, b) == Special(l) && FracOf(l, b) == 0 ==> r == Inf(b.sign) && env.Only({})
    ensures ExpOf(l, b) == Special(l) && FracOf(l, b) != 0 ==>
              && Widened(l, b) < Pow2(W) && r == Quiet(Float80(Widened(l, b), EXP_SPECIAL, b.sign))
              && env.Only(if QuietFrac(l, FracOf(l, b)) then {} else {Invalid})
  {
    WidenedFits(l, b);
    if ExpOf(l, b) < Special(l) { WidenedExact(l, b); } else { WidenedNaN(l, b); }
    var f := Float80(Widened(l, b), WidenedExp(l, b), b.sign);
    if ExpOf(l, b) == 0 && FracOf(l, b) != 0 {
      env.exceptions := env.exceptions + {Denormal};
    }
    if IsSNaN(f) {
      env.exceptions := env.exceptions + {Invalid};
      QuietIsQuiet(f);
      f := Quiet(f);
    }
    if f.exp < EXP_SPECIAL { NormalizeFloatExact(f); } else { NormalizeFloatNoop(f); }
    return NormalizeFloat(f);
  }

  // ---- to IEEE ----

  /** The exponent and fraction fields a rounded significand n becomes, at the exponent e. */
  lemma PackedNormal(l: Layout, n: nat, e: int, sign: bool)
    requires Narrow(l) && Pow2(l.frac) <= n < 2 * Pow2(l.frac) && 1 - l.bias <= e <= l.bias
    ensures var rest := Shl(e + l.bias, l.frac) + Low(n, l.frac);
            IeeeDelivers(l, Bits(sign, rest), sign, Finite(n, e - l.frac))
  {
    var rest := Shl(e + l.bias, l.frac) + Low(n, l.frac);
    ShlOne(0, l.frac);
    ShrUnique(n, l.frac, 1, n - Pow2(l.frac));
    ShrUnique(rest, l.frac, e + l.bias, Low(n, l.frac));
  }

  lemma PackedSubnormal(l: Layout, n: nat, sign: bool)
    requires Narrow(l) && n <= Pow2(l.frac)
    ensures IeeeDelivers(l, Bits(sign, n), sign, Finite(n, 1 - l.bias - l.frac))
  {
    ShlOne(0, l.frac); ShlZero(l.frac);
    if n < Pow2(l.frac) { ShrUnique(n, l.frac, 0, n); } else { ShrUnique(n, l.frac, 1, 0); }
  }

  lemma PackedLargest(l: Layout, sign: bool)
    requires Narrow(l)
    ensures var rest := Shl(Special(l) - 1, l.frac) + (Pow2(l.frac) - 1);
            IeeeDelivers(l, Bits(sign, rest), sign, Finite(2 * Pow2(l.frac) - 1, l.bias - l.frac))
  {
    ShrUnique(Shl(Special(l) - 1, l.frac) + (Pow2(l.frac) - 1), l.frac, Special(l) - 1, Pow2(l.frac) - 1);
  }

  /** How far f's normalized significand is shifted: past the fraction, and further for a subnormal result. */
  function Narrowing(l: Layout, e: int): int {
    W - 1 - l.frac + if e < 1 - l.bias then 1 - l.bias - e else 0
  }

  lemma NarrowedRounds(l: Layout, mode: Mode, sign: bool, s: U64, e: int, x: real)
    requires Narrow(l) && s >= Pow2(W - 1) && x > 0.0 && x == Scale(s as real, e - W + 1)
    ensures var n, q, k := ShiftRound(mode, sign, s, Narrowing(l, e)), Max(e, 1 - l.bias) - l.frac, Narrowing(l, e);
            && n == RoundAt(mode, sign, x, q)
            && (Low(s, k) != 0 <==> Scale(n as real, q) != x)
            && (n > Shr(s, k) <==> Scale(n as real, q) > x)
  {
    var k, q := Narrowing(l, e), Max(e, 1 - l.bias) - l.frac;
    ShiftRoundSignificand(mode, sign, s, k);
    var n, z := ShiftRound(mode, sign, s, k), Scale(s as real, -k);
    ScaleAdd(s as real, e - W + 1, -q);
    ScaleMove(n as real, x, q);
    ScaleMove(z, x, q);
    ScaleMono(z, n as real, q);
  }

  lemma NarrowedSize(l: Layout, mode: Mode, sign: bool, s: U64, e: int)
    requires Narrow(l) && s >= Pow2(W - 1)
    ensures var n := ShiftRound(mode, sign, s, Narrowing(l, e));
            if e < 1 - l.bias then n <= Pow2(l.frac) else Pow2(l.frac) <= n <= 2 * Pow2(l.frac)
  {
    var k := Narrowing(l, e);
    if e >= 1 - l.bias {
      RoundShiftBounds(mode, sign, s, k, l.frac + 1);
    } else if k < 2 * W {
      Pow2Mono(W, l.frac + k);
      RoundShiftBounds(mode, sign, s, k, l.frac);
    }
  }

  /** What the narrowed significand says about the outcome, tininess apart. */
  ghost predicate NarrowGives(l: Layout, mode: Mode, sign: bool, s: nat, e: int, o: Outcome)
    requires Narrow(l)
  {
    var n, k := ShiftRound(mode, sign, s, Narrowing(l, e)), Narrowing(l, e);
    if e > l.bias || (e == l.bias && n == 2 * Pow2(l.frac)) then o == Overflowed(Fmt(l), mode, sign)
    else && !o.overflow && o.mag == Finite(n, Max(e, 1 - l.bias) - l.frac)
         && o.inexact == (Low(s, k) != 0) && o.up == (n > Shr(s, k))
  }

  lemma NarrowOutcome(l: Layout, mode: Mode, sign: bool, s: U64, e: int, x: real)
    requires Narrow(l) && s >= Pow2(W - 1) && x > 0.0 && x == Scale(s as real, e - W + 1)
    ensures NarrowGives(l, mode, sign, s, e, Round(Fmt(l), mode, sign, x))
  {
    TopExponentOf(s, e, x);
    if e > l.bias {
      TooLarge(Fmt(l), mode, sign, x);
    } else {
      NarrowedRounds(l, mode, sign, s, e, x);
      NarrowedSize(l, mode, sign, s, e);
      RoundUnfolds(Fmt(l), mode, sign, x);
      OverflowIff(ShiftRound(mode, sign, s, Narrowing(l, e)), l.frac + 1, Max(e, 1 - l.bias), l.bias);
    }
  }

  /** The rest of the pattern for a rounded significand n at the exponent e, no overflow: the carry out of a
      subnormal lands in the exponent field by itself. */
  function PackFields(l: Layout, n: nat, e: int): nat {
    if e < 1 - l.bias then n
    else if n >= 2 * Pow2(l.frac) then Shl(e + 1 + l.bias, l.frac) + Low(n / 2, l.frac)
    else Shl(e + l.bias, l.frac) + Low(n, l.frac)
  }

  lemma PackedCarry(l: Layout, e: int, sign: bool)
    requires Narrow(l) && 1 - l.bias <= e < l.bias
    ensures IeeeDelivers(l, Bits(sign, PackFields(l, 2 * Pow2(l.frac), e)), sign, Finite(2 * Pow2(l.frac), e - l.frac))
  {
    PackedNormal(l, Pow2(l.frac), e + 1, sign);
    DoubleScale(Pow2(l.frac), e - l.frac);
  }

  lemma PackedDelivers(l: Layout, n: nat, e: int, sign: bool)
    requires Narrow(l) && e <= l.bias && !(e == l.bias && n == 2 * Pow2(l.frac))
    requires if e < 1 - l.bias then n <= Pow2(l.frac) else Pow2(l.frac) <= n <= 2 * Pow2(l.frac)
    ensures IeeeDelivers(l, Bits(sign, PackFields(l, n, e)), sign, Finite(n, Max(e, 1 - l.bias) - l.frac))
  {
    if e < 1 - l.bias {
      PackedSubnormal(l, n, sign);
    } else if n == 2 * Pow2(l.frac) {
      PackedCarry(l, e, sign);
    } else {
      PackedNormal(l, n, e, sign);
    }
  }

  /** Infinity, or the largest finite value when the mode points back toward zero. */
  function OverflowFields(l: Layout, mode: Mode, sign: bool): nat {
    if TowardZero(mode, sign) then Shl(Special(l) - 1, l.frac) + (Pow2(l.frac) - 1) else Shl(Special(l), l.frac)
  }

  lemma OverflowDelivers(l: Layout, mode: Mode, sign: bool)
    requires Narrow(l)
    ensures IeeeDelivers(l, Bits(sign, OverflowFields(l, mode, sign)), sign, Overflowed(Fmt(l), mode, sign).mag)
  {
    PackedLargest(l, sign);
  }

  predicate Overflows(l: Layout, n: nat, e: int) { e > l.bias || (e == l.bias && n >= 2 * Pow2(l.frac)) }

  function Fields(l: Layout, mode: Mode, sign: bool, n: nat, e: int): nat {
    if Overflows(l, n, e) then OverflowFields(l, mode, sign) else PackFields(l, n, e)
  }

  lemma PackedAbove(l: Layout, n: nat, e: int)
    requires Narrow(l) && e >= 1 - l.bias
    ensures PackFields(l, n, e) >= Pow2(l.frac)
  {
    ShlMono(1, e + l.bias, l.frac); ShlMono(1, e + 1 + l.bias, l.frac); ShlOne(0, l.frac);
  }

  lemma FieldsDeliver(l: Layout, mode: Mode, sign: bool, s: U64, e: int, o: Outcome)
    requires Narrow(l) && s >= Pow2(W - 1) && NarrowGives(l, mode, sign, s, e, o)
    ensures var n := ShiftRound(mode, sign, s, Narrowing(l, e));
            && IeeeDelivers(l, Bits(sign, Fields(l, mode, sign, n, e)), sign, o.mag)
            && Overflows(l, n, e) == o.overflow
            && (!o.overflow ==> (Fields(l, mode, sign, n, e) < Pow2(l.frac) <==> e < 1 - l.bias && n < Pow2(l.frac)))
  {
    var n := ShiftRound(mode, sign, s, Narrowing(l, e));
    NarrowedSize(l, mode, sign, s, e);
    if Overflows(l, n, e) {
      OverflowDelivers(l, mode, sign);
    } else {
      PackedDelivers(l, n, e, sign);
      if e >= 1 - l.bias { PackedAbove(l, n, e); }
    }
  }

  /** A finite nonzero number, rounded to the narrow format. */
  method ToIeeeFinite(env: Env, l: Layout, f: Float80) returns (b: Bits, ghost o: Outcome)
    requires Narrow(l) && Ordinary(f) && f.signif > 0
    modifies env
    ensures Mag(f) > 0.0 && o == Round(Fmt(l), old(env.mode), f.sign, Mag(f))
    ensures IeeeDelivers(l, b, f.sign, o.mag)
    ensures env.RaisedWith(o.(underflow := false), LostBelowNormal(l, b, o))
  {
    var z := Clz64(f.signif);
    var s, e := Shl(f.signif, z), UnbiasDenormal(f.exp) - z;
    TopOf(f, s, e);
    NarrowOutcome(l, env.mode, f.sign, s, e, Mag(f));
    o := Round(Fmt(l), env.mode, f.sign, Mag(f));
    b := NarrowAndPack(env, l, s, e, f.sign, o);
  }

  /** UE, as this code judges it: an inexact result delivered below the smallest normal. */
  function LostBelowNormal(l: Layout, b: Bits, o: Outcome): set<Exception> {
    if o.inexact && !o.overflow && b.rest < Pow2(l.frac) then {Underflow} else {}
  }

  /** The rounding of f80_to_ieee and the flags it raises: PE and C1 for the bits lost, OE past the largest exponent,
      UE below the smallest normal. */
  method NarrowFlags(env: Env, l: Layout, s: U64, e: int, sign: bool) returns (n: nat)
    requires Narrow(l)
    modifies env
    ensures env.mode == old(env.mode) && env.precision == old(env.precision)
    ensures n == ShiftRound(env.mode, sign, s, Narrowing(l, e))
    ensures var over, lost := Overflows(l, n, e), Low(s, Narrowing(l, e)) != 0;
            && env.inexact == (old(env.inexact) || over || lost)
            && env.roundedUp == (if over then !TowardZero(env.mode, sign)
                                 else old(env.roundedUp) || n > Shr(s, Narrowing(l, e)))
            && env.exceptions == old(env.exceptions) +
                 (if over then {Overflow} else if e < 1 - l.bias && lost && n < Pow2(l.frac) then {Underflow} else {})
  {
    var callerInexact := env.inexact;
    env.inexact := false;
    Pow2Mono(W, 2 * W);
    n := ShiftRightRound(env, s, Narrowing(l, e), sign);
    if Overflows(l, n, e) {
      env.exceptions := env.exceptions + {Overflow};
      env.inexact := true;
      env.roundedUp := !TowardZero(env.mode, sign);
    } else if e < 1 - l.bias && env.inexact && n < Pow2(l.frac) {
      env.exceptions := env.exceptions + {Underflow};
    }
    env.inexact := env.inexact || callerInexact;
  }

  /** The rounding and packing of f80_to_ieee, given the outcome its bits lead to. */
  method NarrowAndPack(env: Env, l: Layout, s: U64, e: int, sign: bool, ghost o: Outcome) returns (b: Bits)
    requires Narrow(l) && s >= Pow2(W - 1) && NarrowGives(l, env.mode, sign, s, e, o)
    modifies env
    ensures IeeeDelivers(l, b, sign, o.mag)
    ensures env.RaisedWith(o.(underflow := false), LostBelowNormal(l, b, o))
  {
    FieldsDeliver(l, env.mode, sign, s, e, o);
    var n := NarrowFlags(env, l, s, e, sign);
    b := Bits(sign, Fields(l, env.mode, sign, n, e));
  }

  /** The fraction with its quiet bit set. */
  function QuietedFrac(l: Layout, m: nat): nat
    requires l.frac > 0
  {
    if QuietFrac(l, m) then m else m + Pow2(l.frac - 1)
  }

  /** Quieting a fraction sets its top bit and nothing else. */
  lemma QuietedInNumbers(l: Layout, m: nat)
    requires l.frac > 0 && m < Pow2(l.frac)
    ensures Pow2(l.frac - 1) <= QuietedFrac(l, m) < Pow2(l.frac)
    ensures Low(QuietedFrac(l, m), l.frac - 1) == Low(m, l.frac - 1)
  {
    if m < Pow2(l.frac - 1) {
      AllLow(m, l.frac - 1, l.frac - 1);
      ShlOne(0, l.frac - 1);
      ShrUnique(m + Pow2(l.frac - 1), l.frac - 1, 1, m);
    }
  }

  /** f80_to_ieee, behind f80_to_double and f80_to_float. */
  method ToIeee(env: Env, l: Layout, f: Float80) returns (b: Bits, ghost o: Outcome)
    requires Narrow(l)
    modifies env
    ensures Ordinary(f) && f.signif > 0 ==>
              && Mag(f) > 0.0 && o == Round(Fmt(l), old(env.mode), f.sign, Mag(f))
              && IeeeDelivers(l, b, f.sign, o.mag)
              && env.RaisedWith(o.(underflow := false), LostBelowNormal(l, b, o))
    ensures Ordinary(f) && f.signif == 0 ==> b == Bits(f.sign, 0) && env.Only({})
    ensures !IsSupported(f) ==> b == Bits(false, Shl(Special(l), l.frac) + Pow2(l.frac - 1)) && env.Only({Invalid})
    ensures IsSupported(f) && IsInf(f) ==> b == Bits(f.sign, Shl(Special(l), l.frac)) && env.Only({})
    ensures IsSupported(f) && IsNaN(f) ==>
              && b == Bits(f.sign, Shl(Special(l), l.frac) + QuietedFrac(l, Low(Shr(f.signif, W - 1 - l.frac), l.frac)))
              && env.Only(if IsSNaN(f) then {Invalid} else {})
  {
    o := Overflowed(Fmt(l), env.mode, f.sign);
    if !IsSupported(f) {
      env.exceptions := env.exceptions + {Invalid};
      b := Bits(false, Shl(Special(l), l.frac) + Pow2(l.frac - 1));
      return;
    }
    if f.exp == EXP_SPECIAL {
      if IsInf(f) {
        b := Bits(f.sign, Shl(Special(l), l.frac));
        return;
      }
      if IsSNaN(f) {
        env.exceptions := env.exceptions + {Invalid};
      }
      b := Bits(f.sign, Shl(Special(l), l.frac) + QuietedFrac(l, Low(Shr(f.signif, W - 1 - l.frac), l.frac)));
      return;
    }
    if IsZero(f) {
      b := Bits(f.sign, 0);
      return;
    }
    b, o := ToIeeeFinite(env, l, f);
  }

  // ---- there and back ----

  lemma FinitePatternExact(l: Layout, b: Bits, mode: Mode, x: real)
    requires Narrow(l) && ExpOf(l, b) < Special(l) && b.rest > 0 && x == IeeeMag(l, b.rest)
    ensures x > 0.0
    ensures var o := Round(Fmt(l), mode, b.sign, x);
            && !o.inexact && !o.up && !o.overflow && !o.underflow
            && forall c: Bits :: IeeeDelivers(l, c, b.sign, o.mag) ==> c == b
  {
    var m, q := SignifOf(l, b.rest), PlaceOf(l, b.rest);
    LowBound(b.rest, l.frac); ShrLow(b.rest, l.frac); ShlZero(l.frac);
    ScalePositive(m as real, q);
    PatternBelowTop(l, b);
    RoundExact(Fmt(l), mode, b.sign, m, q, x);
    var o := Round(Fmt(l), mode, b.sign, x);
    forall c: Bits | IeeeDelivers(l, c, b.sign, o.mag)
      ensures c == b
    {
      IeeeMagInjective(l, c.rest, b.rest);
    }
  }

  lemma PatternBelowTop(l: Layout, b: Bits)
    requires Narrow(l) && ExpOf(l, b) < Special(l)
    ensures IeeeMag(l, b.rest) < Scale(1.0, l.bias + 1)
  {
    var m, q := SignifOf(l, b.rest), PlaceOf(l, b.rest);
    LowBound(b.rest, l.frac);
    OneAt(l.frac + 1, q);
    ScaleMono(m as real, Pow2(l.frac + 1) as real, q);
    ScaleExpMono(1.0, l.frac + 1 + q, l.bias + 1);
  }

  /** A quiet NaN's fraction survives widening and narrowing. */
  lemma NaNFraction(l: Layout, b: Bits)
    requires Narrow(l) && ExpOf(l, b) == Special(l) && QuietFrac(l, FracOf(l, b))
    ensures Low(Shr(Widened(l, b), W - 1 - l.frac), l.frac) == FracOf(l, b)
    ensures b.rest == Shl(Special(l), l.frac) + FracOf(l, b)
  {
    var m := SignifOf(l, b.rest);
    WidenedFits(l, b);
    LowBound(b.rest, l.frac);
    ShrUnique(Widened(l, b), W - 1 - l.frac, m, 0);
    ShlOne(0, l.frac);
    ShrUnique(m, l.frac, 1, FracOf(l, b));
    ShrLow(b.rest, l.frac);
  }

  /** Every pattern that is not a signalling NaN comes back bit for bit, in every mode, raising at most DE. */
  method IeeeRoundTrip(env: Env, l: Layout, b: Bits) returns (c: Bits)
    requires Narrow(l) && Pattern(l, b)
    requires ExpOf(l, b) == Special(l) && FracOf(l, b) != 0 ==> QuietFrac(l, FracOf(l, b))
    modifies env
    ensures c == b
    ensures env.Only(if ExpOf(l, b) == 0 && FracOf(l, b) != 0 then {Denormal} else {})
  {
    ghost var o;
    var f := FromIeee(env, l, b);
    if ExpOf(l, b) < Special(l) {
      MagZero(f);
      if b.rest > 0 {
        FinitePatternExact(l, b, env.mode, Mag(f));
      } else {
        ScaleZero(PlaceOf(l, 0)); AllLow(0, 0, l.frac);
      }
    } else {
      WidenedNaN(l, b);
      ShrLow(b.rest, l.frac);
      if FracOf(l, b) != 0 { NaNFraction(l, b); }
    }
    c, o := ToIeee(env, l, f);
  }
}
