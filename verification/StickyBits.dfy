/** Integers that stand for a real number as far as rounding can see, and the shifts that keep it so. */
module StickyBits {
  import opened Powers
  import opened Rounding

  /** s compares like y at every multiple of 2^g, and is y itself if it is such a multiple. */
  ghost predicate Stands(s: nat, g: nat, y: real) {
    if Low(s, g) == 0 then y == s as real
    else (s - Low(s, g)) as real < y < (s - Low(s, g) + Pow2(g)) as real
  }

  lemma StandsCompare(s: nat, g: nat, y: real, m: nat)
    requires Stands(s, g, y) && Low(m, g) == 0
    ensures s < m <==> y < m as real
    ensures s == m <==> y == m as real
  {
    Aligned(s, g, m);
    LowBound(s, g);
  }

  lemma {:induction false} StandsCoarser(s: nat, g: nat, g': nat, y: real)
    requires Stands(s, g, y) && g <= g'
    ensures Stands(s, g', y)
    decreases g' - g
  {
    if g < g' {
      LowSucc(s, g);
      StandsCoarser(s, g + 1, g', y);
    }
  }

  /** s shifted right by k and rounded on the guard bit and the rest below it. */
  function RoundShift(mode: Mode, sign: bool, s: nat, k: nat): nat
    requires k > 0
  {
    var guard, rest := Shr(s, k - 1) % 2, Low(s, k - 1);
    var i := Shr(s, k);
    if guard == 0 && rest == 0 then i
    else if AwayFromZero(mode, sign) then i + 1
    else if mode.Nearest? && guard == 1 && (rest != 0 || i % 2 == 1) then i + 1
    else i
  }

  /** Bit k - 1 and the bits below it. */
  lemma GuardAndRest(s: nat, k: nat)
    requires k > 0
    ensures Low(s, k) == Low(s, k - 1) + if Shr(s, k - 1) % 2 == 0 then 0 else Pow2(k - 1)
    ensures Low(s, k - 1) < Pow2(k - 1)
  {
    LowSucc(s, k - 1);
    LowBound(s, k - 1);
  }

  /** z's place in [n, n + 1), read off y = 2^k * z. */
  lemma FractionScaled(n: nat, k: nat, y: real, z: real)
    requires k > 0 && y == Scale(z, k)
    ensures y < Shl(n, k) as real <==> z < n as real
    ensures y == Shl(n, k) as real <==> z == n as real
    ensures y < Shl(n, k) as real + Pow2(k - 1) as real <==> z < n as real + 0.5
    ensures y == Shl(n, k) as real + Pow2(k - 1) as real <==> z == n as real + 0.5
    ensures y < Shl(n, k) as real + Pow2(k) as real <==> z < n as real + 1.0
  {
    ScaleNat(n, k);
    ScalePow2(k);
    ScaleLinear(n as real, 0.5, k);
    ScaleLinear(n as real, 1.0, k);
    ScaleMono(z, n as real, k);
    ScaleMono(z, n as real + 0.5, k);
    ScaleMono(z, n as real + 1.0, k);
  }

  /** Rounding a stand-in is rounding what it stands for. */
  lemma RoundShiftCorrect(mode: Mode, sign: bool, s: nat, k: nat, y: real, z: real)
    requires k > 0 && Stands(s, k - 1, y) && y == Scale(z, k)
    ensures RoundShift(mode, sign, s, k) == RoundInt(mode, sign, z)
    ensures Low(s, k) == 0 <==> z == RoundShift(mode, sign, s, k) as real
    ensures RoundShift(mode, sign, s, k) > Shr(s, k) <==> RoundShift(mode, sign, s, k) as real > z
  {
    GuardAndRest(s, k);
    ShrLow(s, k);
    FractionScaled(Shr(s, k), k, y, z);
    assert z.Floor == Shr(s, k);
  }

  // ---- moves that keep Stands ----

  lemma StandsDouble(s: nat, g: nat, y: real)
    requires Stands(s, g, y)
    ensures Stands(2 * s, g + 1, 2.0 * y)
  {
    assert (2 * s) / 2 == s;
  }

  lemma {:induction false} StandsShl(s: nat, g: nat, j: nat, y: real)
    requires Stands(s, g, y)
    ensures Stands(Shl(s, j), g + j, Scale(y, j))
    decreases j
  {
    if j > 0 {
      StandsShl(s, g, j - 1, y);
      StandsDouble(Shl(s, j - 1), g + j - 1, Scale(y, j - 1));
    }
  }

  /** h with anything lost below it jammed into its last bit. */
  function Jam(h: nat, lost: bool): nat { if lost && h % 2 == 0 then h + 1 else h }

  /** s shifted right by j, any bit lost jammed into the last one kept. */
  function Sticky(s: nat, j: nat): nat { Jam(Shr(s, j), Low(s, j) != 0) }

  lemma StickyOne(s: nat)
    ensures Sticky(s, 1) == if s % 2 == 1 && s / 2 % 2 == 0 then s / 2 + 1 else s / 2
  {
    OneBit(s);
  }

  lemma OneBit(s: nat)
    ensures Shr(s, 1) == s / 2 && Low(s, 1) == s % 2 && Shr(s, 0) == s && Low(s, 0) == 0
  {
    LowSucc(s, 0);
    assert Shr(s, 0) == s && Low(s, 0) == 0 && Pow2(0) == 1;
  }

  lemma StickySucc(s: nat, j: nat)
    ensures Sticky(s, j + 1) == Sticky(Sticky(s, j), 1)
  {
    LowSucc(s, j);
    StickyOne(Sticky(s, j));
  }

  lemma StandsStickyOne(s: nat, t: nat, y: real)
    requires t > 0 && Stands(s, t + 1, y)
    ensures Stands(Sticky(s, 1), t, y / 2.0)
  {
    var h := s / 2;
    StickyOne(s);
    assert Low(s, t + 1) == 2 * Low(h, t) + s % 2;
    if h % 2 == 0 {
      assert Low(h + 1, t) == Low(h, t) + 1;
    }
  }

  /** A sticky shift keeps standing for the number, scaled, as long as a bit is left below the rounding point. */
  lemma {:induction false} StandsSticky(s: nat, j: int, t: nat, y: real)
    requires j >= 0 && t > 0 && Stands(s, j + t, y)
    ensures Stands(Sticky(s, j), t, Scale(y, -j))
    decreases j
  {
    if j > 0 {
      StandsSticky(s, j - 1, t + 1, y);
      StickySucc(s, j - 1);
      StandsStickyOne(Sticky(s, j - 1), t, Scale(y, 1 - j));
    }
  }

  /** A rounding shift of an integer is its exact quotient by 2^k, rounded, with the right inexactness and direction. */
  lemma RoundShiftExact(mode: Mode, sign: bool, i: nat, k: int, z: real)
    requires k > 0 && z == Scale(i as real, -k)
    ensures var n := RoundShift(mode, sign, i, k);
            && n == RoundInt(mode, sign, z)
            && (Low(i, k) == 0 <==> z == n as real)
            && (n > Shr(i, k) <==> n as real > z)
  {
    ScaleAdd(i as real, -k, k);
    StandsCoarser(i, 0, k - 1, i as real);
    RoundShiftCorrect(mode, sign, i, k, i as real, z);
  }

  lemma StickyShiftExact(mode: Mode, sign: bool, i: nat, j: int, k: int, z: real)
    requires j >= 0 && k >= 2 && z == Scale(i as real, -(j + k))
    ensures var s := Sticky(i, j);
            var n := RoundShift(mode, sign, s, k);
            && n == RoundInt(mode, sign, z)
            && (Low(s, k) == 0 <==> z == n as real)
            && (n > Shr(s, k) <==> n as real > z)
  {
    StandsCoarser(i, 0, j + k - 1, i as real);
    StandsSticky(i, j, k - 1, i as real);
    ScaleAdd(i as real, -(j + k), k);
    RoundShiftCorrect(mode, sign, Sticky(i, j), k, Scale(i as real, -j), z);
  }

  /** A sticky shift followed by a rounding shift of two bits or more rounds once: the same integer, the same
      inexactness, the same direction as one rounding shift of the whole distance. */
  lemma NoDoubleRounding(mode: Mode, sign: bool, i: nat, j: int, k: int)
    requires j >= 0 && k >= 2
    ensures var once, twice := RoundShift(mode, sign, i, j + k), RoundShift(mode, sign, Sticky(i, j), k);
            && twice == once
            && (Low(Sticky(i, j), k) == 0 <==> Low(i, j + k) == 0)
            && (twice > Shr(Sticky(i, j), k) <==> once > Shr(i, j + k))
  {
    var z := Scale(i as real, -(j + k));
    RoundShiftExact(mode, sign, i, j + k, z);
    StickyShiftExact(mode, sign, i, j, k, z);
  }

  /** Whether a rounding shift goes up, from the guard bit, whether anything is below it, and the parity above it. */
  predicate RoundsUp(mode: Mode, sign: bool, guard: bool, rest: bool, odd: bool) {
    (guard || rest) && (AwayFromZero(mode, sign) || (mode.Nearest? && guard && (rest || odd)))
  }

  /** h without its last bit, rounded on that bit and on whether anything was lost below it. */
  function RoundedHalf(mode: Mode, sign: bool, h: nat, rest: bool): nat {
    h / 2 + if RoundsUp(mode, sign, h % 2 == 1, rest, h / 2 % 2 == 1) then 1 else 0
  }

  lemma RoundShiftAsHalf(mode: Mode, sign: bool, i: nat, j: nat)
    ensures RoundShift(mode, sign, i, j + 1) == RoundedHalf(mode, sign, Shr(i, j), Low(i, j) != 0)
  {
    LowSucc(i, j);
  }

  /** The last bit and the parity above it, before and after jamming, and the directions they give. */
  lemma JammedDirection(mode: Mode, sign: bool, last: bool, above: bool, lost: bool)
    ensures RoundsUp(mode, sign, last || lost, false, above) == RoundsUp(mode, sign, last, lost, above) <==>
            !(mode.Nearest? && lost && last != above)
  {
  }

  lemma LastTwoBits(h: nat)
    ensures h % 4 in {1, 2} <==> (h % 2 == 1) != (h / 2 % 2 == 1)
  {
    assert h % 4 == 2 * (h / 2 % 2) + h % 2;
  }

  lemma JamBits(h: nat, lost: bool)
    ensures Jam(h, lost) / 2 == h / 2 && (Jam(h, lost) % 2 == 1 <==> h % 2 == 1 || lost)
  {
  }

  /** Jamming changes the rounded half in exactly two of the four cases of the last two bits, to nearest only. */
  lemma JammedHalf(mode: Mode, sign: bool, h: nat, lost: bool, once: nat, twice: nat)
    requires once == RoundedHalf(mode, sign, h, lost) && twice == RoundedHalf(mode, sign, Jam(h, lost), false)
    ensures twice == once <==> !(mode.Nearest? && lost && h % 4 in {1, 2})
  {
    JamBits(h, lost);
    JammedDirection(mode, sign, h % 2 == 1, h / 2 % 2 == 1, lost);
    LastTwoBits(h);
  }

  lemma StickyByOne(mode: Mode, sign: bool, i: nat, j: nat)
    ensures RoundShift(mode, sign, Sticky(i, j), 1) == RoundedHalf(mode, sign, Jam(Shr(i, j), Low(i, j) != 0), false)
  {
    RoundShiftAsHalf(mode, sign, Sticky(i, j), 0);
    OneBit(Sticky(i, j));
  }

  /** With a single bit left for the rounding shift, the two shifts agree with one exactly when rounding is not to
      nearest, nothing was jammed, or the last two bits kept are 00 or 11. */
  lemma OneBitRoundsOnceIff(mode: Mode, sign: bool, i: nat, j: nat)
    ensures RoundShift(mode, sign, Sticky(i, j), 1) == RoundShift(mode, sign, i, j + 1) <==>
            !(mode.Nearest? && Low(i, j) != 0 && Shr(i, j) % 4 in {1, 2})
  {
    var once, twice := RoundShift(mode, sign, i, j + 1), RoundShift(mode, sign, Sticky(i, j), 1);
    StickyByOne(mode, sign, i, j);
    RoundShiftAsHalf(mode, sign, i, j);
    JammedHalf(mode, sign, Shr(i, j), Low(i, j) != 0, once, twice);
  }

  /** An instance: 3 shifted by 1 and then rounded by 1 gives 0, rounded by 2 at once it gives 1. */
  lemma OneBitIsNotEnough()
    ensures RoundShift(Nearest, false, Sticky(3, 1), 1) == 0 && RoundShift(Nearest, false, 3, 2) == 1
  {
    StickyOne(3);
    assert Shr(3, 2) == Shr(1, 1) == 0 && Shr(3, 1) == 1 && Low(3, 1) == 1 && Shr(1, 0) == 1;
  }
}
