/** f80_sqrt: an integer root, a half bit and a sticky bit, which together round like the real root. */
module SquareRoot {
  import opened Powers
  import opened Rounding
  import opened StickyBits
  import opened Float80s
  import opened Normalize
  import opened Operands
  import opened Multiplication
  import Exactness

  // ---- the integer root ----

  /** floor(sqrt(n)) and the remainder, from whatever root the host's double arithmetic suggests and whatever
      correction it then makes. */
  method IntegerRoot(n: U128, estimate: U64, delta: int) returns (r: U64, rem: nat)
    ensures r * r <= n < (r + 1) * (r + 1)
    ensures rem == n - r * r
  {
    if n == 0 {
      return 0, 0;
    }
    r := estimate;
    if r != 0 {
      if delta > 0 && r > Pow2(W) - 1 - delta {
        r := Pow2(W) - 1;
      } else {
        r := (r + delta) % Pow2(W);
      }
    }
    while r * r > n
      decreases r
    {
      r := r - 1;
    }
    Pow2Add(W, W);
    while r != Pow2(W) - 1 && (r + 1) * (r + 1) <= n
      invariant r * r <= n
      decreases Pow2(W) - r
    {
      r := r + 1;
    }
    rem := n - r * r;
  }

  lemma RootUnique(n: nat, r: nat, r': nat)
    requires r * r <= n < (r + 1) * (r + 1)
    requires r' * r' <= n < (r' + 1) * (r' + 1)
    ensures r == r'
  {
    if r < r' { MulLe(r + 1, r + 1, r', r'); }
    if r' < r { MulLe(r' + 1, r' + 1, r, r); }
  }

  lemma RootAtLeast(n: nat, r: nat, k: nat)
    requires n < (r + 1) * (r + 1) && n >= Pow2(2 * k)
    ensures r >= Pow2(k)
  {
    Pow2Add(k, k);
    SquareAtLeast(n, r, Pow2(k));
  }

  lemma SquareAtLeast(n: nat, r: nat, p: nat)
    requires n < (r + 1) * (r + 1) && n >= p * p
    ensures r >= p
  {
    if r + 1 <= p { MulLe(r + 1, r + 1, p, p); }
  }

  // ---- half a unit below its last bit is all rounding needs ----

  /** The root r with, below its last bit, the half bit and whether anything is there at all. */
  function RootBits(r: nat, rem: nat): nat {
    Shl(r, W) + if rem == 0 then 0 else if rem > r then 3 * Pow2(W - 2) else 1
  }

  lemma SquareCompare(s: real, t: real)
    requires s >= 0.0 && t >= 0.0
    ensures s < t <==> Times(s, s) < Times(t, t)
    ensures s == t <==> Times(s, s) == Times(t, t)
  {
    if s < t { SquareLess(s, t); } else if t < s { SquareLess(t, s); }
  }

  lemma SquareLess(s: real, t: real)
    requires 0.0 <= s < t
    ensures Times(s, s) < Times(t, t)
  {
    MulSign(t - s, t);
    assert (t - s) * s >= 0.0;
    assert (t - s) * t + (t - s) * s == t * t - s * s;
  }

  /** The exact root lies at r, in the lower half of (r, r + 1), or in the upper half; never in the middle. */
  lemma RootPlace(n: nat, r: nat, rem: nat, s: real)
    requires s >= 0.0 && Times(s, s) == n as real
    requires n == r * r + rem && n < (r + 1) * (r + 1)
    ensures rem == 0 ==> s == r as real
    ensures 0 < rem <= r ==> r as real < s < r as real + 0.5
    ensures rem > r ==> r as real + 0.5 < s < r as real + 1.0
  {
    var t := r as real;
    SquareCompare(s, t);
    SquareCompare(t, s);
    SquareCompare(s, t + 0.5);
    SquareCompare(t + 0.5, s);
    SquareCompare(s, t + 1.0);
    assert Times(t, t) == (r * r) as real;
    assert Times(t + 0.5, t + 0.5) == Times(t, t) + t + 0.25;
    assert Times(t + 1.0, t + 1.0) == ((r + 1) * (r + 1)) as real;
  }

  lemma RootBitsLow(r: nat, rem: nat)
    ensures Low(RootBits(r, rem), W - 1) == if rem == 0 then 0 else if rem > r then Pow2(W - 2) else 1
    ensures RootBits(r, rem) - Low(RootBits(r, rem), W - 1) ==
      Shl(if rem > r && rem != 0 then 2 * r + 1 else 2 * r, W - 1)
  {
    var low := if rem == 0 then 0 else if rem > r then Pow2(W - 2) else 1;
    var c := if rem > r && rem != 0 then 2 * r + 1 else 2 * r;
    ShlSum(2 * r, 1, W - 1);
    ShlOne(0, W - 1);
    ShlAdd(r, 1, W - 1);
    Pow2Mono(1, W - 1);
    ShrUnique(RootBits(r, rem), W - 1, c, low);
  }

  lemma RootStands(n: nat, r: nat, rem: nat, s: real)
    requires s >= 0.0 && Times(s, s) == n as real
    requires n == r * r + rem && n < (r + 1) * (r + 1)
    ensures Stands(RootBits(r, rem), W - 1, Scale(s, W))
  {
    RootPlace(n, r, rem, s);
    RootBitsLow(r, rem);
    ScaleNat(r, W);
    var c := if rem > r && rem != 0 then 2 * r + 1 else 2 * r;
    HalfPlaces(c, s);
    if rem == 0 { ShlAdd(r, 1, W - 1); }
  }

  lemma HalfPlaces(c: nat, s: real)
    ensures Shl(c, W - 1) as real < Scale(s, W) <==> c as real / 2.0 < s
    ensures Scale(s, W) < (Shl(c, W - 1) + Pow2(W - 1)) as real <==> s < c as real / 2.0 + 0.5
  {
    ScaleNat(c, W - 1);
    ScaleSucc(s, W - 1);
    ScaleMono(c as real, 2.0 * s, W - 1);
    ScaleMono(2.0 * s, c as real + 1.0, W - 1);
    ScaleLinear(s, s, W - 1);
    ScaleLinear(c as real, 1.0, W - 1);
    ScalePow2(W - 1);
  }

  /** x's magnitude as n * 2^(2 * half) with n's leading bit in its top two. */
  lemma RootOperand(x: Float80, n: nat, half: int)
    requires x.signif > 0
    requires var z := Clz64(x.signif);
             var e := UnbiasDenormal(x.exp) - W + 1 - z;
             if e % 2 == 1 then n == Shl(Shl(x.signif, z), W - 1) && half == (e - W + 1) / 2
             else n == Shl(Shl(x.signif, z), W) && half == (e - W) / 2
    ensures Mag(x) == Scale(n as real, 2 * half)
    ensures Pow2(2 * W - 2) <= n < Pow2(2 * W)
  {
    var z := Clz64(x.signif);
    var e := UnbiasDenormal(x.exp) - W + 1 - z;
    var m := Shl(x.signif, z);
    var k := if e % 2 == 1 then W - 1 else W;
    Normalized(x);
    assert k % 2 == e % 2 && 2 * half == e - k;
    ScaleShl(m, k, 2 * half);
    ShlBelow(m, W, k);
    ShlBelow(m, W - 1, k);
    Pow2Mono(W + k, 2 * W);
    Pow2Mono(2 * W - 2, W - 1 + k);
  }

  lemma RootRepresented(n: nat, half: int, r: nat, rem: nat, s: real, m: real, extra: nat)
    requires s > 0.0 && Times(s, s) == m && m == Scale(n as real, 2 * half)
    requires n == r * r + rem && n < (r + 1) * (r + 1)
    requires Pow2(TOP) <= RootBits(r, rem) < Pow2(2 * W)
    ensures Represents(RootBits(r, rem), half + W - 1, W - 1, s, extra)
  {
    var s' := Scale(s, -half);
    ScaleTimes(s, -half, s, -half);
    ScaleAdd(n as real, 2 * half, -half - half);
    ScalePositive(s, -half);
    RootStands(n, r, rem, s');
    ScaleAdd(s, -half, W);
    ClzAtMost(RootBits(r, rem), 0);
  }

  /** The bits given to rounding represent themselves. */
  lemma RootBitsThemselves(b: U128, exp: int, extra: nat) returns (v: real)
    requires b >= Pow2(TOP)
    ensures v == Scale(b as real, exp - TOP) && v > 0.0 && Represents(b, exp, W - 1, v, extra)
  {
    v := Scale(b as real, exp - TOP);
    ScaleAdd(b as real, exp - TOP, TOP - exp);
    ScalePositive(b as real, exp - TOP);
    LowBound(b, W - 1);
    ClzAtMost(b, 0);
  }

  lemma RootBitsSize(n: nat, r: nat, rem: nat)
    requires Pow2(2 * W - 2) <= n < (r + 1) * (r + 1) && r < Pow2(W)
    ensures Pow2(TOP) <= RootBits(r, rem) < Pow2(2 * W)
  {
    RootAtLeast(n, r, W - 1);
    ShlBelow(r, W - 1, W);
    ShlMono(r, Pow2(W) - 1, W);
    AllOnes(W, W);
  }

  // ---- the same without a real root to name ----

  ghost function Multiple(k: nat, place: int): real { Scale(k as real, place) }

  /** v lies beside t as the square root of m does. */
  ghost predicate Alike(v: real, m: real, t: real) {
    (t < v <==> Times(t, t) < m) && (t == v <==> Times(t, t) == m)
  }

  /** v lies among the multiples of 2^place as the square root of m does. */
  ghost predicate RootsAlike(v: real, m: real, place: int) {
    forall k: nat :: Alike(v, m, Multiple(k, place))
  }

  /** The root of m rounded to n * 2^q, in squares alone: the squares of the points beside it enclose m. */
  lemma RootInSquares(mode: Mode, m: real, v: real, n: nat, q: int)
    requires v > 0.0 && n == RoundAt(mode, false, v, q) && RootsAlike(v, m, q - 1)
    ensures mode.Down? || mode.Chop? ==> Square(2 * n, q - 1) <= m < Square(2 * n + 2, q - 1)
    ensures mode.Up? ==> m <= Square(2 * n, q - 1) && (n > 0 ==> Square(2 * n - 2, q - 1) < m)
    ensures mode.Nearest? ==> m <= Square(2 * n + 1, q - 1) && (n > 0 ==> Square(2 * n - 1, q - 1) <= m)
    ensures mode.Nearest? && n > 0 && (m == Square(2 * n + 1, q - 1) || m == Square(2 * n - 1, q - 1)) ==> n % 2 == 0
  {
    ScalePositive(v, -q);
    RoundedBeside(mode, Scale(v, -q));
    BesideRoot(m, v, 2 * n, q); BesideRoot(m, v, 2 * n + 2, q); BesideRoot(m, v, 2 * n + 1, q);
    if n > 0 { BesideRoot(m, v, 2 * n - 2, q); BesideRoot(m, v, 2 * n - 1, q); }
  }

  lemma RoundedBeside(mode: Mode, z: real)
    requires z >= 0.0
    ensures var n := (2 * RoundInt(mode, false, z)) as real;
            && (mode.Down? || mode.Chop? ==> n <= 2.0 * z < n + 2.0) && (mode.Up? ==> n - 2.0 < 2.0 * z <= n)
            && (mode.Nearest? ==> n - 1.0 <= 2.0 * z <= n + 1.0)
    ensures mode.Nearest? && Abs(2.0 * z - (2 * RoundInt(mode, false, z)) as real) == 1.0 ==>
            RoundInt(mode, false, z) % 2 == 0
  {
    RoundIntDirected(mode, false, z);
  }

  /** The square of the k-th multiple of 2^place. */
  ghost function Square(k: nat, place: int): real { Times(Multiple(k, place), Multiple(k, place)) }

  lemma BesideRoot(m: real, v: real, k: nat, q: int)
    requires RootsAlike(v, m, q - 1)
    ensures Square(k, q - 1) < m <==> k as real < 2.0 * Scale(v, -q)
    ensures Square(k, q - 1) == m <==> k as real == 2.0 * Scale(v, -q)
  {
    assert Alike(v, m, Multiple(k, q - 1));
    ScaleMove(k as real, v, q - 1);
    ScaleSucc(v, -q);
  }

  lemma RootBitsCompare(n: nat, r: nat, rem: nat, k: nat)
    requires n == r * r + rem && n < (r + 1) * (r + 1)
    ensures Shl(k, W - 1) < RootBits(r, rem) <==> k * k < 4 * n
    ensures Shl(k, W - 1) == RootBits(r, rem) <==> k * k == 4 * n
  {
    RootBitsLow(r, rem);
    var b, low := RootBits(r, rem), Low(RootBits(r, rem), W - 1);
    var c := if rem > r && rem != 0 then 2 * r + 1 else 2 * r;
    LowBound(b, W - 1);
    ShlMono(k, c, W - 1);
    ShlMono(k, c + 1, W - 1);
    ShlSum(c, 1, W - 1); ShlOne(0, W - 1);
    RootSquares(n, r, rem, k);
  }

  lemma RootSquares(n: nat, r: nat, rem: nat, k: nat)
    requires n == r * r + rem && n < (r + 1) * (r + 1)
    ensures var c := if rem > r && rem != 0 then 2 * r + 1 else 2 * r;
            && (k * k < 4 * n <==> k < c || (k == c && rem != 0))
            && (k * k == 4 * n <==> k == c && rem == 0)
  {
    var c := if rem > r && rem != 0 then 2 * r + 1 else 2 * r;
    if k <= c { MulLe(k, k, c, c); }
    if k < c { MulLess(k, k, c, c); }
    if k > c { MulLe(c + 1, c + 1, k, k); }
    assert (2 * r) * (2 * r) == 4 * (r * r);
    assert (2 * r + 1) * (2 * r + 1) == 4 * (r * r) + 4 * r + 1;
    assert (2 * r + 2) * (2 * r + 2) == 4 * ((r + 1) * (r + 1));
  }

  lemma SquareOfMultiple(k: nat, place: int)
    ensures Times(Multiple(k, place), Multiple(k, place)) == Scale((k * k) as real, 2 * place)
  {
    ScaleTimes(k as real, place, k as real, place);
    assert Times(k as real, k as real) == (k * k) as real;
  }

  lemma ScaleFour(n: nat, e: int)
    ensures Scale(n as real, e) == Scale((4 * n) as real, e - 2)
  {
    DoubleScale(n, e - 1);
    DoubleScale(2 * n, e - 2);
  }

  lemma AlikeFromBits(b: nat, k: nat, kk: nat, n: nat, half: int)
    requires (Shl(k, W - 1) < b <==> kk < 4 * n) && (Shl(k, W - 1) == b <==> kk == 4 * n)
    requires Times(Multiple(k, half - 1), Multiple(k, half - 1)) == Scale(kk as real, 2 * half - 2)
    ensures Alike(Scale(b as real, half - W), Scale(n as real, 2 * half), Multiple(k, half - 1))
  {
    ScaleShl(k, W - 1, half - W);
    ScaleMono(Shl(k, W - 1) as real, b as real, half - W);
    ScaleFour(n, 2 * half);
    ScaleMono(kk as real, (4 * n) as real, 2 * half - 2);
  }

  lemma RootStandIn(n: nat, half: int, r: nat, rem: nat, k: nat)
    requires n == r * r + rem && n < (r + 1) * (r + 1)
    ensures Alike(Scale(RootBits(r, rem) as real, half - W), Scale(n as real, 2 * half), Multiple(k, half - 1))
  {
    RootBitsCompare(n, r, rem, k);
    SquareOfMultiple(k, half - 1);
    AlikeFromBits(RootBits(r, rem), k, k * k, n, half);
  }

  lemma RootsAlikeAt(n: nat, half: int, r: nat, rem: nat, place: int)
    requires n == r * r + rem && n < (r + 1) * (r + 1) && place >= half - 1
    ensures RootsAlike(Scale(RootBits(r, rem) as real, half - W), Scale(n as real, 2 * half), place)
  {
    forall k: nat
      ensures Alike(Scale(RootBits(r, rem) as real, half - W), Scale(n as real, 2 * half), Multiple(k, place))
    {
      ScaleShl(k, place - (half - 1), half - 1);
      RootStandIn(n, half, r, rem, Shl(k, place - (half - 1)));
    }
  }

  /** r is the correctly rounded root of the magnitude m. The root is named twice over: by a number v that no
      point rounding looks at can tell from it, and as whatever real number s has the square m. */
  ghost predicate CorrectRoot(fmt: Format, mode: Mode, m: real, v: real, r: Float80, o: Outcome) {
    && v > 0.0 && o == Round(fmt, mode, false, v) && Delivers(r, false, o.mag)
    && StandsForRoot(fmt, mode, m, v)
  }

  /** Rounding cannot tell v from the root of m. */
  ghost predicate StandsForRoot(fmt: Format, mode: Mode, m: real, v: real)
    requires v > 0.0
  {
    && RootsAlike(v, m, Quantum(fmt, v) - 1)
    && forall s: real :: s > 0.0 && Times(s, s) == m ==> Round(fmt, mode, false, s) == Round(fmt, mode, false, v)
  }

  lemma RootsRoundAlike(n: nat, half: int, r: nat, rem: nat, v: real, m: real, extra: nat, mode: Mode)
    requires extra <= 40 && m == Scale(n as real, 2 * half)
    requires n == r * r + rem && n < (r + 1) * (r + 1)
    requires Pow2(TOP) <= RootBits(r, rem) < Pow2(2 * W)
    requires v == Scale(RootBits(r, rem) as real, half - W)
    requires Represents(RootBits(r, rem), half + W - 1, W - 1, v, extra)
    ensures RootsAlike(v, m, Quantum(X87(W - extra), v) - 1)
    ensures forall s: real :: s > 0.0 && Times(s, s) == m ==>
              Round(X87(W - extra), mode, false, s) == Round(X87(W - extra), mode, false, v)
  {
    ExponentRepresented(RootBits(r, rem), half + W - 1, W - 1, v, extra);
    ClzAtMost(RootBits(r, rem), 0);
    RootsAlikeAt(n, half, r, rem, Quantum(X87(W - extra), v) - 1);
    forall s: real | s > 0.0 && Times(s, s) == m
      ensures Round(X87(W - extra), mode, false, s) == Round(X87(W - extra), mode, false, v)
    {
      RootRepresented(n, half, r, rem, s, m, extra);
      RoundDetermined(RootBits(r, rem), half + W - 1, W - 1, s, W - 1, v, extra, mode, false);
    }
  }

  /** The significand to round, its exponent, and the number v it is exactly. */
  method RootSignificand(x: Float80, estimate: U64, delta: int, ghost extra: nat, ghost fmt: Format, ghost mode: Mode)
    returns (signif: U128, exp: int, ghost v: real)
    requires x.signif > 0 && extra <= 40 && fmt == X87(W - extra)
    ensures signif > 0 && v > 0.0 && Represents(signif, exp, W - 1, v, extra)
    ensures StandsForRoot(fmt, mode, Mag(x), v)
  {
    var z := Clz64(x.signif);
    var m := Shl(x.signif, z);
    var e := UnbiasDenormal(x.exp) - W + 1 - z;
    var n := if e % 2 == 1 then Shl(m, W - 1) else Shl(m, W);
    var half := if e % 2 == 1 then (e - W + 1) / 2 else (e - W) / 2;
    RootOperand(x, n, half);
    var r, rem := IntegerRoot(n, estimate, delta);
    RootBitsSize(n, r, rem);
    signif, exp := RootBits(r, rem), half + W - 1;
    v := RootBitsThemselves(signif, exp, extra);
    RootsRoundAlike(n, half, r, rem, v, Mag(x), extra, mode);
  }

  /** The root of a positive finite number: a v that rounding cannot tell from it, rounded. */
  method SqrtFinite(env: Env, x: Float80, estimate: U64, delta: int) returns (f: Float80, ghost v: real)
    requires Ordinary(x) && !x.sign && !IsZero(x)
    modifies env
    ensures v > 0.0 && StandsForRoot(X87(old(env.P())), old(env.mode), Mag(x), v)
    ensures RoundsTo(env, f, v)
  {
    var signif, exp;
    ghost var fmt := X87(env.P());
    signif, exp, v := RootSignificand(x, estimate, delta, PrecisionExtra(env.precision), fmt, env.mode);
    f := RoundPositive(env, signif, exp, v);
  }

  method RoundPositive(env: Env, signif: U128, exp: int, ghost v: real) returns (f: Float80)
    requires signif > 0 && v > 0.0 && Represents(signif, exp, W - 1, v, PrecisionExtra(env.precision))
    modifies env
    ensures RoundsTo(env, f, v)
  {
    f := NormalizeRound(env, signif, exp, false, v, W - 1);
  }

  /** f80_sqrt, whatever the host's estimate of the integer root and however the first correction goes. */
  method Sqrt(env: Env, x: Float80, estimate: U64, delta: int) returns (r: Float80, ghost v: real, ghost o: Outcome)
    modifies env
    ensures Ordinary(x) && !IsZero(x) && !x.sign ==>
              && CorrectRoot(X87(env.P()), env.mode, Mag(x), v, r, o)
              && env.RaisedWith(o, if IsDenormal(x) then {Denormal} else {})
    ensures IsSupported(x) && (IsZero(x) || (IsInf(x) && !x.sign)) ==> r == x && env.Only({})
    ensures IsSupported(x) && !IsNaN(x) && !IsZero(x) && x.sign ==> r == INDEFINITE && env.Only({Invalid})
    ensures !IsSupported(x) ==> r == INDEFINITE && env.Only({Invalid})
    ensures IsSupported(x) && IsNaN(x) ==> r == Quiet(x) && env.Only(if IsSNaN(x) then {Invalid} else {})
  {
    v, o := 0.0, Overflowed(X87(env.P()), env.mode, x.sign);
    if !IsSupported(x) {
      env.exceptions := env.exceptions + {Invalid};
      r := INDEFINITE;
      return;
    }
    if IsZero(x) {
      r := x;
      return;
    }
    if IsNaN(x) {
      if IsSNaN(x) {
        env.exceptions := env.exceptions + {Invalid};
        r := Quiet(x);
        return;
      }
      r := x;
      return;
    }
    if x.sign {
      env.exceptions := env.exceptions + {Invalid};
      r := INDEFINITE;
      return;
    }
    if IsInf(x) {
      r := x;
      return;
    }
    if IsDenormal(x) {
      env.exceptions := env.exceptions + {Denormal};
    }
    r, v := SqrtFinite(env, x, estimate, delta);
    o := Round(X87(env.P()), env.mode, false, v);
  }

  /** A root that is itself a number of the precision in use comes out exactly, and nothing is raised. */
  lemma ExactRootRaisesNothing(p: nat, mode: Mode, m: real, v: real, r: Float80, o: Outcome, k: nat, q: int)
    requires p > 0 && CorrectRoot(X87(p), mode, m, v, r, o)
    requires 0 < k < Pow2(p) && q >= EMIN - p + 1 && 0.0 < Scale(k as real, q) < Scale(1.0, EMAX + 1)
    requires Times(Scale(k as real, q), Scale(k as real, q)) == m
    ensures !o.inexact && !o.up && !o.overflow && !o.underflow && Mag(r) == Scale(k as real, q)
  {
    var s := Scale(k as real, q);
    Exactness.RoundExact(X87(p), mode, false, k, q, s);
    assert Round(X87(p), mode, false, s) == o;
  }
}
