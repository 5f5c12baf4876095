/** Powers of two, and scaling by them: on naturals as shifts, on reals as Scale.
    Every operation is defined by doubling and halving. */
module Powers {

  function Pow2(n: nat): (r: nat)
    ensures r > 0
  {
    if n == 0 then 1 else 2 * Pow2(n - 1)
  }

  /** s << n */
  function Shl(s: nat, n: nat): nat {
    if n == 0 then s else 2 * Shl(s, n - 1)
  }

  /** s >> n */
  function Shr(s: nat, n: nat): nat {
    if n == 0 then s else Shr(s / 2, n - 1)
  }

  /** The low n bits of s: s & ((1 << n) - 1) */
  function Low(s: nat, n: nat): nat {
    if n == 0 then 0 else 2 * Low(s / 2, n - 1) + s % 2
  }

  /** x * 2^e, for any integer e. */
  ghost function Scale(x: real, e: int): real
    decreases if e < 0 then -e else e
  {
    if e == 0 then x else if e > 0 then 2.0 * Scale(x, e - 1) else Scale(x, e + 1) / 2.0
  }

  /** x * y, named so that a contract about a product is matched as one term. */
  ghost function Times(x: real, y: real): real { x * y }
  function Prod(a: int, b: int): int { a * b }

  // ---- naturals ----

  lemma {:induction false} Pow2Add(a: nat, b: nat)
    ensures Pow2(a + b) == Pow2(a) * Pow2(b)
  {
    if a > 0 {
      Pow2Add(a - 1, b);
      assert Pow2(a + b) == 2 * (Pow2(a - 1) * Pow2(b));
    }
  }

  lemma {:induction false} Pow2Mono(a: nat, b: nat)
    requires a <= b
    ensures Pow2(a) <= Pow2(b)
    ensures a < b ==> 2 * Pow2(a) <= Pow2(b)
  {
    if a < b { Pow2Mono(a, b - 1); }
  }

  lemma {:induction false} ShlPow2(s: nat, n: nat)
    ensures Shl(s, n) == s * Pow2(n)
    decreases n
  {
    if n > 0 { ShlPow2(s, n - 1); }
  }

  lemma {:induction false} ShlAdd(s: nat, a: nat, b: nat)
    ensures Shl(Shl(s, a), b) == Shl(s, a + b)
    decreases b
  {
    if b > 0 { ShlAdd(s, a, b - 1); }
  }

  lemma {:induction false} ShlZero(n: nat)
    ensures Shl(0, n) == 0
  {
    if n > 0 { ShlZero(n - 1); }
  }

  lemma {:induction false} ShlSum(a: nat, b: nat, n: nat)
    ensures Shl(a + b, n) == Shl(a, n) + Shl(b, n)
  {
    if n > 0 { ShlSum(a, b, n - 1); }
  }

  lemma {:induction false} ShlMono(s: nat, t: nat, n: nat)
    ensures s < t <==> Shl(s, n) < Shl(t, n)
    ensures s == t <==> Shl(s, n) == Shl(t, n)
    decreases n
  {
    if n > 0 { ShlMono(s, t, n - 1); }
  }

  lemma {:induction false} ShlOne(a: nat, n: nat)
    ensures Shl(Pow2(a), n) == Pow2(a + n)
    decreases n
  {
    if n > 0 { ShlOne(a, n - 1); }
  }

  lemma ShlBelow(s: nat, a: nat, n: nat)
    ensures s < Pow2(a) <==> Shl(s, n) < Pow2(a + n)
  {
    ShlMono(s, Pow2(a), n);
    ShlOne(a, n);
  }

  lemma {:induction false} LowBound(s: nat, n: nat)
    ensures Low(s, n) < Pow2(n)
    ensures Low(s, n) <= s
    decreases n
  {
    if n > 0 { LowBound(s / 2, n - 1); }
  }

  lemma {:induction false} ShrLow(s: nat, n: nat)
    ensures s == Shl(Shr(s, n), n) + Low(s, n)
    decreases n
  {
    if n > 0 { ShrLow(s / 2, n - 1); }
  }

  /** A quotient and remainder by 2^n are the shift and the mask. */
  lemma {:induction false} ShrUnique(s: nat, n: nat, q: nat, r: nat)
    requires s == Shl(q, n) + r && r < Pow2(n)
    ensures Shr(s, n) == q && Low(s, n) == r
    decreases n
  {
    if n > 0 { ShrUnique(s / 2, n - 1, q, r / 2); }
  }

  /** The shifts and the mask in terms of multiplication and division. */
  lemma ShiftsDivide(s: nat, n: nat)
    ensures Shl(s, n) == s * Pow2(n) && Shr(s, n) == s / Pow2(n) && Low(s, n) == s % Pow2(n)
  {
    ShlPow2(s, n);
    ShrLow(s, n); LowBound(s, n);
    ShlPow2(Shr(s, n), n);
    DivideUnique(s, Pow2(n), Shr(s, n), Low(s, n));
  }

  lemma DivideUnique(s: nat, m: nat, q: nat, r: nat)
    requires r < m && s == r + q * m
    ensures s / m == q && s % m == r
  {
    var d := s / m - q;
    assert s == m * (s / m) + s % m;
    assert m * d == r - s % m by { assert m * d == m * (s / m) - q * m; }
    SmallMultiple(m, d);
  }

  lemma MulAtLeast(m: int, d: int)
    requires m > 0 && d >= 1
    ensures m * d >= m
  {
  }

  lemma SmallMultiple(m: int, d: int)
    requires m > 0 && -m < m * d < m
    ensures d == 0
  {
    if d > 0 { MulAtLeast(m, d); }
    if d < 0 { MulAtLeast(m, -d); NegatedProduct(m, d); }
  }

  lemma NegatedProduct(m: int, d: int)
    ensures m * -d == -(m * d)
  {
  }

  /** Scale is multiplication, or division, by a power of two. */
  lemma {:induction false} ScaleMultiplies(x: real, n: nat)
    ensures Scale(x, n) == x * Pow2(n) as real && Scale(x, 0 - n) * Pow2(n) as real == x
    decreases n
  {
    if n > 0 { ScaleMultiplies(x, n - 1); }
  }

  /** The powers the formats are made of, as numerals. */
  lemma Pow2InNumbers()
    ensures Pow2(8) == 0x100 && Pow2(16) == 0x1_0000 && Pow2(32) == 0x1_0000_0000
    ensures Pow2(62) == 0x4000_0000_0000_0000 && Pow2(63) == 0x8000_0000_0000_0000
    ensures Pow2(64) == 0x1_0000_0000_0000_0000
  {
    Pow2Squared(8, 0x100);
    Pow2Squared(16, 0x1_0000);
    Pow2Squared(32, 0x1_0000_0000);
    Pow2Halves(62);
  }

  lemma Pow2Squared(n: nat, r: nat)
    requires Pow2(n) == r
    ensures Pow2(2 * n) == r * r
  {
    Pow2Add(n, n);
  }

  lemma Pow2Halves(n: nat)
    ensures Pow2(n + 2) == 2 * Pow2(n + 1) && Pow2(n + 1) == 2 * Pow2(n)
  {
  }

  lemma {:induction false} ShrAdd(s: nat, a: nat, b: nat)
    ensures Shr(Shr(s, a), b) == Shr(s, a + b)
    decreases a
  {
    if a > 0 { ShrAdd(s / 2, a - 1, b); }
  }

  /** The (n+1) low bits are the n low bits and bit n. */
  lemma {:induction false} LowSucc(s: nat, n: nat)
    ensures Low(s, n + 1) == Low(s, n) + if Shr(s, n) % 2 == 0 then 0 else Pow2(n)
    ensures Shr(s, n + 1) == Shr(s, n) / 2
    decreases n
  {
    if n > 0 { LowSucc(s / 2, n - 1); }
  }

  lemma {:induction false} LowPow2(a: nat, n: nat)
    requires n <= a
    ensures Low(Pow2(a), n) == 0
    decreases n
  {
    if n > 0 { LowPow2(a - 1, n - 1); }
  }

  lemma {:induction false} ShrPow2(s: nat, n: nat, a: nat)
    ensures s < Pow2(n + a) <==> Shr(s, n) < Pow2(a)
    decreases n
  {
    if n > 0 { ShrPow2(s / 2, n - 1, a); }
  }

  /** A multiple m of 2^n never falls strictly inside the block of 2^n naturals that holds s. */
  lemma {:induction false} Aligned(s: nat, n: nat, m: nat)
    requires Low(m, n) == 0
    ensures m <= s - Low(s, n) || s - Low(s, n) + Pow2(n) <= m
    decreases n
  {
    if n > 0 { Aligned(s / 2, n - 1, m / 2); }
  }

  // ---- named products ----

  lemma MulSucc(a: int, b: int)
    ensures Prod(a + 1, b) == Prod(a, b) + b
    ensures Prod(b, a + 1) == Prod(b, a) + b
  {
  }

  lemma MulLe(a: int, b: int, c: int, d: int)
    requires 0 <= a <= c && 0 <= b <= d
    ensures 0 <= Prod(a, b) <= Prod(c, d)
  {
    assert a * b <= a * d;
    assert a * d <= c * d;
  }

  // ---- reals ----

  lemma ScaleSucc(x: real, e: int)
    ensures Scale(x, e + 1) == 2.0 * Scale(x, e)
  {
  }

  lemma {:induction false} ScaleAdd(x: real, a: int, b: int)
    ensures Scale(Scale(x, a), b) == Scale(x, a + b)
    decreases if b < 0 then -b else b
  {
    if b > 0 {
      ScaleAdd(x, a, b - 1);
      ScaleSucc(x, a + b - 1);
    } else if b < 0 {
      ScaleAdd(x, a, b + 1);
      ScaleSucc(x, a + b);
    }
  }

  lemma {:induction false} ScaleMono(x: real, y: real, e: int)
    ensures x < y <==> Scale(x, e) < Scale(y, e)
    ensures x == y <==> Scale(x, e) == Scale(y, e)
    decreases if e < 0 then -e else e
  {
    if e > 0 { ScaleMono(x, y, e - 1); } else if e < 0 { ScaleMono(x, y, e + 1); }
  }

  lemma {:induction false} ScaleLinear(x: real, y: real, e: int)
    ensures Scale(x + y, e) == Scale(x, e) + Scale(y, e)
    ensures Scale(x - y, e) == Scale(x, e) - Scale(y, e)
    decreases if e < 0 then -e else e
  {
    if e > 0 { ScaleLinear(x, y, e - 1); } else if e < 0 { ScaleLinear(x, y, e + 1); }
  }

  lemma {:induction false} ScaleZero(e: int)
    ensures Scale(0.0, e) == 0.0
    decreases if e < 0 then -e else e
  {
    if e > 0 { ScaleZero(e - 1); } else if e < 0 { ScaleZero(e + 1); }
  }

  lemma ScalePositive(x: real, e: int)
    ensures x > 0.0 <==> Scale(x, e) > 0.0
    ensures x == 0.0 <==> Scale(x, e) == 0.0
  {
    ScaleZero(e);
    ScaleMono(x, 0.0, e);
  }

  lemma {:induction false} ScaleMul(x: real, y: real, e: int)
    ensures Times(Scale(x, e), y) == Scale(Times(x, y), e)
    ensures Times(x, Scale(y, e)) == Scale(Times(x, y), e)
    decreases if e < 0 then -e else e
  {
    if e > 0 {
      ScaleMul(x, y, e - 1);
      TimesDouble(Scale(x, e - 1), y);
      TimesDouble(Scale(y, e - 1), x);
    } else if e < 0 {
      ScaleMul(x, y, e + 1);
      TimesDouble(Scale(x, e), y);
      TimesDouble(Scale(y, e), x);
    }
  }

  lemma TimesDouble(x: real, y: real)
    ensures Times(2.0 * x, y) == 2.0 * Times(x, y)
    ensures Times(y, 2.0 * x) == 2.0 * Times(y, x)
  {
  }

  lemma {:induction false} ScaleNat(s: nat, n: nat)
    ensures Scale(s as real, n) == Shl(s, n) as real
    decreases n
  {
    if n > 0 { ScaleNat(s, n - 1); }
  }

  lemma ScaleShl(s: nat, n: nat, e: int)
    ensures Scale(Shl(s, n) as real, e) == Scale(s as real, n + e)
  {
    ScaleNat(s, n);
    ScaleAdd(s as real, n, e);
  }

  lemma {:induction false} ScalePow2(n: nat)
    ensures Scale(1.0, n) == Pow2(n) as real
    ensures n > 0 ==> Scale(0.5, n) == Pow2(n - 1) as real
  {
    if n > 0 { ScalePow2(n - 1); }
  }

  lemma {:induction false} ScaleExpMono(x: real, a: int, b: int)
    requires x > 0.0 && a <= b
    ensures Scale(x, a) <= Scale(x, b)
    ensures a < b ==> 2.0 * Scale(x, a) <= Scale(x, b)
    decreases b - a
  {
    ScalePositive(x, a);
    if a < b {
      ScaleExpMono(x, a, b - 1);
      ScaleSucc(x, b - 1);
    }
  }

  /** Moving a power of two across a comparison. */
  lemma ScaleMove(x: real, y: real, e: int)
    ensures Scale(x, e) < y <==> x < Scale(y, -e)
    ensures Scale(x, e) == y <==> x == Scale(y, -e)
    ensures Scale(Scale(x, e), -e) == x
  {
    ScaleAdd(x, e, -e);
    ScaleMono(Scale(x, e), y, -e);
  }
}
