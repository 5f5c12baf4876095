/** f80_divlu: a 128-by-64 division from the hardware's 64-by-64 one. */
module FastDivision {
  import opened Powers
  import opened Float80s

  const B: nat := Pow2(HALF)

  lemma MulAtMost(b: int, a: int)
    requires b >= 0 && a <= -1
    ensures Prod(b, a) <= -b
  {
  }

  lemma MulRearranged(q: int, v1: int, b: int, v0: int)
    ensures Prod(q, Prod(v1, b) + v0) == Prod(Prod(q, v1), b) + Prod(q, v0)
  {
  }

  lemma MulMinus(u: int, r: int, b: int)
    ensures Prod(u - r, b) == Prod(u, b) - Prod(b, r)
  {
  }

  /** What the digit's correction test is about: q * v against the dividend. */
  lemma DigitIdentity(q: int, v: int, v1: int, v0: int, b: int, u: int, rhat: int)
    requires v == Prod(v1, b) + v0 && Prod(q, v1) + rhat == u
    ensures Prod(q, v) - Prod(u, b) == Prod(q, v0) - Prod(b, rhat)
  {
    MulRearranged(q, v1, b, v0);
    MulMinus(u, rhat, b);
  }

  /** The first guess is at most two too large. */
  lemma GuessBound(u: nat, v: nat, v1: nat, v0: nat, b: nat, q: nat)
    requires v == Prod(v1, b) + v0 && v0 < b <= 2 * v1 && u < v && Prod(q, v1) <= u
    ensures q <= b + 1
  {
    if q >= b + 2 {
      MulSucc(b, v1); MulSucc(b + 1, v1);
      MulLe(b + 2, v1, q, v1);
      MulComm(b, v1);
    }
  }

  lemma MulComm(a: int, b: int)
    ensures Prod(a, b) == Prod(b, a)
  {
  }

  lemma GuessAtLeast(u: nat, un: nat, v: nat, v1: nat, v0: nat, b: nat, q: nat, rhat: nat)
    requires v == Prod(v1, b) + v0 && un < b && Prod(q, v1) + rhat == u && rhat < v1
    ensures Prod(q + 1, v) > Prod(u, b) + un
  {
    MulSucc(q, v1);
    DigitIdentity(q + 1, v, v1, v0, b, u, rhat - v1);
    MulAtMost(b, rhat - v1);
    MulLe(0, 0, q + 1, v0);
  }

  lemma HalfWords(v: U64)
    requires v >= Pow2(W - 1)
    ensures v == Prod(Shr(v, HALF), B) + Low(v, HALF)
    ensures Low(v, HALF) < B && B <= 2 * Shr(v, HALF) && Shr(v, HALF) < B
  {
    ShrLow(v, HALF);
    ShlPow2(Shr(v, HALF), HALF);
    LowBound(v, HALF);
    ShrPow2(v, HALF, HALF);
    ShrPow2(v, HALF, HALF - 1);
  }

  /** The correction test, in 64-bit arithmetic that must not wrap. */
  predicate TooLarge(q: nat, v0: nat, rhat: nat, un: nat)
    requires q < B ==> Prod(q, v0) < Pow2(W)
    requires Prod(B, rhat) + un < Pow2(W)
  {
    q >= B || Prod(q, v0) > Prod(B, rhat) + un
  }

  lemma TestFits(q: nat, v0: nat, rhat: nat, un: nat)
    requires v0 < B && rhat < B && un < B
    ensures q < B ==> Prod(q, v0) < Pow2(W)
    ensures Prod(B, rhat) + un < Pow2(W)
  {
    Pow2Add(HALF, HALF);
    assert Prod(B, B) == Pow2(W);
    MulSucc(B - 1, B);
    if q < B { MulLe(q, v0, B - 1, B); }
    MulLe(B, rhat, B, B - 1);
  }

  /** The guess q is not below the true digit, and rhat is what it leaves of u. */
  ghost predicate Guess(q: nat, rhat: nat, u: nat, un: nat, v: nat, v1: nat) {
    Prod(q, v1) + rhat == u && q <= B + 1 && Prod(q + 1, v) > Prod(u, B) + un
  }

  lemma DivideWithRemainder(u: nat, d: nat)
    requires d > 0
    ensures Prod(u / d, d) + u % d == u && u % d < d
  {
  }

  lemma FirstGuess(u: nat, un: nat, v: U64)
    requires v >= Pow2(W - 1) && u < v && un < B
    ensures var v1 := Shr(v, HALF); v1 > 0 && u - Prod(u / v1, v1) < v1 && u >= Prod(u / v1, v1)
    ensures var v1 := Shr(v, HALF); Guess(u / v1, u - Prod(u / v1, v1), u, un, v, v1)
  {
    HalfWords(v);
    FirstGuessAt(u, un, v, Shr(v, HALF), Low(v, HALF), B);
  }

  lemma FirstGuessAt(u: nat, un: nat, v: nat, v1: nat, v0: nat, b: nat)
    requires 0 < b <= 2 * v1 && v == Prod(v1, b) + v0 && v0 < b && u < v && un < b
    ensures var q := u / v1;
            && 0 <= u - Prod(q, v1) < v1
            && q <= b + 1 && Prod(q + 1, v) > Prod(u, b) + un
  {
    DivideWithRemainder(u, v1);
    GuessBound(u, v, v1, v0, b, u / v1);
    GuessAtLeast(u, un, v, v1, v0, b, u / v1, u % v1);
  }

  lemma DividendBound(u: nat, un: nat, v: nat)
    requires u < v && un < B
    ensures Prod(u, B) + un < Prod(B, v)
  {
    MulSucc(u, B);
    MulLe(u + 1, B, v, B);
    MulComm(v, B);
  }

  /** A guess the test rejects is above the digit, so the next one down is still not below it. */
  lemma StepDown(q: nat, rhat: nat, u: nat, un: nat, v: U64)
    requires v >= Pow2(W - 1) && u < v && un < B
    requires Guess(q, rhat, u, un, v, Shr(v, HALF))
    requires q >= B || Prod(q, Low(v, HALF)) > Prod(B, rhat) + un
    ensures q > 0 && Guess(q - 1, rhat + Shr(v, HALF), u, un, v, Shr(v, HALF))
  {
    HalfWords(v);
    DigitIdentity(q, v, Shr(v, HALF), Low(v, HALF), B, u, rhat);
    DividendBound(u, un, v);
    if q >= B { MulLe(B, v, q, v); } else { MulLe(0, 0, B, rhat); }
    MulSucc(q - 1, Shr(v, HALF));
  }

  /** A guess the test accepts, or one reached with rhat past a half word, is the digit. */
  lemma GuessIsDigit(q: nat, rhat: nat, u: nat, un: nat, v: U64)
    requires v >= Pow2(W - 1) && u < v && un < B
    requires Guess(q, rhat, u, un, v, Shr(v, HALF))
    requires (q < B && Prod(q, Low(v, HALF)) <= Prod(B, rhat) + un) || (rhat >= B && q <= B)
    ensures 0 <= Prod(u, B) + un - Prod(q, v) < v
    ensures q < B
  {
    HalfWords(v);
    DigitIdentity(q, v, Shr(v, HALF), Low(v, HALF), B, u, rhat);
    if rhat >= B {
      MulLe(q, Low(v, HALF), B, B);
      MulLe(B, B, B, rhat);
    }
    MulSucc(q, v);
    DividendBound(u, un, v);
    if q >= B { MulLe(B, v, q, v); }
  }

  /** x in 64-bit arithmetic. */
  function Wrap(x: int): (r: U64)
    ensures 0 <= x < Pow2(W) ==> r == x
  {
    WrapSmall(x, Pow2(W));
    x % Pow2(W)
  }

  lemma WrapSmall(x: int, m: nat)
    requires m > 0
    ensures 0 <= x < m ==> x % m == x
  {
  }

  /** One half-word digit of the quotient of u * B + un by v, and the remainder; the last subtraction wraps. */
  method QuotientDigit(u: U64, un: nat, v: U64) returns (q: nat, r: U64)
    requires v >= Pow2(W - 1) && u < v && un < B
    ensures q < B && r < v && Prod(q, v) + r == Prod(u, B) + un
  {
    HalfWords(v);
    FirstGuess(u, un, v);
    var v1, v0 := Shr(v, HALF), Low(v, HALF);
    q := u / v1;
    var rhat: nat := u - Prod(q, v1);
    TestFits(q, v0, rhat, un);
    while TooLarge(q, v0, rhat, un)
      invariant Guess(q, rhat, u, un, v, v1) && rhat < B
      invariant q < B ==> Prod(q, v0) < Pow2(W)
      invariant Prod(B, rhat) + un < Pow2(W)
      decreases q
    {
      StepDown(q, rhat, u, un, v);
      q := q - 1;
      rhat := rhat + v1;
      if rhat >= B {
        break;
      }
      TestFits(q, v0, rhat, un);
    }
    GuessIsDigit(q, rhat, u, un, v);
    r := Wrap(Prod(u, B) + un - Prod(q, v));
  }

  /** (u1 * 2^64 + u0) / v for a normalized v above u1, and the remainder. */
  method Divlu(u1: U64, u0: U64, v: U64) returns (q: U64, rem: U64)
    requires v >= Pow2(W - 1) && u1 < v
    ensures Prod(q, v) + rem == Shl(u1, W) + u0 && rem < v
  {
    var un1, un0 := Shr(u0, HALF), Low(u0, HALF);
    ShrPow2(u0, HALF, HALF); LowBound(u0, HALF); ShrLow(u0, HALF); ShlPow2(un1, HALF);
    var q1, un21 := QuotientDigit(u1, un1, v);
    var q0;
    q0, rem := QuotientDigit(un21, un0, v);
    TwoDigits(u1, un1, un0, u0, v, q1, un21, q0, rem);
    q := Prod(q1, B) + q0;
  }

  lemma TwoDigits(u1: nat, un1: nat, un0: nat, u0: nat, v: nat, q1: nat, un21: nat, q0: nat, rem: nat)
    requires u0 == Prod(un1, B) + un0 && q1 < B && q0 < B
    requires Prod(q1, v) + un21 == Prod(u1, B) + un1 && Prod(q0, v) + rem == Prod(un21, B) + un0
    ensures Prod(Prod(q1, B) + q0, v) + rem == Shl(u1, W) + u0
    ensures 0 <= Prod(q1, B) + q0 < Pow2(W)
  {
    ShlPow2(u1, W);
    Pow2Add(HALF, HALF);
    TwoDigitsAlgebra(u1, un1, v, q1, un21, q0, B);
    MulLe(q1, B, B - 1, B);
    MulSucc(B - 1, B);
    assert Prod(B, B) == Pow2(W);
    assert Prod(u1, Prod(B, B)) == Shl(u1, W);
  }

  lemma TwoDigitsAlgebra(u1: int, un1: int, v: int, q1: int, un21: int, q0: int, b: int)
    requires Prod(q1, v) + un21 == Prod(u1, b) + un1
    ensures Prod(Prod(q1, b) + q0, v) == Prod(u1, Prod(b, b)) + Prod(un1, b) - Prod(un21, b) + Prod(q0, v)
  {
    assert (q1 * v + un21) * b == (u1 * b + un1) * b;
  }
}
