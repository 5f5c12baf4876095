/** Bytes as polynomials over GF(2), multiplied modulo the AES polynomial x^8 + x^4 + x^3 + x + 1. */
module Gf256 {
  /** A byte by its bits, the coefficients of x^7 down to 1. */
  datatype Byte = Byte(b7: bool, b6: bool, b5: bool, b4: bool, b3: bool, b2: bool, b1: bool, b0: bool)

  const ZERO := Byte(false, false, false, false, false, false, false, false)
  /** 0x1b, what is left of x^8. */
  const REDUCED := Byte(false, false, false, true, true, false, true, true)

  function Xor(a: Byte, b: Byte): Byte {
    Byte(a.b7 != b.b7, a.b6 != b.b6, a.b5 != b.b5, a.b4 != b.b4, a.b3 != b.b3, a.b2 != b.b2, a.b1 != b.b1, a.b0 != b.b0)
  }

  function ShiftLeft(a: Byte): Byte { Byte(a.b6, a.b5, a.b4, a.b3, a.b2, a.b1, a.b0, false) }
  function ShiftRight(a: Byte): Byte { Byte(false, a.b7, a.b6, a.b5, a.b4, a.b3, a.b2, a.b1) }

  /** Multiplication by x. */
  function Double(a: Byte): Byte {
    Byte(a.b6, a.b5, a.b4, a.b3 != a.b7, a.b2 != a.b7, a.b1, a.b0 != a.b7, a.b7)
  }

  lemma DoubleByShift(a: Byte)
    ensures Double(a) == if a.b7 then Xor(ShiftLeft(a), REDUCED) else ShiftLeft(a)
  {
  }

  function Take(bit: bool, a: Byte): Byte { if bit then a else ZERO }

  /** What n turns of the multiplication loop add up. */
  function Partial(a: Byte, b: Byte, n: nat): Byte
    decreases n
  {
    if n == 0 then ZERO else Xor(Take(b.b0, a), Partial(Double(a), ShiftRight(b), n - 1))
  }

  const NIBBLE: nat := 4
  const TURNS: nat := 2 * NIBBLE

  function GfMul(a: Byte, b: Byte): Byte { Partial(a, b, TURNS) }

  /** avx_gf_mul: add up the doublings of x that the bits of y call for. */
  method Multiply(x: Byte, y: Byte) returns (r: Byte)
    ensures r == GfMul(x, y)
  {
    var a, b := x, y;
    r := ZERO;
    for i := 0 to TURNS
      invariant Xor(r, Partial(a, b, TURNS - i)) == GfMul(x, y)
    {
      TurnAdds(r, a, b, TURNS - i);
      if b.b0 {
        r := Xor(r, a);
      }
      DoubleByShift(a);
      var hi := a.b7;
      a := ShiftLeft(a);
      if hi {
        a := Xor(a, REDUCED);
      }
      b := ShiftRight(b);
    }
  }

  /** One turn moves the lowest bit's share from what is to come into the sum. */
  lemma TurnAdds(r: Byte, a: Byte, b: Byte, n: nat)
    requires n > 0
    ensures Xor(r, Partial(a, b, n)) == Xor(if b.b0 then Xor(r, a) else r, Partial(Double(a), ShiftRight(b), n - 1))
  {
    XorAssoc(r, Take(b.b0, a), Partial(Double(a), ShiftRight(b), n - 1));
    XorZero(r);
  }

  // ---- addition ----

  lemma XorZero(a: Byte)
    ensures Xor(a, ZERO) == a
  {
  }

  lemma XorAssoc(a: Byte, b: Byte, c: Byte)
    ensures Xor(Xor(a, b), c) == Xor(a, Xor(b, c))
  {
  }

  lemma XorUndo(a: Byte, b: Byte)
    ensures Xor(Xor(a, b), b) == a
  {
  }

  lemma XorSwap(a: Byte, b: Byte, c: Byte, d: Byte)
    ensures Xor(Xor(a, b), Xor(c, d)) == Xor(Xor(a, c), Xor(b, d))
  {
  }

  // ---- multiplication is bilinear ----

  lemma DoubleLinear(a: Byte, c: Byte)
    ensures Double(Xor(a, c)) == Xor(Double(a), Double(c))
  {
  }

  lemma {:induction false} PartialLinear(a: Byte, c: Byte, b: Byte, n: nat)
    ensures Partial(Xor(a, c), b, n) == Xor(Partial(a, b, n), Partial(c, b, n))
    decreases n
  {
    if n > 0 {
      DoubleLinear(a, c);
      PartialLinear(Double(a), Double(c), ShiftRight(b), n - 1);
      XorSwap(Take(b.b0, a), Take(b.b0, c),
              Partial(Double(a), ShiftRight(b), n - 1), Partial(Double(c), ShiftRight(b), n - 1));
    }
  }

  lemma TakeLinear(p: bool, q: bool, a: Byte)
    ensures Take(p != q, a) == Xor(Take(p, a), Take(q, a))
  {
  }

  lemma ShiftRightLinear(b: Byte, c: Byte)
    ensures ShiftRight(Xor(b, c)) == Xor(ShiftRight(b), ShiftRight(c)) && Xor(b, c).b0 == (b.b0 != c.b0)
  {
  }

  lemma TurnLinear(a: Byte, p: bool, q: bool, r: Byte, s: Byte)
    ensures Xor(Take(p != q, a), Xor(r, s)) == Xor(Xor(Take(p, a), r), Xor(Take(q, a), s))
  {
    TakeLinear(p, q, a);
    XorSwap(Take(p, a), Take(q, a), r, s);
  }

  lemma {:induction false} PartialLinearRight(a: Byte, b: Byte, c: Byte, d: Byte, n: nat)
    requires d == Xor(b, c)
    ensures Partial(a, d, n) == Xor(Partial(a, b, n), Partial(a, c, n))
    decreases n
  {
    if n > 0 {
      ShiftRightLinear(b, c);
      PartialLinearRight(Double(a), ShiftRight(b), ShiftRight(c), ShiftRight(d), n - 1);
      TurnLinear(a, b.b0, c.b0, Partial(Double(a), ShiftRight(b), n - 1), Partial(Double(a), ShiftRight(c), n - 1));
    }
  }

  lemma GfMulLinear(a: Byte, b: Byte, c: Byte)
    ensures GfMul(Xor(a, c), b) == Xor(GfMul(a, b), GfMul(c, b))
    ensures GfMul(a, Xor(b, c)) == Xor(GfMul(a, b), GfMul(a, c))
  {
    PartialLinear(a, c, b, TURNS);
    PartialLinearRight(a, b, c, Xor(b, c), TURNS);
  }

  // ---- the laws of the product ----

  const ONE := Byte(false, false, false, false, false, false, false, true)

  lemma {:induction false} PartialOfZero(a: Byte, n: nat)
    ensures Partial(a, ZERO, n) == ZERO
    decreases n
  {
    if n > 0 {
      PartialOfZero(Double(a), n - 1);
      assert ShiftRight(ZERO) == ZERO && Xor(ZERO, ZERO) == ZERO;
    }
  }

  lemma {:induction false} PartialDouble(a: Byte, b: Byte, n: nat)
    ensures Partial(Double(a), b, n) == Double(Partial(a, b, n))
    decreases n
  {
    if n > 0 {
      PartialDouble(Double(a), ShiftRight(b), n - 1);
      DoubleLinear(Take(b.b0, a), Partial(Double(a), ShiftRight(b), n - 1));
    }
    assert Double(ZERO) == ZERO;
  }

  /** A polynomial is its constant term and x times the rest. */
  lemma Horner(a: Byte)
    ensures Xor(Take(a.b0, ONE), Double(ShiftRight(a))) == a
  {
  }

  function Shifted(a: Byte, n: nat): Byte
    decreases n
  {
    if n == 0 then a else Shifted(ShiftRight(a), n - 1)
  }

  lemma ShiftedOut(a: Byte)
    ensures Shifted(a, TURNS) == ZERO
  {
    var c := ShiftRight(ShiftRight(ShiftRight(ShiftRight(a))));
    assert Shifted(a, TURNS) == Shifted(ShiftRight(ShiftRight(a)), TURNS - 2) == Shifted(c, NIBBLE);
    assert Shifted(c, NIBBLE) == Shifted(ShiftRight(ShiftRight(c)), NIBBLE - 2);
  }

  lemma {:induction false} PartialOfOne(b: Byte, n: nat)
    requires Shifted(b, n) == ZERO
    ensures Partial(ONE, b, n) == b
    decreases n
  {
    if n > 0 {
      PartialOfOne(ShiftRight(b), n - 1);
      PartialDouble(ONE, ShiftRight(b), n - 1);
      Horner(b);
    }
  }

  lemma ProductUnit(b: Byte)
    ensures GfMul(ONE, b) == b && GfMul(b, ONE) == b
  {
    ShiftedOut(b);
    PartialOfOne(b, TURNS);
    assert ShiftRight(ONE) == ZERO;
    PartialOfZero(Double(b), TURNS - 1);
    XorZero(b);
  }

  /** Multiplying by x before or after is the same: the reduction by the AES polynomial is respected. */
  lemma ProductTimesX(a: Byte, b: Byte)
    ensures GfMul(Double(a), b) == Double(GfMul(a, b))
  {
    PartialDouble(a, b, TURNS);
  }

  lemma {:induction false} Commutes(a: Byte, b: Byte, n: nat)
    requires Shifted(a, n) == ZERO
    ensures GfMul(a, b) == Partial(b, a, n)
    decreases n
  {
    if n == 0 {
      assert Double(ZERO) == ZERO;
      PartialLinear(ZERO, ZERO, b, TURNS);
      assert Xor(ZERO, ZERO) == ZERO;
      XorSelf(GfMul(ZERO, b));
    } else {
      var c := ShiftRight(a);
      Commutes(c, b, n - 1);
      Horner(a);
      PartialLinear(Take(a.b0, ONE), Double(c), b, TURNS);
      ProductTimesX(c, b);
      TakeProduct(a.b0, b);
      PartialDouble(b, c, n - 1);
    }
  }

  lemma XorSelf(a: Byte)
    ensures Xor(a, a) == ZERO
  {
  }

  lemma TakeProduct(p: bool, b: Byte)
    ensures GfMul(Take(p, ONE), b) == Take(p, b)
  {
    ProductUnit(b);
    if !p {
      PartialLinear(ZERO, ZERO, b, TURNS);
      assert Xor(ZERO, ZERO) == ZERO;
      XorSelf(GfMul(ZERO, b));
    }
  }

  lemma ProductCommutes(a: Byte, b: Byte)
    ensures GfMul(a, b) == GfMul(b, a)
  {
    ShiftedOut(a);
    Commutes(a, b, TURNS);
  }

  lemma ProductOfZero(a: Byte)
    ensures GfMul(a, ZERO) == ZERO
  {
    PartialOfZero(a, TURNS);
  }

  /** The product by the constant term of c and by the rest. */
  lemma ProductByParts(y: Byte, c: Byte)
    ensures GfMul(y, c) == Xor(Take(c.b0, y), Double(GfMul(y, ShiftRight(c))))
  {
    ProductCommutes(y, c);
    ProductCommutes(y, ShiftRight(c));
    Horner(c);
    PartialLinear(Take(c.b0, ONE), Double(ShiftRight(c)), y, TURNS);
    TakeProduct(c.b0, y);
    ProductTimesX(ShiftRight(c), y);
  }

  lemma TakeRight(p: bool, a: Byte, b: Byte)
    ensures GfMul(a, Take(p, b)) == Take(p, GfMul(a, b))
  {
    ProductOfZero(a);
  }

  lemma DoubleRight(a: Byte, b: Byte)
    ensures GfMul(a, Double(b)) == Double(GfMul(a, b))
  {
    ProductCommutes(a, Double(b));
    ProductCommutes(a, b);
    ProductTimesX(b, a);
  }

  lemma {:induction false} Associates(a: Byte, b: Byte, c: Byte, n: nat)
    requires Shifted(c, n) == ZERO
    ensures GfMul(GfMul(a, b), c) == GfMul(a, GfMul(b, c))
    decreases n
  {
    if n == 0 {
      ProductOfZero(GfMul(a, b));
      ProductOfZero(b);
      ProductOfZero(a);
    } else {
      var d := ShiftRight(c);
      Associates(a, b, d, n - 1);
      ProductByParts(GfMul(a, b), c);
      ProductByParts(b, c);
      GfMulLinear(a, Take(c.b0, b), Double(GfMul(b, d)));
      TakeRight(c.b0, a, b);
      DoubleRight(a, GfMul(b, d));
    }
  }

  lemma ProductAssociates(a: Byte, b: Byte, c: Byte)
    ensures GfMul(GfMul(a, b), c) == GfMul(a, GfMul(b, c))
  {
    ShiftedOut(c);
    Associates(a, b, c, TURNS);
  }
}
