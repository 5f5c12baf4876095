/** What an operation does with operands that are not numbers. */
module Operands {
  import opened Powers
  import opened Float80s
  import opened Normalize

  predicate Ordinary(f: Float80) { IsFinite(f) && IsSupported(f) }
  predicate Numbers(a: Float80, b: Float80) { IsSupported(a) && IsSupported(b) && !IsNaN(a) && !IsNaN(b) }
  predicate NotNumbers(a: Float80, b: Float80) { !Numbers(a, b) }

  lemma QuietFits(f: Float80)
    requires Shr(f.signif, W - 2) % 2 == 0
    ensures f.signif + Pow2(W - 2) < Pow2(W)
    ensures Low(f.signif + Pow2(W - 2), W - 1) == Low(f.signif, W - 1) + Pow2(W - 2)
    ensures Shr(f.signif + Pow2(W - 2), W - 2) == Shr(f.signif, W - 2) + 1
  {
    SetClearBit(f.signif, W - 2);
    ShrPow2(f.signif, W - 2, 2);
    ShrPow2(f.signif + Pow2(W - 2), W - 2, 2);
  }

  /** Setting bit n of s where it is clear. */
  lemma SetClearBit(s: nat, n: nat)
    requires Shr(s, n) % 2 == 0
    ensures Shr(s + Pow2(n), n) == Shr(s, n) + 1
    ensures Low(s + Pow2(n), n + 1) == Low(s, n + 1) + Pow2(n)
  {
    var h, l := Shr(s, n), Low(s, n);
    ShrLow(s, n); LowBound(s, n); LowSucc(s, n);
    ShlSum(h, 1, n); ShlOne(0, n);
    ShrUnique(s + Pow2(n), n, h + 1, l);
    LowSucc(s + Pow2(n), n);
  }

  /** f with its quiet bit set. */
  function Quiet(f: Float80): Float80 {
    if Shr(f.signif, W - 2) % 2 == 0 then QuietFits(f); f.(signif := f.signif + Pow2(W - 2)) else f
  }

  lemma QuietIsQuiet(f: Float80)
    requires IsNaN(f) && IsSupported(f)
    ensures IsNaN(Quiet(f)) && !IsSNaN(Quiet(f)) && IsSupported(Quiet(f))
  {
    if Shr(f.signif, W - 2) % 2 == 0 { QuietFits(f); }
  }

  /** Quieting sets bit 62 and nothing else. */
  lemma QuietInNumbers(f: Float80)
    ensures Quiet(f).sign == f.sign && Quiet(f).exp == f.exp
    ensures Shr(Quiet(f).signif, 62) % 2 == 1 && Low(Quiet(f).signif, 62) == Low(f.signif, 62)
    ensures Shr(Quiet(f).signif, 63) == Shr(f.signif, 63)
  {
    QuietsAt(f, W - 2);
  }

  lemma QuietsAt(f: Float80, n: nat)
    requires n == W - 2
    ensures Shr(Quiet(f).signif, n) % 2 == 1 && Low(Quiet(f).signif, n) == Low(f.signif, n)
    ensures Shr(Quiet(f).signif, n + 1) == Shr(f.signif, n + 1)
  {
    QuietBitSet(f.signif, n);
  }

  lemma QuietBitSet(s: nat, n: nat)
    ensures Shr(s, n) % 2 == 0 ==>
              && Shr(s + Pow2(n), n) == Shr(s, n) + 1 && Low(s + Pow2(n), n) == Low(s, n)
              && Shr(s + Pow2(n), n + 1) == Shr(s, n + 1)
  {
    if Shr(s, n) % 2 == 0 {
      var h := Shr(s, n);
      ShrLow(s, n); LowBound(s, n);
      ShlSum(h, 1, n); ShlOne(0, n);
      ShrUnique(s + Pow2(n), n, h + 1, Low(s, n));
      ShrAdd(s, n, 1); ShrAdd(s + Pow2(n), n, 1);
    }
  }

  /** Of two NaNs the positive one is chosen; its payload comes through, quieted. */
  lemma ChosenNaN(r: Float80, a: Float80, b: Float80)
    requires QuietNaNOf(r, a, b) && (IsNaN(a) || IsNaN(b))
    ensures r.exp == 0x7fff && Shr(r.signif, 62) == 3
    ensures IsNaN(a) && IsNaN(b) && a.sign != b.sign ==>
              !r.sign && Low(r.signif, 62) == Low(if a.sign then b.signif else a.signif, 62)
    ensures IsNaN(a) && (!IsNaN(b) || a.sign == b.sign) ==> r.sign == a.sign && Low(r.signif, 62) == Low(a.signif, 62)
    ensures !IsNaN(a) ==> r.sign == b.sign && Low(r.signif, 62) == Low(b.signif, 62)
  {
    QuietInNumbers(a); QuietInNumbers(b);
    TopBits(r.signif, W - 2);
  }

  /** A word of n + 2 bits with its two top bits set. */
  lemma TopBits(s: nat, n: nat)
    requires Pow2(n + 1) <= s < Pow2(n + 2) && Shr(s, n) % 2 == 1
    ensures Shr(s, n) == 3
  {
    ShrPow2(s, n, 1); ShrPow2(s, n, 2);
  }

  /** r is the quieted NaN among a and b: the first, unless only the second is positive. */
  predicate QuietNaNOf(r: Float80, a: Float80, b: Float80) {
    && IsNaN(r) && !IsSNaN(r) && IsSupported(r)
    && r == Quiet(if IsNaN(a) && !(IsNaN(b) && a.sign && !b.sign) then a else b)
  }

  /** An unsupported operand is invalid; a NaN comes out quieted, and is invalid if it was signalling. */
  twostate predicate NotNumber(env: Env, a: Float80, b: Float80, r: Float80)
    reads env
  {
    if !IsSupported(a) || !IsSupported(b) then r == NAN && env.Only({Invalid})
    else QuietNaNOf(r, a, b) && env.Only(if IsSNaN(a) || IsSNaN(b) then {Invalid} else {})
  }

  /** The handle_nans macro. */
  method HandleNaNs(env: Env, a: Float80, b: Float80) returns (done: bool, r: Float80)
    modifies env`exceptions
    ensures done == NotNumbers(a, b)
    ensures if done then NotNumber(env, a, b, r) else unchanged(env)
  {
    if !IsSupported(a) || !IsSupported(b) {
      env.exceptions := env.exceptions + {Invalid};
      return true, NAN;
    }
    var a', b' := a, b;
    if IsNaN(a) { QuietIsQuiet(a); }
    if IsNaN(b) { QuietIsQuiet(b); }
    if IsSNaN(a) || IsSNaN(b) {
      env.exceptions := env.exceptions + {Invalid};
      a' := if IsNaN(a) then Quiet(a) else a;
      b' := if IsNaN(b) then Quiet(b) else b;
    }
    if IsNaN(a') && IsNaN(b') && a'.sign && !b'.sign {
      return true, b';
    }
    if IsNaN(a') {
      return true, a';
    }
    if IsNaN(b') {
      return true, b';
    }
    return false, a;
  }
}
