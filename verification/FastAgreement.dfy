/** The fast paths and the general code, side by side. */
module FastAgreement {
  import opened Rounding
  import opened Float80s
  import opened Normalize
  import Addition
  import Multiplication
  import FastPaths

  lemma SameDelivery(f: Float80, g: Float80, sign: bool, mag: Magnitude)
    requires Delivers(f, sign, mag) && Delivers(g, sign, mag)
    ensures f == g
  {
    if mag.Finite? { UniqueEncoding(f, g); }
  }

  /** A fast result and a general one for the same exact v. */
  lemma FastIsGeneral(p: nat, v: real, fast: Float80, inexact: bool, up: bool, general: Float80, o: Outcome)
    requires v != 0.0 && o == Round(X87(p), Nearest, v < 0.0, Abs(v)) && Delivers(general, v < 0.0, o.mag)
    requires FastPaths.FastResult(p, v, fast, inexact, up)
    ensures fast == general && inexact == o.inexact && up == o.up && !o.overflow && OutcomeExceptions(o) == {}
  {
    SameDelivery(fast, general, v < 0.0, o.mag);
  }

  /** Round to nearest at a width the fast paths are used at, and no flag up. */
  predicate Ready(env: Env)
    reads env
  {
    env.mode == Nearest && env.precision in {24, 53, 64} && !env.inexact && !env.roundedUp && env.exceptions == {}
  }

  /** The two results are the same, and the general code's flags are what the fast path reported. */
  ghost predicate Agree(env: Env, fast: Float80, inexact: bool, up: bool, general: Float80)
    reads env
  {
    fast == general && env.inexact == inexact && env.roundedUp == up && env.exceptions == {}
  }

  /** From a clean environment, the general code delivered o for the exact v and raised its flags. */
  ghost predicate Gave(env: Env, f: Float80, v: real, o: Outcome)
    requires v != 0.0
    reads env
  {
    && o == Round(X87(env.P()), Nearest, v < 0.0, Abs(v)) && Delivers(f, v < 0.0, o.mag)
    && env.inexact == o.inexact && env.roundedUp == o.up && env.exceptions == OutcomeExceptions(o)
  }

  lemma GaveAgrees(env: Env, v: real, o: Outcome, fast: Float80, inexact: bool, up: bool, general: Float80)
    requires v != 0.0 && Gave(env, general, v, o) && FastPaths.FastResult(env.P(), v, fast, inexact, up)
    ensures Agree(env, fast, inexact, up, general)
  {
    FastIsGeneral(env.P(), v, fast, inexact, up, general, o);
  }

  // The general code on two normal operands whose exact result is v, from a clean environment.

  method AddNormal(env: Env, a: Float80, b: Float80, ghost v: real) returns (r: Float80)
    requires FastPaths.FastNormal(a) && FastPaths.FastNormal(b) && v == Value(a) + Value(b)
    modifies env
    ensures if v == 0.0 then r == Zero(env.mode.Down?) && env.Only({}) else RoundsTo(env, r, v)
  {
    FastPaths.FastNormalOrdinary(a); FastPaths.FastNormalOrdinary(b);
    r := Addition.Add(env, a, b);
  }

  method AddClean(env: Env, a: Float80, b: Float80, ghost v: real) returns (r: Float80, ghost o: Outcome)
    requires Ready(env) && FastPaths.FastNormal(a) && FastPaths.FastNormal(b) && v == Value(a) + Value(b)
    modifies env
    ensures env.P() == old(env.P())
    ensures if v == 0.0 then Agree(env, Zero(false), false, false, r) else Gave(env, r, v, o)
  {
    r := AddNormal(env, a, b, v);
    o := Round(X87(env.P()), Nearest, v < 0.0, if v == 0.0 then 1.0 else Abs(v));
  }

  method MulClean(env: Env, a: Float80, b: Float80, ghost v: real) returns (r: Float80, ghost o: Outcome)
    requires Ready(env) && FastPaths.FastNormal(a) && FastPaths.FastNormal(b) && v == Value(a) * Value(b) && v != 0.0
    modifies env
    ensures env.P() == old(env.P()) && Gave(env, r, v, o)
  {
    FastPaths.FastNormalOrdinary(a); FastPaths.FastNormalOrdinary(b);
    r := Multiplication.Mul(env, a, b);
    o := Round(X87(env.P()), Nearest, v < 0.0, Abs(v));
  }

  method DivClean(env: Env, a: Float80, b: Float80, ghost v: real) returns (r: Float80, ghost o: Outcome)
    requires Ready(env) && FastPaths.FastNormal(a) && FastPaths.FastNormal(b)
    requires Value(b) != 0.0 && v == Value(a) / Value(b) && v != 0.0
    modifies env
    ensures env.P() == old(env.P()) && Gave(env, r, v, o)
  {
    FastPaths.FastNormalOrdinary(a); FastPaths.FastNormalOrdinary(b);
    r := Multiplication.Div(env, a, b);
    o := Round(X87(env.P()), Nearest, v < 0.0, Abs(v));
  }

  /** f80_add_fast, with the exact sum it rounded. */
  method AddQuick(a: Float80, b: Float80, p: nat)
    returns (ok: bool, out: Float80, inexact: bool, up: bool, ghost v: real)
    requires 24 <= p <= W
    ensures ok ==> FastPaths.FastNormal(a) && FastPaths.FastNormal(b) && v == Value(a) + Value(b)
    ensures ok ==> FastPaths.FastResult(p, v, out, inexact, up)
  {
    ok, out, inexact, up := FastPaths.AddFast(a, b, p);
    v := Value(a) + Value(b);
  }

  /** f80_add_fast beside f80_add. */
  method AddBothWays(env: Env, a: Float80, b: Float80)
    returns (ok: bool, fast: Float80, inexact: bool, up: bool, general: Float80)
    requires Ready(env)
    modifies env
    ensures ok ==> Agree(env, fast, inexact, up, general)
  {
    ghost var v;
    ok, fast, inexact, up, v := AddQuick(a, b, env.precision);
    general := fast;
    if ok {
      ghost var o;
      general, o := AddClean(env, a, b, v);
      if v != 0.0 { GaveAgrees(env, v, o, fast, inexact, up, general); }
    }
  }

  /** f80_mul_fast, with the exact product it rounded. */
  method MulQuick(a: Float80, b: Float80, p: nat)
    returns (ok: bool, out: Float80, inexact: bool, up: bool, ghost v: real)
    requires 24 <= p <= W
    ensures ok ==> FastPaths.FastNormal(a) && FastPaths.FastNormal(b) && v == Value(a) * Value(b) && v != 0.0
    ensures ok ==> FastPaths.FastResult(p, v, out, inexact, up)
  {
    ok, out, inexact, up := FastPaths.MulFast(a, b, p);
    v := Value(a) * Value(b);
  }

  /** f80_mul_fast beside f80_mul. */
  method MulBothWays(env: Env, a: Float80, b: Float80)
    returns (ok: bool, fast: Float80, inexact: bool, up: bool, general: Float80)
    requires Ready(env)
    modifies env
    ensures ok ==> Agree(env, fast, inexact, up, general)
  {
    ghost var v;
    ok, fast, inexact, up, v := MulQuick(a, b, env.precision);
    general := fast;
    if ok {
      ghost var o;
      general, o := MulClean(env, a, b, v);
      GaveAgrees(env, v, o, fast, inexact, up, general);
    }
  }

  /** f80_div_fast beside f80_div. */
  method DivBothWays(env: Env, a: Float80, b: Float80)
    returns (ok: bool, fast: Float80, inexact: bool, up: bool, general: Float80)
    requires Ready(env)
    modifies env
    ensures ok ==> Agree(env, fast, inexact, up, general)
  {
    ok, fast, inexact, up := FastPaths.DivFast(a, b, env.precision);
    general := fast;
    if ok {
      ghost var v := Value(a) / Value(b);
      ghost var o;
      general, o := DivClean(env, a, b, v);
      GaveAgrees(env, v, o, fast, inexact, up, general);
    }
  }
}
