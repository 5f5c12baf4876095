/** The guest's floating-point flags and control on the host FPU: flags reach the guest's register lazily, at exit. */
module LazyFlags {
  import opened Rounding
  import opened Words

  datatype Abi = X86 | Arm64 | Riscv64 | Ppc64

  // ---- the host's registers (aarch64 layout) ----

  const RMODE0: nat := 22
  const RMODE1: nat := 23
  const FZ: nat := 24
  const DN: nat := 25
  /** RMODE, FZ16, FZ, DN and AHP: what a guest may control. */
  const FPCR_GUEST: Word := {19, RMODE0, RMODE1, FZ, DN, 26}

  const IOC: nat := 0
  const DZC: nat := 1
  const OFC: nat := 2
  const UFC: nat := 3
  const IXC: nat := 4
  const IDC: nat := 7
  const QC: nat := 27
  const FPSR_FLAGS: Word := {IOC, DZC, OFC, UFC, IXC, IDC, QC}

  // ---- the guests' registers ----

  const IE: nat := 0
  const DE: nat := 1
  const ZE: nat := 2
  const OE: nat := 3
  const UE: nat := 4
  const PE: nat := 5
  const FTZ: nat := 15

  const NX: nat := 0
  const UF: nat := 1
  const OF: nat := 2
  const DZ: nat := 3
  const NV: nat := 4

  const FX: nat := 31
  const VX: nat := 29
  const OX: nat := 28
  const UX: nat := 27
  const ZX: nat := 26
  const XX: nat := 25
  const VXSOFT: nat := 10
  const NI: nat := 2

  // ---- what a host flag means to a guest ----

  /** The guest's bit for a host flag, if it has one. */
  function Shown(abi: Abi, x: nat): Word {
    match abi
    case X86 =>
      if x == IOC then {IE} else if x == IDC then {DE} else if x == DZC then {ZE}
      else if x == OFC then {OE} else if x == UFC then {UE} else if x == IXC then {PE} else {}
    case Arm64 => if x in FPSR_FLAGS then {x} else {}
    case Riscv64 =>
      if x == IOC then {NV} else if x == DZC then {DZ} else if x == OFC then {OF}
      else if x == UFC then {UF} else if x == IXC then {NX} else {}
    case Ppc64 =>
      if x == IOC then {VX} else if x == DZC then {ZX} else if x == OFC then {OX}
      else if x == UFC then {UX} else if x == IXC then {XX} else {}
  }

  /** What else the flag is charged as: a flushed result is inexact, an unknown invalid operation is VXSOFT. */
  function Extra(abi: Abi, reg: Word, x: nat): Word {
    if abi == X86 && x == UFC && FTZ in reg then {PE}
    else if abi == Ppc64 && x == IOC then {VXSOFT}
    else {}
  }

  ghost function Bits(abi: Abi, reg: Word, f: Word): Word {
    set x, b | x in f && b in Shown(abi, x) + Extra(abi, reg, x) :: b
  }

  /** The guest register once the host flags f are charged to it. PowerPC's FX marks a bit newly set. */
  ghost function Charge(abi: Abi, reg: Word, f: Word): Word {
    reg + Bits(abi, reg, f) + if abi == Ppc64 && !(Bits(abi, reg, f) <= reg) then {FX} else {}
  }

  /** The host flags the guest already has. */
  ghost function Seen(abi: Abi, reg: Word): Word {
    set x | x in FPSR_FLAGS && Shown(abi, x) * reg != {}
  }

  /** The host FPSR that enter leaves: cleared of flags as soon as it holds one the guest does not have. */
  ghost function Entered(abi: Abi, fpsr: Word, reg: Word): Word {
    if fpsr * FPSR_FLAGS <= Seen(abi, reg) then fpsr else fpsr - FPSR_FLAGS
  }

  // ---- laws of charging ----

  lemma BitsJoin(abi: Abi, reg: Word, h: Word, r: Word)
    ensures Bits(abi, reg, h + r) == Bits(abi, reg, h) + Bits(abi, reg, r)
  {
  }

  /** Charging does not touch what decides how flags are charged. */
  lemma BitsStable(abi: Abi, reg: Word, h: Word, r: Word)
    ensures Bits(abi, Charge(abi, reg, h), r) == Bits(abi, reg, r)
  {
    forall x ensures Extra(abi, Charge(abi, reg, h), x) == Extra(abi, reg, x) {
    }
  }

  /** Charging h and r together is charging h and then r. */
  lemma ChargeJoins(abi: Abi, reg: Word, h: Word, r: Word)
    ensures Charge(abi, Charge(abi, reg, h), r) == Charge(abi, reg, h + r)
  {
    BitsJoin(abi, reg, h, r);
    BitsStable(abi, reg, h, r);
  }

  lemma ChargeNothing(abi: Abi, reg: Word)
    ensures Charge(abi, reg, {}) == reg
  {
    assert Bits(abi, reg, {}) == {};
  }

  // ---- the registers in numbers ----

  /** A bit of register after is one of before's or gained. */
  predicate Gains(before: Word, after: Word, bit: nat, gained: bool) { bit in after <==> bit in before || gained }

  /** What a guest's flag register is after the host flags f are charged to it, bit by bit. */
  predicate Folded(abi: Abi, before: Word, after: Word, f: Word) {
    match abi
    case X86 =>
      && Gains(before, after, 0, 0 in f) && Gains(before, after, 1, 7 in f) && Gains(before, after, 2, 1 in f)
      && Gains(before, after, 3, 2 in f) && Gains(before, after, 4, 3 in f)
      && Gains(before, after, 5, 4 in f || (3 in f && 15 in before))
      && before - {0, 1, 2, 3, 4, 5} == after - {0, 1, 2, 3, 4, 5}
    case Arm64 => after == before + f * {0, 1, 2, 3, 4, 7, 27}
    case Riscv64 =>
      && Gains(before, after, 4, 0 in f) && Gains(before, after, 3, 1 in f) && Gains(before, after, 2, 2 in f)
      && Gains(before, after, 1, 3 in f) && Gains(before, after, 0, 4 in f)
      && before - {0, 1, 2, 3, 4} == after - {0, 1, 2, 3, 4}
    case Ppc64 =>
      && Gains(before, after, 29, 0 in f) && Gains(before, after, 10, 0 in f) && Gains(before, after, 26, 1 in f)
      && Gains(before, after, 28, 2 in f) && Gains(before, after, 27, 3 in f) && Gains(before, after, 25, 4 in f)
      && before - {10, 25, 26, 27, 28, 29, 31} == after - {10, 25, 26, 27, 28, 29, 31}
      && Gains(before, after, 31, !(after - {31} <= before))
  }

  /** Charge is that. */
  lemma ChargeInNumbers(abi: Abi, reg: Word, f: Word)
    ensures Folded(abi, reg, Charge(abi, reg, f), f)
  {
    match abi
    case X86 => X86ChargedBits(reg, f);
    case Arm64 => Arm64ChargedBits(reg, f);
    case Riscv64 => Riscv64ChargedBits(reg, f);
    case Ppc64 => Ppc64ChargedBits(reg, f);
  }

  /** The host's registers. */
  lemma HostInNumbers()
    ensures FPCR_GUEST == {19, 22, 23, 24, 25, 26} && FPSR_FLAGS == {0, 1, 2, 3, 4, 7, 27}
  {
  }

  /** Whether a guest has host flag x, by the bit of its own register. */
  predicate Has(abi: Abi, reg: Word, x: nat) {
    match abi
    case X86 =>
      (x == 0 && 0 in reg) || (x == 7 && 1 in reg) || (x == 1 && 2 in reg) || (x == 2 && 3 in reg)
      || (x == 3 && 4 in reg) || (x == 4 && 5 in reg)
    case Arm64 => x in {0, 1, 2, 3, 4, 7, 27} && x in reg
    case Riscv64 =>
      (x == 0 && 4 in reg) || (x == 1 && 3 in reg) || (x == 2 && 2 in reg) || (x == 3 && 1 in reg)
      || (x == 4 && 0 in reg)
    case Ppc64 =>
      (x == 0 && 29 in reg) || (x == 1 && 26 in reg) || (x == 2 && 28 in reg) || (x == 3 && 27 in reg)
      || (x == 4 && 25 in reg)
  }

  lemma SeenInNumbers(abi: Abi, reg: Word, x: nat)
    ensures x in Seen(abi, reg) <==> Has(abi, reg, x)
  {
    if x in Seen(abi, reg) {
      var b :| b in Shown(abi, x) * reg;
      assert b in Shown(abi, x) && b in reg;
    }
    if Has(abi, reg, x) {
      var b :| b in Shown(abi, x);
      assert b in Shown(abi, x) * reg;
    }
  }

  /** Enter keeps the host's flags exactly when the guest has each of them, and otherwise drops them all. */
  lemma EnteredInNumbers(abi: Abi, fpsr: Word, reg: Word)
    ensures Entered(abi, fpsr, reg) ==
            if forall x :: x in fpsr && x in {0, 1, 2, 3, 4, 7, 27} ==> Has(abi, reg, x) then fpsr
            else fpsr - {0, 1, 2, 3, 4, 7, 27}
  {
    forall x ensures x in Seen(abi, reg) <==> Has(abi, reg, x) { SeenInNumbers(abi, reg, x); }
    HostInNumbers();
  }

  /** A bit only one flag is charged as is charged exactly for it. */
  lemma OneFlag(abi: Abi, reg: Word, f: Word, b: nat, x: nat)
    requires forall y :: b in Shown(abi, y) + Extra(abi, reg, y) <==> y == x
    ensures b in Bits(abi, reg, f) <==> x in f
  {
    if x in f { assert b in Shown(abi, x) + Extra(abi, reg, x); }
  }

  /** x86's PE is charged for two flags. */
  lemma PrecisionFlag(reg: Word, f: Word)
    ensures 5 in Bits(X86, reg, f) <==> 4 in f || (3 in f && 15 in reg)
  {
    if 4 in f { assert 5 in Shown(X86, 4) + Extra(X86, reg, 4); }
    if 3 in f && 15 in reg { assert 5 in Shown(X86, 3) + Extra(X86, reg, 3); }
  }

  lemma X86ChargedBits(reg: Word, f: Word)
    ensures Folded(X86, reg, Charge(X86, reg, f), f)
  {
    var bits := Bits(X86, reg, f);
    OneFlag(X86, reg, f, 0, 0); OneFlag(X86, reg, f, 1, 7); OneFlag(X86, reg, f, 2, 1);
    OneFlag(X86, reg, f, 3, 2); OneFlag(X86, reg, f, 4, 3);
    PrecisionFlag(reg, f);
    OnlyThese(reg, bits, {0, 1, 2, 3, 4, 5});
  }

  lemma OnlyThese(reg: Word, bits: Word, all: Word)
    requires bits <= all
    ensures reg - all == (reg + bits) - all
  {
  }

  lemma Arm64ChargedBits(reg: Word, f: Word)
    ensures Folded(Arm64, reg, Charge(Arm64, reg, f), f)
  {
    forall b | b in f && b in {0, 1, 2, 3, 4, 7, 27} ensures b in Bits(Arm64, reg, f) {
      assert b in Shown(Arm64, b) + Extra(Arm64, reg, b);
    }
    assert Bits(Arm64, reg, f) == f * {0, 1, 2, 3, 4, 7, 27};
  }

  lemma Riscv64ChargedBits(reg: Word, f: Word)
    ensures Folded(Riscv64, reg, Charge(Riscv64, reg, f), f)
  {
    OneFlag(Riscv64, reg, f, 4, 0); OneFlag(Riscv64, reg, f, 3, 1); OneFlag(Riscv64, reg, f, 2, 2);
    OneFlag(Riscv64, reg, f, 1, 3); OneFlag(Riscv64, reg, f, 0, 4);
    OnlyThese(reg, Bits(Riscv64, reg, f), {0, 1, 2, 3, 4});
  }

  lemma Ppc64ChargedBits(reg: Word, f: Word)
    ensures Folded(Ppc64, reg, Charge(Ppc64, reg, f), f)
  {
    var bits := Bits(Ppc64, reg, f);
    OneFlag(Ppc64, reg, f, 29, 0); OneFlag(Ppc64, reg, f, 10, 0); OneFlag(Ppc64, reg, f, 26, 1);
    OneFlag(Ppc64, reg, f, 28, 2); OneFlag(Ppc64, reg, f, 27, 3); OneFlag(Ppc64, reg, f, 25, 4);
    SummaryFolded(reg, bits, f, Charge(Ppc64, reg, f));
  }

  /** PowerPC's summary bit, once the others are known. */
  lemma SummaryFolded(reg: Word, bits: Word, f: Word, after: Word)
    requires bits <= {10, 25, 26, 27, 28, 29} && after == reg + bits + (if bits <= reg then {} else {31})
    requires (29 in bits <==> 0 in f) && (10 in bits <==> 0 in f) && (26 in bits <==> 1 in f)
    requires (28 in bits <==> 2 in f) && (27 in bits <==> 3 in f) && (25 in bits <==> 4 in f)
    ensures Folded(Ppc64, reg, after, f)
  {
    OnlyThese(reg, bits + {31}, {10, 25, 26, 27, 28, 29, 31});
    OnlyThese(reg, bits, {10, 25, 26, 27, 28, 29, 31});
    if bits <= reg {
      assert after - {31} <= reg;
    } else {
      var b :| b in bits && b !in reg;
      assert b in after - {31};
    }
  }

  // ---- flags left over from before ----

  /** The flags enter leaves in the host FPSR. */
  ghost function Stale(abi: Abi, fpsr: Word, reg: Word): Word { Entered(abi, fpsr, reg) * FPSR_FLAGS }

  /** A register whose own flags, charged again, add nothing. */
  predicate SafeRegister(abi: Abi, reg: Word) {
    && (abi == X86 && FTZ in reg && UE in reg ==> PE in reg)
    && (abi == Ppc64 && VX in reg ==> VXSOFT in reg)
  }

  /** When the flags left over are charged along with r, they add nothing. */
  predicate Covered(abi: Abi, stale: Word, reg: Word, r: Word) {
    && (abi == X86 && UFC in stale && FTZ in reg ==> PE in reg || UFC in r || IXC in r)
    && (abi == Ppc64 && IOC in stale ==> VXSOFT in reg || IOC in r)
  }

  lemma StaleSeen(abi: Abi, fpsr: Word, reg: Word)
    ensures Stale(abi, fpsr, reg) <= Seen(abi, reg)
  {
  }

  /** The guest has every bit a left-over flag shows as. */
  lemma StaleShown(abi: Abi, stale: Word, reg: Word, x: nat)
    requires stale <= Seen(abi, reg) && x in stale
    ensures Shown(abi, x) <= reg
  {
  }

  lemma CoveredAdds(abi: Abi, stale: Word, reg: Word, r: Word)
    requires stale <= Seen(abi, reg) && Covered(abi, stale, reg, r)
    ensures Bits(abi, reg, stale) <= reg + Bits(abi, reg, r)
  {
    forall x, b | x in stale && b in Shown(abi, x) + Extra(abi, reg, x) ensures b in reg + Bits(abi, reg, r) {
      StaleShown(abi, stale, reg, x);
      assert UFC in r ==> PE in Shown(X86, UFC) + Extra(X86, reg, UFC) || FTZ !in reg;
      assert IXC in r ==> PE in Shown(X86, IXC) + Extra(X86, reg, IXC);
      assert IOC in r ==> VXSOFT in Shown(Ppc64, IOC) + Extra(Ppc64, reg, IOC);
    }
  }

  lemma UncoveredAdds(abi: Abi, stale: Word, reg: Word, r: Word)
    requires stale <= Seen(abi, reg) && !Covered(abi, stale, reg, r)
    ensures !(Bits(abi, reg, stale) <= reg + Bits(abi, reg, r) + {FX})
  {
    if abi == X86 {
      assert PE in Shown(X86, UFC) + Extra(X86, reg, UFC);
      assert PE in Bits(abi, reg, stale);
    } else {
      assert VXSOFT in Shown(Ppc64, IOC) + Extra(Ppc64, reg, IOC);
      assert VXSOFT in Bits(abi, reg, stale);
    }
  }

  /** Exactly when flags left over from before change what a stretch of guest code is charged. */
  lemma StaleHarmlessIff(abi: Abi, fpsr: Word, reg: Word, r: Word)
    ensures var stale := Stale(abi, fpsr, reg);
            Charge(abi, reg, stale + r) == Charge(abi, reg, r) <==> Covered(abi, stale, reg, r)
  {
    var stale := Stale(abi, fpsr, reg);
    StaleSeen(abi, fpsr, reg);
    BitsJoin(abi, reg, stale, r);
    if Covered(abi, stale, reg, r) { CoveredAdds(abi, stale, reg, r); } else { UncoveredAdds(abi, stale, reg, r); }
  }

  lemma SafeIsHarmless(abi: Abi, fpsr: Word, reg: Word)
    requires SafeRegister(abi, reg)
    ensures Charge(abi, reg, Stale(abi, fpsr, reg)) == reg
  {
    var stale := Stale(abi, fpsr, reg);
    StaleSeen(abi, fpsr, reg);
    if UFC in stale && abi == X86 { StaleShown(abi, stale, reg, UFC); assert UE in Shown(X86, UFC); }
    if IOC in stale && abi == Ppc64 { StaleShown(abi, stale, reg, IOC); assert VX in Shown(Ppc64, IOC); }
    CoveredAdds(abi, stale, reg, {});
    ChargeNothing(abi, reg);
    assert Bits(abi, reg, {}) == {};
  }

  lemma ChargeKeepsSafe(abi: Abi, reg: Word, f: Word)
    requires SafeRegister(abi, reg)
    ensures SafeRegister(abi, Charge(abi, reg, f))
  {
    if abi == X86 && UFC in f && FTZ in reg { assert PE in Shown(X86, UFC) + Extra(X86, reg, UFC); }
    if abi == Ppc64 && IOC in f { assert VXSOFT in Shown(Ppc64, IOC) + Extra(Ppc64, reg, IOC); }
  }

  // ---- runs ----

  datatype Event =
    | Enter
    | Operate(raised: Word)        // guest code runs and the host FPU raises flags
    | Sync                         // STMXCSR, FXSAVE
    | Load(reg: Word)              // LDMXCSR, FXRSTOR
    | Exit
    | Emulate(raised: Word)        // the emulator's own floating point
    | Replace(reg: Word)           // sigreturn, ptrace, a checkpoint
    | Exec(abi: Abi, reg: Word)    // a new image, perhaps of another guest
    | HostDefault                  // a native program is about to start on the thread

  /** The guest running, the host FPSR, the guest's flag register, and whether guest code runs. */
  datatype State = State(abi: Abi, fpsr: Word, reg: Word, inside: bool)

  /** The guest alone, as hardware would have it. */
  datatype Guest = Guest(abi: Abi, reg: Word)

  predicate Possible(s: State, e: Event) {
    match e
    case Enter => !s.inside
    case Operate(r) => s.inside && r <= FPSR_FLAGS
    case Sync => s.inside && s.abi == X86
    case Load(_) => s.inside && s.abi == X86
    case Exit => s.inside
    case Emulate(r) => !s.inside && r <= FPSR_FLAGS
    case Replace(_) => !s.inside
    case Exec(_, _) => !s.inside
    case HostDefault => !s.inside
  }

  /** What the emulator does. */
  ghost function Lazy(s: State, e: Event): State {
    match e
    case Enter => s.(fpsr := Entered(s.abi, s.fpsr, s.reg), inside := true)
    case Operate(r) => s.(fpsr := s.fpsr + r)
    case Sync => s.(fpsr := s.fpsr - FPSR_FLAGS, reg := Charge(s.abi, s.reg, s.fpsr * FPSR_FLAGS))
    case Load(v) => s.(fpsr := s.fpsr - FPSR_FLAGS, reg := v)
    case Exit => s.(reg := Charge(s.abi, s.reg, s.fpsr * FPSR_FLAGS), inside := false)
    case Emulate(r) => s.(fpsr := s.fpsr + r)
    case Replace(v) => s.(reg := v)
    case Exec(abi, v) => s.(abi := abi, reg := v)
    case HostDefault => s
  }

  /** What the hardware does: each operation's flags go to the guest's register at once. */
  ghost function Eager(g: Guest, e: Event): Guest {
    match e
    case Operate(r) => g.(reg := Charge(g.abi, g.reg, r))
    case Load(v) => g.(reg := v)
    case Replace(v) => g.(reg := v)
    case Exec(abi, v) => Guest(abi, v)
    case _ => g
  }

  ghost function LazyRun(s: State, es: seq<Event>): State
    decreases |es|
  {
    if es == [] then s else LazyRun(Lazy(s, es[0]), es[1..])
  }

  ghost function EagerRun(g: Guest, es: seq<Event>): Guest
    decreases |es|
  {
    if es == [] then g else EagerRun(Eager(g, es[0]), es[1..])
  }

  ghost predicate PossibleRun(s: State, es: seq<Event>)
    decreases |es|
  {
    es == [] || (Possible(s, es[0]) && PossibleRun(Lazy(s, es[0]), es[1..]))
  }

  /** A register value that comes from elsewhere is safe for the guest it is given to. */
  predicate SafeInput(abi: Abi, e: Event) {
    match e
    case Load(v) => SafeRegister(abi, v)
    case Replace(v) => SafeRegister(abi, v)
    case Exec(a, v) => SafeRegister(a, v)
    case _ => true
  }

  predicate SafeRun(abi: Abi, es: seq<Event>)
    decreases |es|
  {
    es == [] || (SafeInput(abi, es[0]) && SafeRun(if es[0].Exec? then es[0].abi else abi, es[1..]))
  }

  /** Outside guest code the registers are equal; inside, they are once the host's flags are charged. */
  ghost predicate Agrees(s: State, g: Guest) {
    && s.abi == g.abi
    && (if s.inside then Charge(s.abi, s.reg, s.fpsr * FPSR_FLAGS) else s.reg) == g.reg
  }

  lemma StepAgrees(s: State, g: Guest, e: Event)
    requires Possible(s, e) && Agrees(s, g) && SafeRegister(s.abi, s.reg) && SafeInput(s.abi, e)
    ensures Agrees(Lazy(s, e), Eager(g, e)) && SafeRegister(Lazy(s, e).abi, Lazy(s, e).reg)
  {
    var t := Lazy(s, e);
    ChargeNothing(t.abi, t.reg);
    match e
    case Enter => SafeIsHarmless(s.abi, s.fpsr, s.reg);
    case Operate(r) =>
      ChargeJoins(s.abi, s.reg, s.fpsr * FPSR_FLAGS, r);
      assert (s.fpsr + r) * FPSR_FLAGS == s.fpsr * FPSR_FLAGS + r;
    case Sync =>
      ChargeKeepsSafe(s.abi, s.reg, s.fpsr * FPSR_FLAGS);
      assert t.fpsr * FPSR_FLAGS == {};
    case Load(v) => assert t.fpsr * FPSR_FLAGS == {};
    case Exit => ChargeKeepsSafe(s.abi, s.reg, s.fpsr * FPSR_FLAGS);
    case Emulate(r) =>
    case Replace(v) =>
    case Exec(abi, v) =>
    case HostDefault =>
  }

  /** Over any run, charging lazily is charging eagerly: no flag is lost, doubled or invented. */
  lemma {:induction false} LazyIsEager(s: State, g: Guest, es: seq<Event>)
    requires PossibleRun(s, es) && Agrees(s, g) && SafeRegister(s.abi, s.reg) && SafeRun(s.abi, es)
    ensures Agrees(LazyRun(s, es), EagerRun(g, es))
    decreases |es|
  {
    if es != [] {
      StepAgrees(s, g, es[0]);
      LazyIsEager(Lazy(s, es[0]), Eager(g, es[0]), es[1..]);
    }
  }

  /** Runs of arm64 and riscv64 guests, one after another, need no condition at all. */
  lemma ArmRiscvUnconditional(s: State, es: seq<Event>)
    requires s.abi in {Arm64, Riscv64} && forall e :: e in es && e.Exec? ==> e.abi in {Arm64, Riscv64}
    requires !s.inside && PossibleRun(s, es)
    ensures Agrees(LazyRun(s, es), EagerRun(Guest(s.abi, s.reg), es))
  {
    ArmRiscvSafe(s.abi, es);
    LazyIsEager(s, Guest(s.abi, s.reg), es);
  }

  lemma {:induction false} ArmRiscvSafe(abi: Abi, es: seq<Event>)
    requires abi in {Arm64, Riscv64} && forall e :: e in es && e.Exec? ==> e.abi in {Arm64, Riscv64}
    ensures SafeRun(abi, es)
    decreases |es|
  {
    if es != [] {
      assert es[0] in es;
      ArmRiscvSafe(if es[0].Exec? then es[0].abi else abi, es[1..]);
    }
  }

  /** Everything guest code raised in a stretch. */
  ghost function AllRaised(rs: seq<Word>): Word { if rs == [] then {} else rs[0] + AllRaised(rs[1..]) }

  ghost function Operations(rs: seq<Word>): seq<Event> {
    if rs == [] then [] else [Operate(rs[0])] + Operations(rs[1..])
  }

  lemma RunStep(s: State, g: Guest, e: Event, es: seq<Event>)
    ensures LazyRun(s, [e] + es) == LazyRun(Lazy(s, e), es)
    ensures EagerRun(g, [e] + es) == EagerRun(Eager(g, e), es)
    ensures PossibleRun(s, [e] + es) == (Possible(s, e) && PossibleRun(Lazy(s, e), es))
    ensures SafeRun(s.abi, [e] + es) == (SafeInput(s.abi, e) && SafeRun(Lazy(s, e).abi, es))
  {
    assert ([e] + es)[1..] == es;
  }

  lemma {:induction false} EagerOperations(g: Guest, rs: seq<Word>)
    ensures EagerRun(g, Operations(rs) + [Exit]) == g.(reg := Charge(g.abi, g.reg, AllRaised(rs)))
    decreases |rs|
  {
    var s := State(g.abi, {}, {}, true);
    if rs == [] {
      ChargeNothing(g.abi, g.reg);
      RunStep(s, g, Exit, []);
      assert Operations(rs) + [Exit] == [Exit] + [];
    } else {
      var rest := Operations(rs[1..]) + [Exit];
      assert Operations(rs) + [Exit] == [Operate(rs[0])] + rest;
      RunStep(s, g, Operate(rs[0]), rest);
      EagerOperations(Eager(g, Operate(rs[0])), rs[1..]);
      ChargeJoins(g.abi, g.reg, rs[0], AllRaised(rs[1..]));
    }
  }

  lemma {:induction false} PossibleOperations(s: State, rs: seq<Word>)
    requires s.inside && forall r :: r in rs ==> r <= FPSR_FLAGS
    ensures PossibleRun(s, Operations(rs) + [Exit]) && SafeRun(s.abi, Operations(rs) + [Exit])
    ensures !LazyRun(s, Operations(rs) + [Exit]).inside
    decreases |rs|
  {
    var g := Guest(s.abi, {});
    if rs == [] {
      assert Operations(rs) + [Exit] == [Exit] + [];
      RunStep(s, g, Exit, []);
    } else {
      var rest := Operations(rs[1..]) + [Exit];
      assert Operations(rs) + [Exit] == [Operate(rs[0])] + rest;
      RunStep(s, g, Operate(rs[0]), rest);
      PossibleOperations(Lazy(s, Operate(rs[0])), rs[1..]);
    }
  }

  /** At exit the guest's flags are those at enter and exactly what its operations raised since. */
  lemma StretchAdds(s: State, rs: seq<Word>)
    requires !s.inside && SafeRegister(s.abi, s.reg) && forall r :: r in rs ==> r <= FPSR_FLAGS
    ensures LazyRun(s, [Enter] + (Operations(rs) + [Exit])).reg == Charge(s.abi, s.reg, AllRaised(rs))
  {
    var ops, g := Operations(rs) + [Exit], Guest(s.abi, s.reg);
    var inside := Lazy(s, Enter);
    RunStep(s, g, Enter, ops);
    PossibleOperations(inside, rs);
    StepAgrees(s, g, Enter);
    LazyIsEager(inside, g, ops);
    EagerOperations(g, rs);
  }

  // ---- the condition is exact ----

  /** The flag an unsafe register goes wrong by. */
  function Culprit(abi: Abi): nat { if abi == X86 then UFC else IOC }

  /** The run that goes wrong for an unsafe register: v replaces the flags while the host still holds one of them. */
  function Unlucky(abi: Abi, v: Word): seq<Event> {
    [Enter, Operate({Culprit(abi)}), Exit, Replace(v), Enter, Exit]
  }

  lemma UnsafeEntered(abi: Abi, v: Word)
    requires !SafeRegister(abi, v)
    ensures var flag := Culprit(abi); Entered(abi, {flag}, v) == {flag} && Charge(abi, v, {flag}) != v
  {
    var flag := Culprit(abi);
    assert {flag} * FPSR_FLAGS == {flag};
    var bit := if abi == X86 then UE else VX;
    assert Shown(abi, flag) == {bit} && bit in Shown(abi, flag) * v;
    assert flag in Seen(abi, v);
    var extra := if abi == X86 then PE else VXSOFT;
    assert extra in Shown(abi, flag) + Extra(abi, v, flag);
    assert extra in Bits(abi, v, {flag});
  }

  function Start(abi: Abi): State { State(abi, {}, {}, false) }

  lemma UnluckyTail(abi: Abi, v: Word, r: Word)
    requires !SafeRegister(abi, v)
    ensures var f, tail := {Culprit(abi)}, [Replace(v), Enter, Exit];
            var s := State(abi, f, r, false);
            && PossibleRun(s, tail)
            && LazyRun(s, tail) == State(abi, f, Charge(abi, v, f), false)
            && EagerRun(Guest(abi, r), tail) == Guest(abi, v) && Charge(abi, v, f) != v
  {
    var f := {Culprit(abi)};
    UnsafeEntered(abi, v);
    assert f * FPSR_FLAGS == f;
    RunStep(State(abi, f, r, false), Guest(abi, r), Replace(v), [Enter, Exit]);
    RunStep(State(abi, f, v, false), Guest(abi, v), Enter, [Exit]);
    RunStep(State(abi, f, v, true), Guest(abi, v), Exit, []);
    assert [Replace(v), Enter, Exit] == [Replace(v)] + [Enter, Exit];
    assert [Enter, Exit] == [Enter] + [Exit] && [Exit] == [Exit] + [];
  }

  lemma UnluckyHead(abi: Abi, tail: seq<Event>)
    ensures var f := {Culprit(abi)};
            var r, es := Charge(abi, {}, f), [Enter] + ([Operate(f)] + ([Exit] + tail));
            && PossibleRun(Start(abi), es) == PossibleRun(State(abi, f, r, false), tail)
            && LazyRun(Start(abi), es) == LazyRun(State(abi, f, r, false), tail)
            && EagerRun(Guest(abi, {}), es) == EagerRun(Guest(abi, r), tail)
  {
    var f := {Culprit(abi)};
    var r := Charge(abi, {}, f);
    assert Entered(abi, {}, {}) == {};
    assert f * FPSR_FLAGS == f;
    RunStep(Start(abi), Guest(abi, {}), Enter, [Operate(f)] + ([Exit] + tail));
    RunStep(State(abi, {}, {}, true), Guest(abi, {}), Operate(f), [Exit] + tail);
    assert Lazy(State(abi, {}, {}, true), Operate(f)) == State(abi, f, {}, true) by { assert {} + f == f; }
    RunStep(State(abi, f, {}, true), Guest(abi, r), Exit, tail);
  }

  lemma UnsafeFails(abi: Abi, v: Word)
    requires !SafeRegister(abi, v)
    ensures PossibleRun(Start(abi), Unlucky(abi, v))
    ensures !Agrees(LazyRun(Start(abi), Unlucky(abi, v)), EagerRun(Guest(abi, {}), Unlucky(abi, v)))
  {
    var f, tail := {Culprit(abi)}, [Replace(v), Enter, Exit];
    UnluckyHead(abi, tail);
    UnluckyTail(abi, v, Charge(abi, {}, f));
    assert Unlucky(abi, v) == [Enter] + ([Operate(f)] + ([Exit] + tail));
  }

  /** Runs of one guest in which the only register value from elsewhere is v. */
  predicate Brings(es: seq<Event>, abi: Abi, v: Word) {
    forall e :: e in es ==> (e.Load? || e.Replace? || e.Exec? ==> e.reg == v) && (e.Exec? ==> e.abi == abi)
  }

  lemma {:induction false} BringsSafe(es: seq<Event>, abi: Abi, v: Word)
    requires SafeRegister(abi, v) && Brings(es, abi, v)
    ensures SafeRun(abi, es)
    decreases |es|
  {
    if es != [] {
      assert es[0] in es;
      BringsSafe(es[1..], abi, v);
    }
  }

  /** The condition on a register is exact: a value is safe if and only if no run that brings it in goes wrong. */
  lemma SafeExactly(abi: Abi, v: Word)
    ensures SafeRegister(abi, v) <==>
            (forall es :: PossibleRun(Start(abi), es) && Brings(es, abi, v) ==>
               Agrees(LazyRun(Start(abi), es), EagerRun(Guest(abi, {}), es)))
  {
    if SafeRegister(abi, v) {
      forall es | PossibleRun(Start(abi), es) && Brings(es, abi, v)
        ensures Agrees(LazyRun(Start(abi), es), EagerRun(Guest(abi, {}), es))
      {
        BringsSafe(es, abi, v);
        LazyIsEager(Start(abi), Guest(abi, {}), es);
      }
    } else {
      UnsafeFails(abi, v);
      assert Brings(Unlucky(abi, v), abi, v);
    }
  }

  // ---- control ----

  /** The host's rounding field holding m. */
  function RmodeBits(m: nat): Word { (if m % 2 == 1 then {RMODE0} else {}) + (if m / 2 % 2 == 1 then {RMODE1} else {}) }

  const RN: nat := 0
  const RP: nat := 1
  const RM: nat := 2
  const RZ: nat := 3

  /** The FPCR bits enter installs, from the guest's control register. */
  function Control(abi: Abi, reg: Word): Word {
    match abi
    case X86 => RmodeBits([RN, RM, RP, RZ][Bit(reg, 13) + 2 * Bit(reg, 14)])
    case Arm64 => reg * FPCR_GUEST
    case Riscv64 =>
      RmodeBits([RN, RZ, RM, RP, RN, RN, RN, RN][Bit(reg, 5) + 2 * Bit(reg, 6) + 4 * Bit(reg, 7)]) + {DN}
    case Ppc64 =>
      RmodeBits([RN, RZ, RP, RM][Bit(reg, 0) + 2 * Bit(reg, 1)]) + (if NI in reg then {FZ} else {})
  }

  /** The bits enter installs. The rounding field, bits 22 and 23, is 0 for nearest, 1 up, 2 down, 3 toward zero; bit 24
      is flush to zero, from PowerPC's NI; bit 25 is default NaN, which RISC-V always has; arm64's are its own. */
  lemma ControlInNumbers(abi: Abi, reg: Word, b: nat)
    ensures b in Control(abi, reg) <==>
            match abi
            case X86 => (b == 22 && 14 in reg) || (b == 23 && 13 in reg)
            case Arm64 => b in reg && b in {19, 22, 23, 24, 25, 26}
            case Riscv64 =>
              (b == 22 && 7 !in reg && 5 in reg) || (b == 23 && 7 !in reg && (5 in reg) != (6 in reg)) || b == 25
            case Ppc64 => (b == 22 && (0 in reg) != (1 in reg)) || (b == 23 && 0 in reg) || (b == 24 && 2 in reg)
  {
  }

  /** The direction the FPCR of an aarch64 host rounds in. */
  function HostMode(fpcr: Word): Mode {
    if RMODE1 in fpcr then (if RMODE0 in fpcr then Chop else Down) else (if RMODE0 in fpcr then Up else Nearest)
  }

  /** What a guest's register asks for: a direction, RISC-V's ties to the larger magnitude, or a reserved code. */
  datatype Request = Direction(mode: Mode) | TiesToMagnitude | Reserved

  function Requested(abi: Abi, reg: Word): Request {
    match abi
    case X86 => Direction(if 13 in reg then (if 14 in reg then Chop else Down) else if 14 in reg then Up else Nearest)
    case Arm64 => Direction(HostMode(reg))
    case Riscv64 =>
      if 7 in reg then (if 5 in reg || 6 in reg then Reserved else TiesToMagnitude)
      else Direction(if 5 in reg then (if 6 in reg then Up else Chop) else if 6 in reg then Down else Nearest)
    case Ppc64 => Direction(if 0 in reg then (if 1 in reg then Down else Chop) else if 1 in reg then Up else Nearest)
  }

  /** The direction installed is the one requested, except exactly for the RISC-V codes from 4 up, which round to
      nearest even. */
  lemma ControlRounds(abi: Abi, reg: Word, rest: Word)
    requires rest !! FPCR_GUEST
    ensures Control(abi, reg) <= FPCR_GUEST
    ensures var mode := HostMode(Control(abi, reg) + rest);
            && (Requested(abi, reg) == Direction(mode) <==> !(abi == Riscv64 && 7 in reg))
            && (abi == Riscv64 && 7 in reg ==> mode == Nearest)
  {
  }
}
