/** emu/fpenv.c on an aarch64 host: the host's FPCR and FPSR and the guest's control and flag registers. */
module Fpenv {
  import opened Words
  import opened LazyFlags

  class Thread {
    // the guest's cpu_state
    var mxcsr: Word
    var arm64Fpcr: Word
    var arm64Fpsr: Word
    var riscv64Fcsr: Word
    var ppc64Fpscr: Word
    // the host thread's FPU
    var fpcr: Word
    var fpsr: Word
    // what the host thread's FPCR held
    var init: bool
    var base: Word
    var dflt: Word
    var installed: Word

    ghost predicate Valid()
      reads this
    {
      init ==> base == fpcr - FPCR_GUEST && dflt <= FPCR_GUEST
    }

    /** The guest's flag register. */
    function Flags(abi: Abi): Word
      reads this
    {
      match abi
      case X86 => mxcsr
      case Arm64 => arm64Fpsr
      case Riscv64 => riscv64Fcsr
      case Ppc64 => ppc64Fpscr
    }

    /** The guest's control register. */
    function ControlRegister(abi: Abi): Word
      reads this
    {
      if abi == Arm64 then arm64Fpcr else Flags(abi)
    }

    ghost function View(abi: Abi, inside: bool): State
      reads this
    {
      State(abi, fpsr, Flags(abi), inside)
    }

    /** The FPCR the thread had before any guest ran on it. */
    ghost function Original(): Word
      reads this
    {
      if init then base + dflt else fpcr
    }

    twostate predicate OnlyFlags(abi: Abi)
      reads this
    {
      && arm64Fpcr == old(arm64Fpcr)
      && (abi != X86 ==> mxcsr == old(mxcsr)) && (abi != Arm64 ==> arm64Fpsr == old(arm64Fpsr))
      && (abi != Riscv64 ==> riscv64Fcsr == old(riscv64Fcsr)) && (abi != Ppc64 ==> ppc64Fpscr == old(ppc64Fpscr))
    }

    /** host_install: the FPCR is written only if it does not already hold the bits. */
    method HostInstall(bits: Word)
      requires Valid() && bits <= FPCR_GUEST
      modifies `fpcr, `init, `base, `dflt, `installed
      ensures Valid() && init && installed == bits
      ensures fpcr * FPCR_GUEST == bits && fpcr - FPCR_GUEST == old(fpcr) - FPCR_GUEST
      ensures Original() == old(Original())
    {
      if !init {
        var v := fpcr;
        base := v - FPCR_GUEST;
        dflt := v * FPCR_GUEST;
        installed := v * FPCR_GUEST;
        init := true;
      }
      if fpcr * FPCR_GUEST != bits {
        fpcr := base + bits;
      }
      installed := bits;
    }

    /** fpenv_host_default: a native program starts from the FPCR the thread had. */
    method HostDefault()
      requires Valid()
      modifies `fpcr, `init, `base, `dflt, `installed
      ensures Valid() && init == old(init) && fpcr == old(Original()) && Original() == old(Original())
    {
      if init {
        HostInstall(dflt);
        assert fpcr == (fpcr - FPCR_GUEST) + (fpcr * FPCR_GUEST);
      }
    }

    /** The host's sticky flags, which are cleared. */
    method HostTakeFlags() returns (f: Word)
      modifies `fpsr
      ensures f == old(fpsr) * FPSR_FLAGS && fpsr == old(fpsr) - FPSR_FLAGS
    {
      var v := fpsr;
      if v * FPSR_FLAGS != {} {
        fpsr := v - FPSR_FLAGS;
      }
      f := v * FPSR_FLAGS;
      NothingToTake(v, FPSR_FLAGS);
    }

    /** The MXCSR bits of host flags; a result flushed to zero is inexact. */
    static method X86Bits(f: Word, ftz: bool) returns (m: Word)
      ensures m <= {IE, DE, ZE, OE, UE, PE}
      ensures Holds(m, IE, IOC in f) && Holds(m, DE, IDC in f) && Holds(m, ZE, DZC in f) && Holds(m, OE, OFC in f)
      ensures Holds(m, UE, UFC in f) && Holds(m, PE, IXC in f || (UFC in f && ftz))
    {
      m := {};
      if IOC in f { m := m + {IE}; }
      if IDC in f { m := m + {DE}; }
      if DZC in f { m := m + {ZE}; }
      if OFC in f { m := m + {OE}; }
      if UFC in f { m := m + {UE}; }
      if IXC in f { m := m + {PE}; }
      if UFC in f && ftz {
        m := m + {PE};
      }
    }

    /** x86_fold. */
    method X86Fold(f: Word)
      modifies `mxcsr
      ensures mxcsr == Charge(X86, old(mxcsr), f) && Folded(X86, old(mxcsr), mxcsr, f)
    {
      var m := X86Bits(f, FTZ in mxcsr);
      X86BitsAre(mxcsr, f, m);
      ChargeInNumbers(X86, mxcsr, f);
      mxcsr := mxcsr + m;
    }

    /** riscv64_fold. */
    method Riscv64Fold(f: Word)
      modifies `riscv64Fcsr
      ensures riscv64Fcsr == Charge(Riscv64, old(riscv64Fcsr), f) && Folded(Riscv64, old(riscv64Fcsr), riscv64Fcsr, f)
    {
      var m: Word := {};
      if IOC in f { m := m + {NV}; }
      if DZC in f { m := m + {DZ}; }
      if OFC in f { m := m + {OF}; }
      if UFC in f { m := m + {UF}; }
      if IXC in f { m := m + {NX}; }
      Riscv64BitsAre(riscv64Fcsr, f, m);
      ChargeInNumbers(Riscv64, riscv64Fcsr, f);
      riscv64Fcsr := riscv64Fcsr + m;
    }

    /** ppc64_fold. */
    method Ppc64Fold(f: Word)
      modifies `ppc64Fpscr
      ensures ppc64Fpscr == Charge(Ppc64, old(ppc64Fpscr), f) && Folded(Ppc64, old(ppc64Fpscr), ppc64Fpscr, f)
    {
      var m: Word := {};
      if IOC in f { m := m + {VX, VXSOFT}; }
      if DZC in f { m := m + {ZX}; }
      if OFC in f { m := m + {OX}; }
      if UFC in f { m := m + {UX}; }
      if IXC in f { m := m + {XX}; }
      Ppc64BitsAre(ppc64Fpscr, f, m);
      ChargeInNumbers(Ppc64, ppc64Fpscr, f);
      NoneLeft(m, ppc64Fpscr);
      var fx: Word := if m - ppc64Fpscr != {} then {FX} else {};
      ppc64Fpscr := ppc64Fpscr + m + fx;
    }

    /** fpenv_enter. */
    method Enter(abi: Abi)
      requires Valid()
      modifies `fpcr, `init, `base, `dflt, `installed, `fpsr
      ensures Valid() && init && View(abi, true) == Lazy(old(View(abi, false)), Event.Enter)
      ensures fpcr * FPCR_GUEST == Control(abi, ControlRegister(abi)) && fpcr - FPCR_GUEST == old(fpcr) - FPCR_GUEST
      ensures ControlRegister(abi) == (match abi case X86 => mxcsr case Arm64 => arm64Fpcr
                                                 case Riscv64 => riscv64Fcsr case Ppc64 => ppc64Fpscr)
      ensures Original() == old(Original())
    {
      ControlRounds(abi, ControlRegister(abi), {});
      HostInstall(Control(abi, ControlRegister(abi)));
      DropForeignFlags(abi);
    }

    /** Clears the host's flags when one of them is not the guest's. */
    method DropForeignFlags(abi: Abi)
      modifies `fpsr
      ensures fpsr == Entered(abi, old(fpsr), Flags(abi))
    {
      var live := fpsr;
      SeenAre(abi, Flags(abi));
      var foreign := live * FPSR_FLAGS - GuestFlagsAsHost(abi, Flags(abi));
      NoneLeft(live * FPSR_FLAGS, GuestFlagsAsHost(abi, Flags(abi)));
      if foreign != {} {
        fpsr := live - FPSR_FLAGS;
      }
    }

    /** fpenv_exit: only reads the host FPSR. */
    method Exit(abi: Abi)
      modifies `mxcsr, `arm64Fpsr, `riscv64Fcsr, `ppc64Fpscr
      ensures View(abi, false) == Lazy(old(View(abi, true)), Event.Exit)
      ensures OnlyFlags(abi) && Folded(abi, old(Flags(abi)), Flags(abi), fpsr)
    {
      FoldedFlagsOnly(abi, Flags(abi), fpsr);
      var f := fpsr * FPSR_FLAGS;
      if f != {} {
        match abi
        case X86 => X86Fold(f);
        case Arm64 => Arm64BitsAre(arm64Fpsr, f); arm64Fpsr := arm64Fpsr + f;
        case Riscv64 => Riscv64Fold(f);
        case Ppc64 => Ppc64Fold(f);
      } else {
        ChargeNothing(abi, Flags(abi));
      }
    }

    /** Before the guest reads MXCSR from inside guest code. */
    method X86SyncMxcsr()
      modifies `fpsr, `mxcsr
      ensures View(X86, true) == Lazy(old(View(X86, true)), Sync) && Folded(X86, old(mxcsr), mxcsr, old(fpsr))
    {
      FoldedFlagsOnly(X86, mxcsr, fpsr);
      ChargeNothing(X86, mxcsr);
      var f := HostTakeFlags();
      if f != {} {
        X86Fold(f);
      }
    }

    /** After the guest has written MXCSR from inside guest code. */
    method X86LoadMxcsr(ghost before: Word)
      requires Valid()
      modifies `fpcr, `init, `base, `dflt, `installed, `fpsr
      ensures Valid() && View(X86, true) == Lazy(State(X86, old(fpsr), before, true), Load(mxcsr))
      ensures fpcr * FPCR_GUEST == Control(X86, mxcsr) && fpcr - FPCR_GUEST == old(fpcr) - FPCR_GUEST
      ensures Original() == old(Original())
    {
      var f := HostTakeFlags();
      ControlRounds(X86, mxcsr, {});
      HostInstall(Control(X86, mxcsr));
    }

    /** An invalid operation whose result the emulator supplied itself: the host flag is raised for it. */
    method RaiseInvalid(abi: Abi)
      modifies `fpsr
      ensures View(abi, true) == Lazy(old(View(abi, true)), Operate({IOC}))
    {
      fpsr := fpsr + {IOC};
    }

    /** While guest code runs, the host FPCR holds the guest's control. */
    ghost predicate Controlled(abi: Abi, inside: bool)
      reads this
    {
      inside ==> fpcr * FPCR_GUEST == Control(abi, ControlRegister(abi))
    }

    /** The guest's registers are changed from outside guest code. */
    method Replaced(abi: Abi, v: Word)
      modifies `mxcsr, `arm64Fpsr, `riscv64Fcsr, `ppc64Fpscr
      ensures Flags(abi) == v && OnlyFlags(abi)
    {
      match abi
      case X86 => mxcsr := v;
      case Arm64 => arm64Fpsr := v;
      case Riscv64 => riscv64Fcsr := v;
      case Ppc64 => ppc64Fpscr := v;
    }

    /** One event of a run. */
    method Perform(abi: Abi, ghost inside: bool, e: Event)
      requires Valid() && Possible(View(abi, inside), e) && Controlled(abi, inside)
      modifies this
      ensures Valid() && Original() == old(Original())
      ensures var s := Lazy(old(View(abi, inside)), e);
              View(s.abi, s.inside) == s && Controlled(s.abi, s.inside)
      ensures e.HostDefault? ==> fpcr == Original()
    {
      match e
      case Enter => Enter(abi);
      case Operate(r) => fpsr := fpsr + r;
      case Sync =>
        ChargeKeepsControl(mxcsr, fpsr * FPSR_FLAGS);
        X86SyncMxcsr();
      case Load(v) =>
        ghost var before := mxcsr;
        mxcsr := v;
        X86LoadMxcsr(before);
      case Exit => Exit(abi);
      case Emulate(r) => fpsr := fpsr + r;
      case Replace(v) => Replaced(abi, v);
      case Exec(next, v) => Replaced(next, v);
      case HostDefault => HostDefault();
    }

    /** Any run, through any guests one after another: the registers follow the lazy machine, guest code always runs
        under its own control, and the thread's original FPCR is never forgotten. */
    method Run(abi: Abi, ghost inside: bool, es: seq<Event>)
      requires Valid() && Controlled(abi, inside) && PossibleRun(View(abi, inside), es)
      modifies this
      ensures Valid() && Original() == old(Original())
      ensures var s := LazyRun(old(View(abi, inside)), es);
              View(s.abi, s.inside) == s && Controlled(s.abi, s.inside)
      ensures if es == [] then unchanged(this) else es[|es| - 1].HostDefault? ==> fpcr == Original()
      decreases |es|
    {
      if es != [] {
        ghost var s := Lazy(View(abi, inside), es[0]);
        Perform(abi, inside, es[0]);
        Run(if es[0].Exec? then es[0].abi else abi, s.inside, es[1..]);
      }
    }
  }

  /** Only the flags of the host's FPSR count. */
  lemma FoldedFlagsOnly(abi: Abi, reg: Word, fpsr: Word)
    ensures Folded(abi, reg, Charge(abi, reg, fpsr * FPSR_FLAGS), fpsr)
  {
    ChargeInNumbers(abi, reg, fpsr * FPSR_FLAGS);
    HostInNumbers();
    assert fpsr * FPSR_FLAGS * {0, 1, 2, 3, 4, 7, 27} == fpsr * {0, 1, 2, 3, 4, 7, 27};
  }

  lemma ChargeKeepsControl(mxcsr: Word, f: Word)
    ensures Control(X86, Charge(X86, mxcsr, f)) == Control(X86, mxcsr)
  {
    assert Bits(X86, mxcsr, f) <= {IE, DE, ZE, OE, UE, PE};
    assert 13 in Charge(X86, mxcsr, f) <==> 13 in mxcsr;
    assert 14 in Charge(X86, mxcsr, f) <==> 14 in mxcsr;
  }

  lemma NothingToTake(v: Word, flags: Word)
    ensures v * flags == {} ==> v - flags == v
  {
    if v * flags == {} {
      forall x | x in v ensures x in v - flags { assert x !in v * flags; }
    }
  }

  lemma NoneLeft(a: Word, b: Word)
    ensures a - b == {} <==> a <= b
  {
    if a - b == {} {
      forall x | x in a ensures x in b { assert x !in a - b; }
    }
  }

  function When(f: Word, flag: nat, bit: nat): Word { if flag in f then {bit} else {} }

  /** The guest's own flags, in host FPSR bits. */
  function GuestFlagsAsHost(abi: Abi, reg: Word): Word {
    match abi
    case X86 =>
      When(reg, IE, IOC) + When(reg, DE, IDC) + When(reg, ZE, DZC) + When(reg, OE, OFC) + When(reg, UE, UFC)
      + When(reg, PE, IXC)
    case Arm64 => reg * FPSR_FLAGS
    case Riscv64 =>
      When(reg, NV, IOC) + When(reg, DZ, DZC) + When(reg, OF, OFC) + When(reg, UF, UFC) + When(reg, NX, IXC)
    case Ppc64 =>
      When(reg, VX, IOC) + When(reg, ZX, DZC) + When(reg, OX, OFC) + When(reg, UX, UFC) + When(reg, XX, IXC)
  }

  lemma SeenAre(abi: Abi, reg: Word)
    ensures GuestFlagsAsHost(abi, reg) == Seen(abi, reg)
  {
    forall x ensures x in GuestFlagsAsHost(abi, reg) <==> x in Seen(abi, reg) {
      SeenOne(abi, reg, x);
    }
  }

  lemma SeenOne(abi: Abi, reg: Word, x: nat)
    ensures x in GuestFlagsAsHost(abi, reg) <==> x in FPSR_FLAGS && Shown(abi, x) * reg != {}
  {
    match abi
    case X86 => SeenX86(reg, x);
    case Arm64 => if x in FPSR_FLAGS { Meets({x}, reg, x); }
    case Riscv64 => SeenRiscv64(reg, x);
    case Ppc64 => SeenPpc64(reg, x);
  }

  lemma Meets(s: Word, reg: Word, b: nat)
    requires s == {b}
    ensures s * reg != {} <==> b in reg
  {
    assert b in reg ==> b in s * reg;
  }

  lemma SeenX86(reg: Word, x: nat)
    ensures x in GuestFlagsAsHost(X86, reg) <==> x in FPSR_FLAGS && Shown(X86, x) * reg != {}
  {
    if x in {IOC, IDC, DZC, OFC, UFC, IXC} {
      var b :| Shown(X86, x) == {b};
      Meets(Shown(X86, x), reg, b);
    }
  }

  lemma SeenRiscv64(reg: Word, x: nat)
    ensures x in GuestFlagsAsHost(Riscv64, reg) <==> x in FPSR_FLAGS && Shown(Riscv64, x) * reg != {}
  {
    if x in {IOC, DZC, OFC, UFC, IXC} {
      var b :| Shown(Riscv64, x) == {b};
      Meets(Shown(Riscv64, x), reg, b);
    }
  }

  lemma SeenPpc64(reg: Word, x: nat)
    ensures x in GuestFlagsAsHost(Ppc64, reg) <==> x in FPSR_FLAGS && Shown(Ppc64, x) * reg != {}
  {
    if x in {IOC, DZC, OFC, UFC, IXC} {
      var b :| Shown(Ppc64, x) == {b};
      Meets(Shown(Ppc64, x), reg, b);
    }
  }

  predicate Holds(m: Word, bit: nat, c: bool) { bit in m <==> c }

  lemma X86BitsAre(reg: Word, f: Word, m: Word)
    requires m <= {IE, DE, ZE, OE, UE, PE}
    requires Holds(m, IE, IOC in f) && Holds(m, DE, IDC in f) && Holds(m, ZE, DZC in f) && Holds(m, OE, OFC in f)
    requires Holds(m, UE, UFC in f) && Holds(m, PE, IXC in f || (UFC in f && FTZ in reg))
    ensures m == Bits(X86, reg, f)
  {
    forall b | b in m ensures b in Bits(X86, reg, f) {
      var x := if b == IE then IOC else if b == DE then IDC else if b == ZE then DZC else if b == OE then OFC
               else if b == UE then UFC else if IXC in f then IXC else UFC;
      assert x in f && b in Shown(X86, x) + Extra(X86, reg, x);
    }
  }

  lemma Riscv64BitsAre(reg: Word, f: Word, m: Word)
    requires m <= {NV, DZ, OF, UF, NX}
    requires Holds(m, NV, IOC in f) && Holds(m, DZ, DZC in f) && Holds(m, OF, OFC in f)
    requires Holds(m, UF, UFC in f) && Holds(m, NX, IXC in f)
    ensures m == Bits(Riscv64, reg, f)
  {
    forall b | b in m ensures b in Bits(Riscv64, reg, f) {
      var x := if b == NV then IOC else if b == DZ then DZC else if b == OF then OFC else if b == UF then UFC else IXC;
      assert x in f && b in Shown(Riscv64, x) + Extra(Riscv64, reg, x);
    }
  }

  lemma Ppc64BitsAre(reg: Word, f: Word, m: Word)
    requires m <= {VX, VXSOFT, ZX, OX, UX, XX}
    requires Holds(m, VX, IOC in f) && Holds(m, VXSOFT, IOC in f) && Holds(m, ZX, DZC in f) && Holds(m, OX, OFC in f)
    requires Holds(m, UX, UFC in f) && Holds(m, XX, IXC in f)
    ensures m == Bits(Ppc64, reg, f)
  {
    forall b | b in m ensures b in Bits(Ppc64, reg, f) {
      var x := if b == VX || b == VXSOFT then IOC else if b == ZX then DZC else if b == OX then OFC
               else if b == UX then UFC else IXC;
      assert x in f && b in Shown(Ppc64, x) + Extra(Ppc64, reg, x);
    }
  }

  lemma Arm64BitsAre(reg: Word, f: Word)
    requires f <= FPSR_FLAGS
    ensures Charge(Arm64, reg, f) == reg + f
  {
    forall b | b in f ensures b in Bits(Arm64, reg, f) {
      assert b in Shown(Arm64, b) + Extra(Arm64, reg, b);
    }
  }
}
