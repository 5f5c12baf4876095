/** The 512-byte FXSAVE area: filled from one CPU, restored into another. */
module Fxsave {
  import opened Words
  import opened Rounding
  import opened Normalize

  /** An x87 register: its 64-bit significand, and its sign and exponent in 16 bits. */
  datatype Register = Register(signif: Word, signExp: Word)

  predicate IsRegister(r: Register) { Fits(r.signif, 64) && Fits(r.signExp, 16) }

  /** A register's place in the area: the significand in four 16-bit words. */
  datatype Slot = Slot(significand: seq<Word>, exponent: Word)

  class Cpu {
    var fcw: Word
    var fsw: Word
    var valid: Word
    var mxcsr: Word
    var fp: seq<Register>
    var xmm: seq<seq<Word>>

    constructor ()
      ensures Shaped()
    {
      fcw, fsw, valid, mxcsr := {}, {}, {}, {};
      fp := seq(8, _ => Register({}, {}));
      xmm := seq(16, _ => [{}, {}, {}, {}]);
    }

    /** Eight physical x87 registers, sixteen XMM registers of four elements, an abridged tag for each x87 register. */
    ghost predicate Shaped()
      reads this
    {
      && |fp| == 8 && (forall i :: 0 <= i < 8 ==> IsRegister(fp[i]))
      && |xmm| == 16 && (forall i :: 0 <= i < 16 ==> |xmm[i]| == 4)
      && Fits(valid, 8)
    }
  }

  class Area {
    var fcw: Word
    var fsw: Word
    var ftw: Word
    var mxcsr: Word
    var mxcsrMask: Word
    var st: seq<Slot>
    var xmm: seq<seq<Word>>

    constructor ()
      ensures Shaped()
    {
      fcw, fsw, ftw, mxcsr, mxcsrMask := {}, {}, {}, {}, {};
      st := seq(8, _ => Slot([{}, {}, {}, {}], {}));
      xmm := seq(16, _ => [{}, {}, {}, {}]);
    }

    ghost predicate Shaped()
      reads this
    {
      && |st| == 8 && (forall i :: 0 <= i < 8 ==> |st[i].significand| == 4)
      && |xmm| == 16 && (forall i :: 0 <= i < 16 ==> |xmm[i]| == 4)
    }
  }

  /** The physical number of ST(0), bits 11 to 13 of the status word. */
  function Top(fsw: Word): (t: nat)
    ensures t < 8
  {
    Bit(fsw, 11) + 2 * Bit(fsw, 12) + 4 * Bit(fsw, 13)
  }

  /** t is the number in bits 11 to 13 of the status word. */
  predicate TopIs(fsw: Word, t: nat) {
    t < 8 && (11 in fsw <==> t % 2 == 1) && (12 in fsw <==> t / 2 % 2 == 1) && (13 in fsw <==> t / 4 == 1)
  }

  lemma TopInNumbers(fsw: Word, t: nat)
    ensures TopIs(fsw, t) <==> t == Top(fsw)
  {
  }

  // ---- significands in four words ----

  /** Word j of a significand. */
  function Part(s: Word, j: nat): Word { set b | b in s && 16 * j <= b < 16 * j + 16 :: b - 16 * j }

  /** A word moved up to place j. */
  function Raised(w: Word, j: nat): Word { set b | b in w :: b + 16 * j }

  lemma PartRaised(s: Word, j: nat)
    ensures Raised(Part(s, j), j) == set b | b in s && 16 * j <= b < 16 * j + 16
  {
    forall b | b in s && 16 * j <= b < 16 * j + 16 ensures b in Raised(Part(s, j), j) {
      assert b - 16 * j in Part(s, j);
    }
  }

  /** A significand as four words. */
  method Split(s: Word) returns (ws: seq<Word>)
    ensures |ws| == 4 && forall j :: 0 <= j < 4 ==> ws[j] == Part(s, j)
  {
    ws := [];
    for j := 0 to 4
      invariant |ws| == j && forall k :: 0 <= k < j ==> ws[k] == Part(s, k)
    {
      ws := ws + [Part(s, j)];
    }
  }

  /** The bits below 16 * j of what the words stand for. */
  function Joined(ws: seq<Word>, j: nat): Word
    requires j <= |ws|
  {
    if j == 0 then {} else Joined(ws, j - 1) + Raised(ws[j - 1], j - 1)
  }

  /** Four words as a significand. */
  method Join(ws: seq<Word>) returns (s: Word)
    requires |ws| == 4
    ensures s == Joined(ws, 4)
  {
    s := {};
    for j := 0 to 4
      invariant s == Joined(ws, j)
    {
      s := s + Raised(ws[j], j);
    }
  }

  lemma {:induction false} JoinedParts(s: Word, ws: seq<Word>, j: nat)
    requires j <= |ws| && forall k :: 0 <= k < j ==> ws[k] == Part(s, k)
    ensures Joined(ws, j) == set b | b in s && b < 16 * j
  {
    if j > 0 {
      JoinedParts(s, ws, j - 1);
      PartRaised(s, j - 1);
    }
  }

  lemma SplitJoin(s: Word, ws: seq<Word>)
    requires Fits(s, 64) && |ws| == 4 && forall j :: 0 <= j < 4 ==> ws[j] == Part(s, j)
    ensures Joined(ws, 4) == s
  {
    JoinedParts(s, ws, 4);
  }

  // ---- tags ----

  datatype Tag = Valid | Zero | Special | Empty

  /** The two-bit code of a tag: 00, 01, 10, 11. */
  function Code(t: Tag): Word {
    match t
    case Valid => {}
    case Zero => {0}
    case Special => {1}
    case Empty => {0, 1}
  }

  /** The exponent field is neither all zeros nor all ones, and the integer bit is set. */
  ghost predicate Normal(r: Register) {
    63 in r.signif && (exists b: nat :: b < 15 && b in r.signExp) && (exists b: nat :: b < 15 && b !in r.signExp)
  }

  /** Every bit but the sign is clear. */
  ghost predicate IsZero(r: Register) {
    r.signif == {} && forall b :: b in r.signExp ==> b == 15
  }

  /** x87_tag_of. */
  function TagOf(valid: Word, fp: seq<Register>, i: nat): (t: Tag)
    requires i < |fp| && IsRegister(fp[i])
    ensures t == Empty <==> i !in valid
    ensures t == Zero <==> i in valid && IsZero(fp[i])
    ensures t == Valid <==> i in valid && Normal(fp[i])
  {
    TagClasses(fp[i]);
    if i !in valid then Empty
    else
      var exp := fp[i].signExp - {15};
      if exp == {} then (if fp[i].signif == {} then Zero else Special)
      else if exp >= EXPONENT || 63 !in fp[i].signif then Special
      else Valid
  }

  const EXPONENT: Word := {0, 1, 2, 3, 4, 5, 6, 7, 8, 9, 10, 11, 12, 13, 14}

  lemma TagClasses(r: Register)
    requires IsRegister(r)
    ensures r.signExp - {15} == {} <==> forall b :: b in r.signExp ==> b == 15
    ensures r.signExp - {15} == {} <==> !exists b: nat :: b < 15 && b in r.signExp
    ensures r.signExp - {15} >= EXPONENT <==> !exists b: nat :: b < 15 && b !in r.signExp
  {
    if r.signExp - {15} == {} {
      forall b | b in r.signExp ensures b == 15 { assert b !in r.signExp - {15}; }
    }
    assert forall b: nat :: b in EXPONENT <==> b < 15;
  }

  /** x87_full_tag. */
  method FullTag(cpu: Cpu) returns (tag: Word)
    requires cpu.Shaped()
    ensures forall i :: 0 <= i < 8 ==>
      && (2 * i in tag <==> 0 in Code(TagOf(cpu.valid, cpu.fp, i)))
      && (2 * i + 1 in tag <==> 1 in Code(TagOf(cpu.valid, cpu.fp, i)))
    ensures forall i :: 0 <= i < 8 ==>
      && (2 * i in tag <==> i !in cpu.valid || IsZero(cpu.fp[i]))
      && (2 * i + 1 in tag <==> i !in cpu.valid || !(IsZero(cpu.fp[i]) || Normal(cpu.fp[i])))
    ensures Fits(tag, 16)
  {
    tag := {};
    for i := 0 to 8
      invariant Fits(tag, 2 * i)
      invariant forall k :: 0 <= k < i ==>
        && (2 * k in tag <==> 0 in Code(TagOf(cpu.valid, cpu.fp, k)))
        && (2 * k + 1 in tag <==> 1 in Code(TagOf(cpu.valid, cpu.fp, k)))
    {
      var code := Code(TagOf(cpu.valid, cpu.fp, i));
      tag := tag + (set b | b in code :: b + 2 * i);
    }
    forall i | 0 <= i < 8
      ensures 2 * i in tag <==> i !in cpu.valid || IsZero(cpu.fp[i])
      ensures 2 * i + 1 in tag <==> i !in cpu.valid || !(IsZero(cpu.fp[i]) || Normal(cpu.fp[i]))
    {
      CodeInNumbers(TagOf(cpu.valid, cpu.fp, i));
    }
  }

  lemma CodeInNumbers(t: Tag)
    ensures 0 in Code(t) <==> t.Zero? || t.Empty?
    ensures 1 in Code(t) <==> t.Special? || t.Empty?
  {
  }

  /** x87_valid_from_full_tag. */
  method ValidFromFullTag(tag: Word) returns (valid: Word)
    ensures Fits(valid, 8) && forall i :: 0 <= i < 8 ==> (i in valid <==> !(2 * i in tag && 2 * i + 1 in tag))
  {
    valid := {};
    for i := 0 to 8
      invariant Fits(valid, i) && forall k :: 0 <= k < i ==> (k in valid <==> !(2 * k in tag && 2 * k + 1 in tag))
    {
      if !(2 * i in tag && 2 * i + 1 in tag) {
        valid := valid + {i};
      }
    }
  }

  /** The full tag word says which registers are empty. */
  method TagRoundTrip(cpu: Cpu) returns (valid: Word)
    requires cpu.Shaped()
    ensures valid == cpu.valid
  {
    var tag := FullTag(cpu);
    valid := ValidFromFullTag(tag);
    forall i | 0 <= i < 8 ensures i in valid <==> i in cpu.valid {
      var t := TagOf(cpu.valid, cpu.fp, i);
      assert t == Empty <==> 0 in Code(t) && 1 in Code(t);
    }
  }

  // ---- filling ----

  /** The slot holds the register's bits. */
  predicate SlotHolds(slot: Slot, r: Register) {
    && |slot.significand| == 4 && (forall j :: 0 <= j < 4 ==> slot.significand[j] == Part(r.signif, j))
    && slot.exponent == r.signExp
  }

  /** Bit k of word j of the slot is bit 16 * j + k of the register's significand. */
  ghost predicate HoldsBits(slot: Slot, r: Register) {
    && |slot.significand| == 4 && slot.exponent == r.signExp
    && forall j: nat, k: nat :: j < 4 ==> (k in slot.significand[j] <==> k < 16 && 16 * j + k in r.signif)
  }

  lemma SlotInNumbers(slot: Slot, r: Register)
    requires SlotHolds(slot, r)
    ensures HoldsBits(slot, r)
  {
    forall j: nat, k: nat | j < 4 ensures k in slot.significand[j] <==> k < 16 && 16 * j + k in r.signif {
      PartBit(r.signif, j, k);
    }
  }

  lemma PartBit(s: Word, j: nat, k: nat)
    ensures k in Part(s, j) <==> k < 16 && 16 * j + k in s
  {
    if k < 16 && 16 * j + k in s { assert 16 * j + k - 16 * j == k; }
  }

  /** Bit b of the register's significand is bit b - 16 * j of one of the slot's words j. */
  ghost predicate MadeOf(r: Register, slot: Slot)
    requires |slot.significand| == 4
  {
    var ws := slot.significand;
    && r.signExp == slot.exponent
    && forall b: nat :: b in r.signif <==>
         b in ws[0] || (b >= 16 && b - 16 in ws[1]) || (b >= 32 && b - 32 in ws[2]) || (b >= 48 && b - 48 in ws[3])
  }

  lemma JoinedInNumbers(slot: Slot)
    requires |slot.significand| == 4
    ensures MadeOf(Register(Joined(slot.significand, 4), slot.exponent), slot)
  {
    var ws := slot.significand;
    assert Joined(ws, 1) == Raised(ws[0], 0) && Joined(ws, 2) == Joined(ws, 1) + Raised(ws[1], 1);
    assert Joined(ws, 3) == Joined(ws, 2) + Raised(ws[2], 2) && Joined(ws, 4) == Joined(ws, 3) + Raised(ws[3], 3);
    forall b: nat ensures b in Joined(ws, 4) <==>
      b in ws[0] || (b >= 16 && b - 16 in ws[1]) || (b >= 32 && b - 32 in ws[2]) || (b >= 48 && b - 48 in ws[3])
    {
      RaisedBit(ws[0], 0, b); RaisedBit(ws[1], 1, b); RaisedBit(ws[2], 2, b); RaisedBit(ws[3], 3, b);
    }
  }

  lemma RaisedBit(w: Word, j: nat, b: nat)
    ensures b in Raised(w, j) <==> b >= 16 * j && b - 16 * j in w
  {
    if b >= 16 * j && b - 16 * j in w { assert b - 16 * j + 16 * j == b; }
  }

  function Physical(top: nat, i: nat): (p: nat)
    ensures p < 8
  {
    (top + i) % 8
  }

  /** 0xffff. */
  const MXCSR_MASK: Word := {0, 1, 2, 3, 4, 5, 6, 7, 8, 9, 10, 11, 12, 13, 14, 15}
  const ZEROS: seq<Word> := [{}, {}, {}, {}]

  /** What fxsave_fill leaves: registers in stack order, tags by physical register, unused XMM slots zero. */
  predicate Filled(cpu: Cpu, area: Area, n: nat)
    requires |cpu.fp| == 8 && |cpu.xmm| == 16 && n <= 16
    reads cpu, area
  {
    && area.fcw == cpu.fcw && area.fsw == cpu.fsw && area.ftw == cpu.valid && area.mxcsr == cpu.mxcsr
    && |area.st| == 8 && (forall i :: 0 <= i < 8 ==> SlotHolds(area.st[i], cpu.fp[Physical(Top(cpu.fsw), i)]))
    && |area.xmm| == 16 && (forall i :: 0 <= i < 16 ==> area.xmm[i] == if i < n then cpu.xmm[i] else ZEROS)
  }

  /** The x87 registers, ST(0) first. */
  method FillRegisters(cpu: Cpu, area: Area)
    requires cpu.Shaped() && |area.st| == 8
    modifies area`st
    ensures |area.st| == 8 && forall i :: 0 <= i < 8 ==> SlotHolds(area.st[i], cpu.fp[Physical(Top(cpu.fsw), i)])
  {
    for i := 0 to 8
      invariant |area.st| == 8 && forall k :: 0 <= k < i ==> SlotHolds(area.st[k], cpu.fp[Physical(Top(cpu.fsw), k)])
    {
      var value := cpu.fp[Physical(Top(cpu.fsw), i)];
      var words := Split(value.signif);
      area.st := area.st[i := Slot(words, value.signExp)];
    }
  }

  method CopyElements(from: seq<Word>) returns (to: seq<Word>)
    requires |from| == 4
    ensures to == from
  {
    to := [];
    for j := 0 to 4
      invariant to == from[..j]
    {
      to := to + [from[j]];
    }
  }

  /** The first n XMM registers. */
  method FillXmm(cpu: Cpu, area: Area, n: nat)
    requires cpu.Shaped() && n <= 16 && |area.xmm| == 16 && forall i :: 0 <= i < 16 ==> area.xmm[i] == ZEROS
    modifies area`xmm
    ensures |area.xmm| == 16 && forall i :: 0 <= i < 16 ==> area.xmm[i] == if i < n then cpu.xmm[i] else ZEROS
  {
    for i := 0 to n
      invariant |area.xmm| == 16 && forall k :: 0 <= k < 16 ==> area.xmm[k] == if k < i then cpu.xmm[k] else ZEROS
    {
      var x := CopyElements(cpu.xmm[i]);
      area.xmm := area.xmm[i := x];
    }
  }

  /** fxsave_fill. */
  method Fill(cpu: Cpu, area: Area, n: nat)
    requires cpu.Shaped() && n <= 16
    modifies area
    ensures area.Shaped() && Filled(cpu, area, n) && area.mxcsrMask == MXCSR_MASK
    ensures forall b :: b in area.mxcsrMask <==> 0 <= b < 16
    ensures forall t: nat, i :: TopIs(cpu.fsw, t) && 0 <= i < 8 ==> HoldsBits(area.st[i], cpu.fp[(t + i) % 8])
  {
    area.fcw, area.fsw, area.ftw, area.mxcsr := cpu.fcw, cpu.fsw, cpu.valid, cpu.mxcsr;
    area.mxcsrMask := MXCSR_MASK;
    area.st := seq(8, _ => Slot(ZEROS, {}));
    area.xmm := seq(16, _ => ZEROS);
    FillRegisters(cpu, area);
    FillXmm(cpu, area, n);
    FilledInNumbers(cpu, area);
  }

  lemma FilledInNumbers(cpu: Cpu, area: Area)
    requires cpu.Shaped() && |area.st| == 8
    requires forall i :: 0 <= i < 8 ==> SlotHolds(area.st[i], cpu.fp[Physical(Top(cpu.fsw), i)])
    ensures forall t: nat, i :: TopIs(cpu.fsw, t) && 0 <= i < 8 ==> HoldsBits(area.st[i], cpu.fp[(t + i) % 8])
  {
    forall t: nat, i | TopIs(cpu.fsw, t) && 0 <= i < 8 ensures HoldsBits(area.st[i], cpu.fp[(t + i) % 8]) {
      TopInNumbers(cpu.fsw, t);
      SlotInNumbers(area.st[i], cpu.fp[Physical(t, i)]);
    }
  }

  // ---- restoring ----

  function ModeOf(fcw: Word): Mode {
    if 10 in fcw then (if 11 in fcw then Chop else Down) else if 11 in fcw then Up else Nearest
  }

  /** Precision control: 24, 53 or 64 bits; the reserved code counts as 64. */
  function PrecisionOf(fcw: Word): int {
    if 8 in fcw then 64 else if 9 in fcw then 53 else 24
  }

  /** The rounding and precision fields, by the codes they hold. */
  lemma ControlWordInNumbers(fcw: Word)
    ensures var rc, pc := Bit(fcw, 10) + 2 * Bit(fcw, 11), Bit(fcw, 8) + 2 * Bit(fcw, 9);
            && ModeOf(fcw) == (if rc == 0 then Nearest else if rc == 1 then Down else if rc == 2 then Up else Chop)
            && PrecisionOf(fcw) == (if pc == 0 then 24 else if pc == 2 then 53 else 64)
  {
  }

  /** fpu_ldcw16. */
  method LoadControl(cpu: Cpu, env: Env, fcw: Word)
    modifies cpu`fcw, env`mode, env`precision
    ensures cpu.fcw == fcw && env.mode == ModeOf(fcw) && env.precision == PrecisionOf(fcw)
  {
    cpu.fcw := fcw;
    env.mode, env.precision := ModeOf(fcw), PrecisionOf(fcw);
  }

  lemma PhysicalApart(top: nat, i: nat, k: nat)
    requires i < 8 && k < 8 && i != k
    ensures Physical(top, i) != Physical(top, k)
  {
  }

  /** The x87 registers back into their places, by the TOP just restored. */
  method RestoreRegisters(cpu: Cpu, area: Area)
    requires |cpu.fp| == 8 && |area.st| == 8 && forall i :: 0 <= i < 8 ==> |area.st[i].significand| == 4
    modifies cpu`fp
    ensures |cpu.fp| == 8
    ensures forall i :: 0 <= i < 8 ==>
      cpu.fp[Physical(Top(cpu.fsw), i)] == Register(Joined(area.st[i].significand, 4), area.st[i].exponent)
  {
    var top := Top(cpu.fsw);
    for i := 0 to 8
      invariant |cpu.fp| == 8
      invariant forall k :: 0 <= k < i ==>
        cpu.fp[Physical(top, k)] == Register(Joined(area.st[k].significand, 4), area.st[k].exponent)
    {
      var signif := Join(area.st[i].significand);
      forall k | 0 <= k < i ensures Physical(top, i) != Physical(top, k) { PhysicalApart(top, i, k); }
      cpu.fp := cpu.fp[Physical(top, i) := Register(signif, area.st[i].exponent)];
    }
  }

  /** The first n XMM registers. */
  method RestoreXmm(cpu: Cpu, area: Area, n: nat)
    requires n <= 16 && |cpu.xmm| == 16 && area.Shaped()
    modifies cpu`xmm
    ensures |cpu.xmm| == 16 && forall i :: 0 <= i < 16 ==> cpu.xmm[i] == if i < n then area.xmm[i] else old(cpu.xmm)[i]
  {
    for i := 0 to n
      invariant |cpu.xmm| == 16 && forall k :: 0 <= k < 16 ==>
        cpu.xmm[k] == if k < i then area.xmm[k] else old(cpu.xmm)[k]
    {
      var x := CopyElements(area.xmm[i]);
      cpu.xmm := cpu.xmm[i := x];
    }
  }

  /** fxsave_restore. */
  method Restore(cpu: Cpu, env: Env, area: Area, n: nat)
    requires cpu.Shaped() && area.Shaped() && n <= 16
    modifies cpu, env`mode, env`precision
    ensures cpu.fcw == area.fcw && cpu.fsw == area.fsw && cpu.valid == area.ftw && cpu.mxcsr == area.mxcsr
    ensures env.mode == ModeOf(area.fcw) && env.precision == PrecisionOf(area.fcw)
    ensures |cpu.fp| == 8 && forall i :: 0 <= i < 8 ==>
      cpu.fp[Physical(Top(area.fsw), i)] == Register(Joined(area.st[i].significand, 4), area.st[i].exponent)
    ensures forall t: nat, i :: TopIs(area.fsw, t) && 0 <= i < 8 ==> MadeOf(cpu.fp[(t + i) % 8], area.st[i])
    ensures |cpu.xmm| == 16 && forall i :: 0 <= i < 16 ==> cpu.xmm[i] == if i < n then area.xmm[i] else old(cpu.xmm)[i]
  {
    LoadControl(cpu, env, area.fcw);
    cpu.fsw := area.fsw;
    cpu.valid := area.ftw;
    cpu.mxcsr := area.mxcsr;
    RestoreRegisters(cpu, area);
    RestoreXmm(cpu, area, n);
    RestoredInNumbers(cpu, area);
  }

  lemma RestoredInNumbers(cpu: Cpu, area: Area)
    requires |cpu.fp| == 8 && area.Shaped() && cpu.fsw == area.fsw
    requires forall i :: 0 <= i < 8 ==>
      cpu.fp[Physical(Top(cpu.fsw), i)] == Register(Joined(area.st[i].significand, 4), area.st[i].exponent)
    ensures forall t: nat, i :: TopIs(area.fsw, t) && 0 <= i < 8 ==> MadeOf(cpu.fp[(t + i) % 8], area.st[i])
  {
    forall t: nat, i | TopIs(area.fsw, t) && 0 <= i < 8 ensures MadeOf(cpu.fp[(t + i) % 8], area.st[i]) {
      TopInNumbers(area.fsw, t);
      JoinedInNumbers(area.st[i]);
      assert cpu.fp[Physical(t, i)] == Register(Joined(area.st[i].significand, 4), area.st[i].exponent);
    }
  }

  // ---- the round trip ----

  /** Where physical register p is in the stack. */
  lemma StackPlace(top: nat, p: nat) returns (i: nat)
    requires top < 8 && p < 8
    ensures i < 8 && Physical(top, i) == p
  {
    i := (p + 8 - top) % 8;
  }

  lemma SlotGivesBack(slot: Slot, r: Register)
    requires IsRegister(r) && SlotHolds(slot, r)
    ensures Register(Joined(slot.significand, 4), slot.exponent) == r
  {
    SplitJoin(r.signif, slot.significand);
  }

  /** Whatever TOP the target had, it ends with the source's x87 registers in the same physical places, its control,
      status and tag words, its MXCSR and its first n XMM registers; the other XMM registers are the target's own. */
  method SaveAndRestore(from: Cpu, to: Cpu, env: Env, n: nat)
    requires from.Shaped() && to.Shaped() && n <= 16
    modifies to, env`mode, env`precision
    ensures to.fp == old(from.fp) && to.fcw == old(from.fcw) && to.fsw == old(from.fsw)
    ensures to.valid == old(from.valid) && to.mxcsr == old(from.mxcsr)
    ensures |to.xmm| == 16 && forall i :: 0 <= i < 16 ==>
      to.xmm[i] == if i < n then old(from.xmm)[i] else old(to.xmm)[i]
    ensures env.mode == ModeOf(old(from.fcw)) && env.precision == PrecisionOf(old(from.fcw))
  {
    var area := new Area();
    Fill(from, area, n);
    Restore(to, env, area, n);
    forall p | 0 <= p < 8 ensures to.fp[p] == old(from.fp)[p] {
      var i := StackPlace(Top(old(from.fsw)), p);
      SlotGivesBack(area.st[i], old(from.fp)[p]);
    }
  }
}
