/** LDXR, STXR and CAS of the arm64 interpreter: a monitor that compares values, and runs of many CPUs on one word. */
module Exclusive {
  import Powers

  type U8 = n: nat | n < 256

  /** The monitor's address when it is clear. */
  const U64_MAX: nat := 0xffff_ffff_ffff_ffff
  /** The first address past the arm64 guest's user space. */
  const USER_MAX: nat := 0x1_0000_0000_0000

  // ---- memory ----

  /** Guest memory: bytes from address 0, some of which cannot be written. */
  datatype Memory = Memory(bytes: seq<U8>, readOnly: set<nat>)

  predicate InRange(addr: nat, n: nat) {
    addr < USER_MAX && n <= USER_MAX - addr
  }

  predicate Readable(m: Memory, addr: nat, n: nat) {
    InRange(addr, n) && addr + n <= |m.bytes|
  }

  predicate Writable(m: Memory, addr: nat, n: nat) {
    Readable(m, addr, n) && forall i :: addr <= i < addr + n ==> i !in m.readOnly
  }

  /** The little-endian value of n bytes. */
  function Value(bytes: seq<U8>, addr: nat, n: nat): nat
    requires addr + n <= |bytes|
    decreases n
  {
    if n == 0 then 0 else bytes[addr] + 256 * Value(bytes, addr + 1, n - 1)
  }

  /** bytes with the low n bytes of v at addr. */
  function Put(bytes: seq<U8>, addr: nat, n: nat, v: nat): (r: seq<U8>)
    requires addr + n <= |bytes|
    ensures |r| == |bytes|
    decreases n
  {
    if n == 0 then bytes else Put(bytes[addr := v % 256], addr + 1, n - 1, v / 256)
  }

  /** The low n bytes of v. */
  function Trunc(v: nat, n: nat): nat {
    if n == 0 then 0 else v % 256 + 256 * Trunc(v / 256, n - 1)
  }

  function Modulus(n: nat): nat {
    if n == 0 then 1 else 256 * Modulus(n - 1)
  }

  lemma {:induction false} TruncBound(v: nat, n: nat)
    ensures Trunc(v, n) < Modulus(n)
    ensures v < Modulus(n) ==> Trunc(v, n) == v
    decreases n
  {
    if n > 0 { TruncBound(v / 256, n - 1); }
  }

  lemma {:induction false} TruncSplit(v: nat, n: nat) returns (k: nat)
    ensures v == Trunc(v, n) + k * Modulus(n)
    decreases n
  {
    if n == 0 {
      k := v;
    } else {
      k := TruncSplit(v / 256, n - 1);
      MulAround(k, Modulus(n - 1));
    }
  }

  lemma MulAround(k: nat, m: nat)
    ensures 256 * (k * m) == k * (256 * m)
  {
  }

  lemma TruncIsMod(v: nat, n: nat)
    ensures Modulus(n) > 0 && Trunc(v, n) == v % Modulus(n)
  {
    TruncBound(v, n);
    var k := TruncSplit(v, n);
    Powers.DivideUnique(v, Modulus(n), k, Trunc(v, n));
  }

  lemma {:induction false} TruncAdd(a: nat, b: nat, n: nat)
    ensures Trunc(Trunc(a, n) + b, n) == Trunc(a + b, n)
    decreases n
  {
    if n > 0 {
      var a0, t := a % 256, Trunc(a / 256, n - 1);
      var s := a0 + 256 * t + b;
      assert s / 256 == t + (a0 + b) / 256;
      assert (a + b) / 256 == a / 256 + (a0 + b) / 256;
      TruncAdd(a / 256, (a0 + b) / 256, n - 1);
    }
  }

  lemma {:induction false} PutElsewhere(bytes: seq<U8>, addr: nat, n: nat, v: nat, i: nat)
    requires addr + n <= |bytes| && i < |bytes| && (i < addr || addr + n <= i)
    ensures Put(bytes, addr, n, v)[i] == bytes[i]
    decreases n
  {
    if n > 0 { PutElsewhere(bytes[addr := v % 256], addr + 1, n - 1, v / 256, i); }
  }

  lemma {:induction false} ValueOfPut(bytes: seq<U8>, addr: nat, n: nat, v: nat)
    requires addr + n <= |bytes|
    ensures Value(Put(bytes, addr, n, v), addr, n) == Trunc(v, n)
    decreases n
  {
    if n > 0 {
      var b := bytes[addr := v % 256];
      ValueOfPut(b, addr + 1, n - 1, v / 256);
      PutElsewhere(b, addr + 1, n - 1, v / 256, addr);
    }
  }

  lemma {:induction false} ValueBound(bytes: seq<U8>, addr: nat, n: nat)
    requires addr + n <= |bytes|
    ensures Value(bytes, addr, n) < Modulus(n)
    decreases n
  {
    if n > 0 { ValueBound(bytes, addr + 1, n - 1); }
  }

  /** Byte j of v. */
  function ByteOf(v: nat, j: nat): nat {
    if j == 0 then v % 256 else ByteOf(v / 256, j - 1)
  }

  lemma {:induction false} ByteOfValue(bytes: seq<U8>, addr: nat, n: nat, j: nat)
    requires addr + n <= |bytes| && j < n
    ensures ByteOf(Value(bytes, addr, n), j) == bytes[addr + j]
    decreases n
  {
    if j > 0 { ByteOfValue(bytes, addr + 1, n - 1, j - 1); }
  }

  lemma BytesOfValue(bytes: seq<U8>, addr: nat, n: nat)
    requires addr + n <= |bytes|
    ensures forall j :: 0 <= j < n ==> ByteOf(Value(bytes, addr, n), j) == bytes[addr + j]
  {
    forall j | 0 <= j < n ensures ByteOf(Value(bytes, addr, n), j) == bytes[addr + j] {
      ByteOfValue(bytes, addr, n, j);
    }
  }

  // ---- one CPU ----

  /** The registers these instructions use and the exclusive monitor. */
  datatype Cpu = Cpu(regs: seq<nat>, sp: nat, exclAddr: nat, exclVal: nat)

  predicate Valid(c: Cpu) { |c.regs| == 31 }

  datatype Outcome = Outcome(cpu: Cpu, mem: Memory, fault: bool)

  function RegZr(c: Cpu, r: nat): nat
    requires Valid(c) && r <= 31
  {
    if r == 31 then 0 else c.regs[r]
  }

  function RegSp(c: Cpu, r: nat): nat
    requires Valid(c) && r <= 31
  {
    if r == 31 then c.sp else c.regs[r]
  }

  /** A write of Wd clears the upper half of Xd; a write of register 31 is discarded. */
  function SetReg(c: Cpu, r: nat, wide: bool, v: nat): (c': Cpu)
    requires Valid(c) && r <= 31
    ensures Valid(c')
  {
    if r == 31 then c else c.(regs := c.regs[r := if wide then v else Trunc(v, 4)])
  }

  function LoadExclusive(c: Cpu, m: Memory, n: nat, rn: nat, rt: nat): Outcome
    requires Valid(c) && rn <= 31 && rt <= 31
  {
    var addr := RegSp(c, rn);
    if !Readable(m, addr, n) then Outcome(c, m, true)
    else
      var v := Value(m.bytes, addr, n);
      Outcome(SetReg(c, rt, n == 8, v).(exclAddr := addr, exclVal := v), m, false)
  }

  /** The monitor still holds this address, and memory the value it was loaded with. */
  predicate Holds(c: Cpu, m: Memory, n: nat, addr: nat)
    requires Readable(m, addr, n)
  {
    Trunc(Value(m.bytes, addr, n), n) == Trunc(c.exclVal, n)
  }

  function StoreExclusive(c: Cpu, m: Memory, n: nat, rn: nat, rs: nat, rt: nat): Outcome
    requires Valid(c) && rn <= 31 && rs <= 31 && rt <= 31
  {
    var addr := RegSp(c, rn);
    var cleared := c.(exclAddr := U64_MAX);
    if c.exclAddr != addr then Outcome(SetReg(cleared, rs, false, 1), m, false)
    else if !Readable(m, addr, n) then Outcome(c, m, true)
    else if !Holds(c, m, n, addr) then Outcome(SetReg(cleared, rs, false, 1), m, false)
    else if !Writable(m, addr, n) then Outcome(c, m, true)
    else Outcome(SetReg(cleared, rs, false, 0), m.(bytes := Put(m.bytes, addr, n, RegZr(c, rt))), false)
  }

  function CompareAndSwap(c: Cpu, m: Memory, n: nat, rn: nat, rs: nat, rt: nat): Outcome
    requires Valid(c) && rn <= 31 && rs <= 31 && rt <= 31
  {
    var addr := RegSp(c, rn);
    if !Readable(m, addr, n) then Outcome(c, m, true)
    else
      var cur := Value(m.bytes, addr, n);
      if cur != Trunc(RegZr(c, rs), n) then Outcome(SetReg(c, rs, n == 8, cur), m, false)
      else if !Writable(m, addr, n) then Outcome(c, m, true)
      else Outcome(SetReg(c, rs, n == 8, cur), m.(bytes := Put(m.bytes, addr, n, RegZr(c, rt))), false)
  }

  // ---- each instruction in full, without the functions above ----

  /** The guest's addresses end at 2^48; an access must lie below, in mapped memory, and a write off read-only bytes. */
  lemma AccessInNumbers(m: Memory, addr: nat, n: nat)
    ensures Readable(m, addr, n) <==>
            addr < 0x1_0000_0000_0000 && addr + n <= 0x1_0000_0000_0000 && addr + n <= |m.bytes|
    ensures Writable(m, addr, n) <==> Readable(m, addr, n) && forall i :: addr <= i < addr + n ==> i !in m.readOnly
    ensures Modulus(1) == 0x100 && Modulus(2) == 0x1_0000 && Modulus(4) == 0x1_0000_0000
    ensures Modulus(8) == 0x1_0000_0000_0000_0000 && U64_MAX == Modulus(8) - 1
  {
  }

  /** Of the registers only number but may have changed. */
  predicate KeepsRegisters(c: Cpu, d: Cpu, but: nat) {
    |d.regs| == |c.regs| && d.sp == c.sp && forall r :: 0 <= r < |c.regs| && r != but ==> d.regs[r] == c.regs[r]
  }

  /** m' is m with the low n bytes of v at addr. */
  predicate Stored(m: Memory, m': Memory, addr: nat, n: nat, v: nat) {
    && |m'.bytes| == |m.bytes| && m'.readOnly == m.readOnly && addr + n <= |m.bytes|
    && (forall j :: 0 <= j < n ==> m'.bytes[addr + j] == ByteOf(v, j))
    && (forall i :: 0 <= i < |m.bytes| && !(addr <= i < addr + n) ==> m'.bytes[i] == m.bytes[i])
  }

  /** LDXR: the base is SP when it is register 31. Rt holds the loaded value in full, upper bits zero; the monitor is
      set; nothing else has changed. */
  lemma LoadExclusiveFully(c: Cpu, m: Memory, n: nat, rn: nat, rt: nat)
    requires Valid(c) && rn <= 31 && rt <= 31 && n in {1, 2, 4, 8}
    ensures var o, addr := LoadExclusive(c, m, n, rn, rt), if rn == 31 then c.sp else c.regs[rn];
            && o.mem == m && (o.fault <==> !Readable(m, addr, n)) && (o.fault ==> o.cpu == c)
            && (!o.fault ==>
                  && KeepsRegisters(c, o.cpu, rt) && o.cpu.exclAddr == addr
                  && o.cpu.exclVal == Value(m.bytes, addr, n) && (rt < 31 ==> o.cpu.regs[rt] == o.cpu.exclVal))
  {
    var addr := if rn == 31 then c.sp else c.regs[rn];
    if Readable(m, addr, n) {
      ValueBound(m.bytes, addr, n);
      NarrowFits(Value(m.bytes, addr, n), n);
    }
  }

  /** A value of at most four bytes is its own low half. */
  lemma NarrowFits(v: nat, n: nat)
    requires n in {1, 2, 4, 8} && v < Modulus(n)
    ensures n != 8 ==> Trunc(v, 4) == v
  {
    TruncBound(v, 4);
  }

  /** STXR: it stores Rt, or zero for register 31, exactly when the monitor holds the address and the word the value
      loaded; only Rs, which tells whether it did, the monitor's address and the word have changed. */
  lemma StoreExclusiveFully(c: Cpu, m: Memory, n: nat, rn: nat, rs: nat, rt: nat)
    requires Valid(c) && rn <= 31 && rs <= 31 && rt <= 31
    ensures var o, addr := StoreExclusive(c, m, n, rn, rs, rt), if rn == 31 then c.sp else c.regs[rn];
            var held := c.exclAddr == addr && Readable(m, addr, n) && Value(m.bytes, addr, n) == Trunc(c.exclVal, n);
            && (o.fault <==> c.exclAddr == addr && (!Readable(m, addr, n) || (held && !Writable(m, addr, n))))
            && (o.fault ==> o.cpu == c && o.mem == m)
            && (!o.fault ==>
                  && KeepsRegisters(c, o.cpu, rs) && o.cpu.exclVal == c.exclVal && o.cpu.exclAddr == U64_MAX
                  && (rs < 31 ==> o.cpu.regs[rs] == if held then 0 else 1)
                  && (if held then Stored(m, o.mem, addr, n, if rt == 31 then 0 else c.regs[rt]) else o.mem == m))
  {
    var addr := if rn == 31 then c.sp else c.regs[rn];
    TruncBound(1, 4); TruncBound(0, 4);
    assert Modulus(4) > 1;
    if Readable(m, addr, n) {
      ValueBound(m.bytes, addr, n); TruncBound(Value(m.bytes, addr, n), n);
      PutStores(m, addr, n, if rt == 31 then 0 else c.regs[rt]);
    }
  }

  /** CAS: the word becomes Rt exactly when it held the low bytes of Rs; Rs gets what was found, in full, and nothing
      else has changed, the monitor included. */
  lemma CompareAndSwapFully(c: Cpu, m: Memory, n: nat, rn: nat, rs: nat, rt: nat)
    requires Valid(c) && rn <= 31 && rs <= 31 && rt <= 31 && n in {1, 2, 4, 8}
    ensures var o, addr := CompareAndSwap(c, m, n, rn, rs, rt), if rn == 31 then c.sp else c.regs[rn];
            var equal := Readable(m, addr, n) &&
                         Value(m.bytes, addr, n) == Trunc(if rs == 31 then 0 else c.regs[rs], n);
            && (o.fault <==> !Readable(m, addr, n) || (equal && !Writable(m, addr, n)))
            && (o.fault ==> o.cpu == c && o.mem == m)
            && (!o.fault ==>
                  && KeepsRegisters(c, o.cpu, rs) && o.cpu.exclVal == c.exclVal && o.cpu.exclAddr == c.exclAddr
                  && (rs < 31 ==> o.cpu.regs[rs] == Value(m.bytes, addr, n))
                  && (if equal then Stored(m, o.mem, addr, n, if rt == 31 then 0 else c.regs[rt]) else o.mem == m))
  {
    var addr := if rn == 31 then c.sp else c.regs[rn];
    if Readable(m, addr, n) {
      ValueBound(m.bytes, addr, n);
      NarrowFits(Value(m.bytes, addr, n), n);
      PutStores(m, addr, n, if rt == 31 then 0 else c.regs[rt]);
    }
  }

  lemma PutStores(m: Memory, addr: nat, n: nat, v: nat)
    requires addr + n <= |m.bytes|
    ensures Stored(m, m.(bytes := Put(m.bytes, addr, n, v)), addr, n, v)
  {
    forall i | 0 <= i < |m.bytes| && !(addr <= i < addr + n) ensures Put(m.bytes, addr, n, v)[i] == m.bytes[i] {
      PutElsewhere(m.bytes, addr, n, v, i);
    }
    forall j | 0 <= j < n ensures Put(m.bytes, addr, n, v)[addr + j] == ByteOf(v, j) {
      PutByte(m.bytes, addr, n, v, j);
    }
  }

  lemma {:induction false} PutByte(bytes: seq<U8>, addr: nat, n: nat, v: nat, j: nat)
    requires addr + n <= |bytes| && j < n
    ensures Put(bytes, addr, n, v)[addr + j] == ByteOf(v, j)
    decreases n
  {
    var b := bytes[addr := v % 256];
    if j == 0 { PutElsewhere(b, addr + 1, n - 1, v / 256, addr); } else { PutByte(b, addr + 1, n - 1, v / 256, j - 1); }
  }

  /** The bytes of a value make it up: byte j counts 256^j. */
  lemma {:induction false} BytesMakeUp(v: nat, j: nat)
    ensures ByteOf(v, j) < 256 && Trunc(v, j + 1) == Trunc(v, j) + Modulus(j) * ByteOf(v, j)
    decreases j
  {
    if j > 0 {
      BytesMakeUp(v / 256, j - 1);
      MulInto(Modulus(j - 1), ByteOf(v / 256, j - 1));
    }
  }

  /** A value from its halves, the lower one first. */
  lemma {:induction false} ValueOfHalves(bytes: seq<U8>, addr: nat, k: nat, n: nat)
    requires k <= n && addr + n <= |bytes|
    ensures Value(bytes, addr, n) == Value(bytes, addr, k) + Modulus(k) * Value(bytes, addr + k, n - k)
    decreases k
  {
    if k > 0 {
      ValueOfHalves(bytes, addr + 1, k - 1, n - 1);
      MulInto(Modulus(k - 1), Value(bytes, addr + k, n - k));
    }
  }

  lemma MulInto(m: nat, v: nat)
    ensures 256 * (m * v) == (256 * m) * v
  {
  }

  // ---- the monitor over any instructions of one CPU ----

  /** A clear monitor never lets a store through: no valid address equals its mark. */
  lemma ClearMonitorRefuses(c: Cpu, m: Memory, n: nat, rn: nat, rs: nat, rt: nat)
    requires Valid(c) && rn <= 31 && rs <= 31 && rt <= 31 && c.exclAddr == U64_MAX
    ensures var o := StoreExclusive(c, m, n, rn, rs, rt);
            && o.mem == m
            && (o.fault <==> RegSp(c, rn) == U64_MAX)
            && (!o.fault && rs < 31 ==> o.cpu.regs[rs] == 1)
  {
    assert Trunc(1, 4) == 1 by { TruncBound(1, 4); assert Modulus(4) > 1; }
  }

  datatype Instruction =
    | LDXR(n: nat, rn: nat, rt: nat)
    | STXR(n: nat, rn: nat, rs: nat, rt: nat)
    | CAS(n: nat, rn: nat, rs: nat, rt: nat)
    | OTHER(regs: seq<nat>, sp: nat)       // anything else: registers as it leaves them, monitor untouched

  predicate WellFormed(i: Instruction) {
    match i
    case LDXR(n, rn, rt) => rn <= 31 && rt <= 31
    case STXR(n, rn, rs, rt) => rn <= 31 && rs <= 31 && rt <= 31
    case CAS(n, rn, rs, rt) => rn <= 31 && rs <= 31 && rt <= 31
    case OTHER(regs, sp) => |regs| == 31
  }

  function Execute(c: Cpu, m: Memory, i: Instruction): (o: Outcome)
    requires Valid(c) && WellFormed(i)
    ensures Valid(o.cpu)
  {
    match i
    case LDXR(n, rn, rt) => LoadExclusive(c, m, n, rn, rt)
    case STXR(n, rn, rs, rt) => StoreExclusive(c, m, n, rn, rs, rt)
    case CAS(n, rn, rs, rt) => CompareAndSwap(c, m, n, rn, rs, rt)
    case OTHER(regs, sp) => Outcome(c.(regs := regs, sp := sp), m, false)
  }

  /** The CPU after steps between which other CPUs may have left any memory. */
  function Through(c: Cpu, steps: seq<(Memory, Instruction)>): (c': Cpu)
    requires Valid(c) && forall s :: s in steps ==> WellFormed(s.1)
    ensures Valid(c')
    decreases |steps|
  {
    if steps == [] then c else Through(Execute(c, steps[0].0, steps[0].1).cpu, steps[1..])
  }

  lemma {:induction false} StaysClear(c: Cpu, steps: seq<(Memory, Instruction)>)
    requires Valid(c) && forall s :: s in steps ==> WellFormed(s.1) && !s.1.LDXR?
    requires c.exclAddr == U64_MAX
    ensures Through(c, steps).exclAddr == U64_MAX
    decreases |steps|
  {
    if steps != [] { StaysClear(Execute(c, steps[0].0, steps[0].1).cpu, steps[1..]); }
  }

  /** After a store that completed, no store succeeds until the next load, whatever runs in between. */
  lemma StoreNeedsLoad(c: Cpu, m: Memory, first: Instruction, steps: seq<(Memory, Instruction)>,
                       m': Memory, again: Instruction)
    requires Valid(c) && first.STXR? && WellFormed(first) && again.STXR? && WellFormed(again)
    requires !Execute(c, m, first).fault
    requires forall s :: s in steps ==> WellFormed(s.1) && !s.1.LDXR?
    ensures var o := Execute(Through(Execute(c, m, first).cpu, steps), m', again);
            o.mem == m' && (!o.fault && again.rs < 31 ==> o.cpu.regs[again.rs] == 1)
  {
    var c1 := Execute(c, m, first).cpu;
    StaysClear(c1, steps);
    ClearMonitorRefuses(Through(c1, steps), m', again.n, again.rn, again.rs, again.rt);
  }

  /** A store that fails or faults leaves memory alone; one that succeeds changes only the addressed bytes. */
  lemma StoreExclusiveMemory(c: Cpu, m: Memory, n: nat, rn: nat, rs: nat, rt: nat)
    requires Valid(c) && rn <= 31 && rs < 31 && rt <= 31
    ensures var o, addr := StoreExclusive(c, m, n, rn, rs, rt), RegSp(c, rn);
            && (o.fault ==> o.mem == m && o.cpu == c)
            && (!o.fault ==> o.cpu.regs[rs] <= 1 && o.cpu.exclAddr == U64_MAX)
            && (!o.fault && o.cpu.regs[rs] == 1 ==> o.mem == m)
            && (!o.fault && o.cpu.regs[rs] == 0 ==>
                  && c.exclAddr == addr && Writable(m, addr, n) && Holds(c, m, n, addr)
                  && o.mem == m.(bytes := Put(m.bytes, addr, n, RegZr(c, rt))))
  {
    TruncBound(1, 4); TruncBound(0, 4);
    assert Modulus(4) > 1;
  }

  /** STXR reports success exactly when the monitor holds the address and the word holds, now, the value loaded: what
      happened to the word in between does not matter. */
  lemma StoreSucceedsIff(c: Cpu, m: Memory, n: nat, rn: nat, rs: nat, rt: nat)
    requires Valid(c) && rn <= 31 && rs < 31 && rt <= 31
    ensures var o, addr := StoreExclusive(c, m, n, rn, rs, rt), RegSp(c, rn);
            !o.fault && o.cpu.regs[rs] == 0 <==>
              c.exclAddr == addr && Writable(m, addr, n) && Value(m.bytes, addr, n) == Trunc(c.exclVal, n)
  {
    StoreExclusiveMemory(c, m, n, rn, rs, rt);
    var addr := RegSp(c, rn);
    TruncBound(0, 4);
    if Readable(m, addr, n) {
      ValueBound(m.bytes, addr, n);
      TruncBound(Value(m.bytes, addr, n), n);
    }
  }

  // ---- the interpreter's arms, on the CPU and memory they update ----

  class Ram {
    var bytes: seq<U8>
    const readOnly: set<nat>

    constructor (b: seq<U8>, r: set<nat>)
      ensures bytes == b && readOnly == r
    {
      bytes, readOnly := b, r;
    }

    function View(): Memory
      reads this
    {
      Memory(bytes, readOnly)
    }

    /** arm64_mem_read: byte j of the value is byte j of memory, and there is nothing above byte n - 1. */
    method Read(addr: nat, n: nat) returns (ok: bool, v: nat)
      ensures ok == Readable(View(), addr, n)
      ensures ok ==> v < Modulus(n) && forall j :: 0 <= j < n ==> ByteOf(v, j) == bytes[addr + j]
      ensures ok ==> v == Value(bytes, addr, n)
    {
      v := 0;
      if !(addr < USER_MAX && n <= USER_MAX - addr) || addr + n > |bytes| {
        return false, v;
      }
      for i := n downto 0
        invariant v == Value(bytes, addr + i, n - i)
      {
        v := 256 * v + bytes[addr + i];
      }
      ValueBound(bytes, addr, n);
      BytesOfValue(bytes, addr, n);
      ok := true;
    }

    /** arm64_mem_write. */
    method Write(addr: nat, n: nat, v: nat) returns (ok: bool)
      modifies this
      ensures ok == Writable(old(View()), addr, n)
      ensures View() == if ok then old(View()).(bytes := Put(old(bytes), addr, n, v)) else old(View())
    {
      if !(addr < USER_MAX && n <= USER_MAX - addr) || addr + n > |bytes| {
        return false;
      }
      for i := addr to addr + n
        invariant forall j :: addr <= j < i ==> j !in readOnly
      {
        if i in readOnly {
          return false;
        }
      }
      var w := v;
      for i := 0 to n
        invariant |bytes| == |old(bytes)| && Put(bytes, addr + i, n - i, w) == Put(old(bytes), addr, n, v)
      {
        bytes := bytes[addr + i := w % 256];
        w := w / 256;
      }
      ok := true;
    }
  }

  class Core {
    var regs: seq<nat>
    var sp: nat
    var exclAddr: nat
    var exclVal: nat

    constructor (c: Cpu)
      ensures View() == c
    {
      regs, sp, exclAddr, exclVal := c.regs, c.sp, c.exclAddr, c.exclVal;
    }

    function View(): Cpu
      reads this
    {
      Cpu(regs, sp, exclAddr, exclVal)
    }

    /** arm64_reg_set_discard. */
    method Set(r: nat, wide: bool, v: nat)
      requires |regs| == 31 && r <= 31
      modifies `regs
      ensures View() == SetReg(old(View()), r, wide, v)
    {
      if r == 31 {
        return;
      }
      regs := regs[r := if wide then v else Trunc(v, 4)];
    }

    /** LDXR. */
    method Ldxr(ram: Ram, n: nat, rn: nat, rt: nat) returns (fault: bool)
      requires |regs| == 31 && rn <= 31 && rt <= 31
      modifies this
      ensures Outcome(View(), ram.View(), fault) == LoadExclusive(old(View()), old(ram.View()), n, rn, rt)
    {
      var addr := if rn == 31 then sp else regs[rn];
      var ok, v := ram.Read(addr, n);
      if !ok {
        return true;
      }
      Set(rt, n == 8, v);
      exclAddr := addr;
      exclVal := v;
      return false;
    }

    /** STXR. */
    method Stxr(ram: Ram, n: nat, rn: nat, rs: nat, rt: nat) returns (fault: bool)
      requires |regs| == 31 && rn <= 31 && rs <= 31 && rt <= 31
      modifies this, ram
      ensures Outcome(View(), ram.View(), fault) == StoreExclusive(old(View()), old(ram.View()), n, rn, rs, rt)
    {
      var addr := if rn == 31 then sp else regs[rn];
      var stored := false;
      if exclAddr == addr {
        var ok, cur := ram.Read(addr, n);
        if !ok {
          return true;
        }
        if Trunc(cur, n) == Trunc(exclVal, n) {
          var v := if rt == 31 then 0 else regs[rt];
          ok := ram.Write(addr, n, v);
          if !ok {
            return true;
          }
          stored := true;
        }
      }
      exclAddr := U64_MAX;
      Set(rs, false, if stored then 0 else 1);
      return false;
    }

    /** CAS. */
    method Cas(ram: Ram, n: nat, rn: nat, rs: nat, rt: nat) returns (fault: bool)
      requires |regs| == 31 && rn <= 31 && rs <= 31 && rt <= 31
      modifies this, ram
      ensures Outcome(View(), ram.View(), fault) == CompareAndSwap(old(View()), old(ram.View()), n, rn, rs, rt)
    {
      var addr := if rn == 31 then sp else regs[rn];
      var ok, cur := ram.Read(addr, n);
      if !ok {
        return true;
      }
      var expected := Trunc(if rs == 31 then 0 else regs[rs], n);
      if cur == expected {
        var v := if rt == 31 then 0 else regs[rt];
        ok := ram.Write(addr, n, v);
        if !ok {
          return true;
        }
      }
      Set(rs, n == 8, cur);
      return false;
    }
  }
}
