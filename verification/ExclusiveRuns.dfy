/** Any number of CPUs incrementing one word, by LDXR, ADD, STXR or by CAS, their instructions interleaved anyhow. */
module ExclusiveRuns {
  import opened Exclusive

  /** The word all CPUs work on: its size in bytes and its address. */
  datatype Location = Location(n: nat, addr: nat)

  /** The word and the registers one CPU uses for one increment of it. */
  datatype Setup = Setup(n: nat, addr: nat, rn: nat, rs: nat, rt: nat)

  predicate Proper(u: Setup) {
    && u.n in {1, 2, 4, 8} && u.rn <= 31 && u.rs < 31 && u.rt < 31
    && u.rn != u.rs && u.rn != u.rt && u.rs != u.rt
  }

  predicate Uses(u: Setup, w: Location) { Proper(u) && u.n == w.n && u.addr == w.addr }

  /** Where a CPU is in an increment, and with which registers. */
  datatype Phase = Idle | Loaded(u: Setup) | Added(u: Setup) | Expecting(u: Setup)

  datatype System = System(cpus: seq<Cpu>, phases: seq<Phase>, mem: Memory, wins: nat)

  datatype Action =
    | Load(i: nat, u: Setup)                         // LDXR rt, [rn]
    | Add(i: nat, wide: bool)                        // ADD rt, rt, #1
    | Store(i: nat)                                  // STXR rs, rt, [rn]
    | Expect(i: nat, u: Setup, e: nat, wide: bool)   // rs and rt made ready to swap e for e + 1
    | Swap(i: nat)                                   // CAS rs, rt, [rn]
    | Other(i: nat, regs: seq<nat>, sp: nat)         // between increments: any registers, the monitor untouched

  function AddBytes(wide: bool): nat { if wide then 8 else 4 }

  /** Each increment is free in its registers, as long as its base register holds the word's address. */
  predicate Enabled(w: Location, s: System, a: Action) {
    && |s.phases| == |s.cpus| && a.i < |s.cpus| && Valid(s.cpus[a.i])
    && (!s.phases[a.i].Idle? ==> Uses(s.phases[a.i].u, w))
    && match a
       case Load(i, u) => Uses(u, w) && RegSp(s.cpus[i], u.rn) == w.addr
       case Add(i, wide) => s.phases[i].Loaded? && w.n <= AddBytes(wide)
       case Store(i) => s.phases[i].Added?
       case Expect(i, u, e, wide) => Uses(u, w) && RegSp(s.cpus[i], u.rn) == w.addr && w.n <= AddBytes(wide)
       case Swap(i) => s.phases[i].Expecting?
       case Other(i, regs, sp) => s.phases[i].Idle? && |regs| == 31
  }

  function Updated(s: System, i: nat, c: Cpu, p: Phase, m: Memory, won: bool): System
    requires i < |s.cpus| && i < |s.phases|
  {
    System(s.cpus[i := c], s.phases[i := p], m, s.wins + if won then 1 else 0)
  }

  /** One instruction of one CPU. A fault leaves the CPU where it was. A win is what the CPU is told: STXR's status is
      0, or CAS returns the value it expected. */
  function Next(w: Location, s: System, a: Action): System
    requires Enabled(w, s, a)
  {
    var c, p := s.cpus[a.i], s.phases[a.i];
    match a
    case Load(i, u) =>
      var o := LoadExclusive(c, s.mem, u.n, u.rn, u.rt);
      Updated(s, i, o.cpu, if o.fault then p else Loaded(u), o.mem, false)
    case Add(i, wide) =>
      var u := p.u;
      Updated(s, i, c.(regs := c.regs[u.rt := Trunc(c.regs[u.rt] + 1, AddBytes(wide))]), Added(u), s.mem, false)
    case Store(i) =>
      var u := p.u;
      var o := StoreExclusive(c, s.mem, u.n, u.rn, u.rs, u.rt);
      Updated(s, i, o.cpu, if o.fault then p else Idle, o.mem, !o.fault && o.cpu.regs[u.rs] == 0)
    case Expect(i, u, e, wide) =>
      Updated(s, i, c.(regs := c.regs[u.rs := e][u.rt := Trunc(e + 1, AddBytes(wide))]), Expecting(u), s.mem, false)
    case Swap(i) =>
      var u := p.u;
      var o := CompareAndSwap(c, s.mem, u.n, u.rn, u.rs, u.rt);
      Updated(s, i, o.cpu, if o.fault then p else Idle, o.mem,
              !o.fault && o.cpu.regs[u.rs] == Trunc(c.regs[u.rs], u.n))
    case Other(i, regs, sp) =>
      Updated(s, i, c.(regs := regs, sp := sp), Idle, s.mem, false)
  }

  /** ADD of 64 or of 32 bits: one more, modulo the width, in the data register and in no other. */
  lemma AddInNumbers(w: Location, s: System, i: nat, wide: bool)
    requires Enabled(w, s, Add(i, wide))
    ensures var u, c, d := s.phases[i].u, s.cpus[i], Next(w, s, Add(i, wide)).cpus[i];
            && d.regs[u.rt] == (c.regs[u.rt] + 1) % (if wide then 0x1_0000_0000_0000_0000 else 0x1_0000_0000)
            && KeepsRegisters(c, d, u.rt) && d.exclAddr == c.exclAddr && d.exclVal == c.exclVal
  {
    TruncIsMod(s.cpus[i].regs[s.phases[i].u.rt] + 1, AddBytes(wide));
    AccessInNumbers(s.mem, 0, 0);
  }

  // ---- what every instruction keeps ----

  /** A CPU about to store or swap holds one more than what it loaded or expects. */
  predicate CpuReady(w: Location, c: Cpu, p: Phase) {
    && Valid(c)
    && (!p.Idle? ==> Uses(p.u, w) && RegSp(c, p.u.rn) == w.addr)
    && match p
       case Idle => true
       case Loaded(u) => Trunc(c.regs[u.rt], u.n) == Trunc(c.exclVal, u.n)
       case Added(u) => Trunc(c.regs[u.rt], u.n) == Trunc(c.exclVal + 1, u.n)
       case Expecting(u) => Trunc(c.regs[u.rt], u.n) == Trunc(c.regs[u.rs] + 1, u.n)
  }

  /** Memory is m0 but for the word, which has counted the wins. */
  predicate MemoryCounts(w: Location, m0: Memory, m: Memory, wins: nat) {
    && Readable(m0, w.addr, w.n) && |m.bytes| == |m0.bytes| && m.readOnly == m0.readOnly
    && (forall i :: 0 <= i < |m.bytes| && !(w.addr <= i < w.addr + w.n) ==> m.bytes[i] == m0.bytes[i])
    && Value(m.bytes, w.addr, w.n) == Trunc(Value(m0.bytes, w.addr, w.n) + wins, w.n)
  }

  predicate Invariant(w: Location, m0: Memory, s: System) {
    && |s.phases| == |s.cpus|
    && (forall i :: 0 <= i < |s.cpus| ==> CpuReady(w, s.cpus[i], s.phases[i]))
    && MemoryCounts(w, m0, s.mem, s.wins)
  }

  lemma {:induction false} TruncTrunc(v: nat, n: nat, k: nat)
    requires n <= k
    ensures Trunc(Trunc(v, k), n) == Trunc(v, n)
    decreases n
  {
    if n > 0 {
      assert Trunc(v, k) % 256 == v % 256 && Trunc(v, k) / 256 == Trunc(v / 256, k - 1);
      TruncTrunc(v / 256, n - 1, k - 1);
    }
  }

  lemma OthersKept(bytes: seq<U8>, addr: nat, n: nat, v: nat)
    requires addr + n <= |bytes|
    ensures forall i :: 0 <= i < |bytes| && !(addr <= i < addr + n) ==> Put(bytes, addr, n, v)[i] == bytes[i]
  {
    forall i | 0 <= i < |bytes| && !(addr <= i < addr + n) ensures Put(bytes, addr, n, v)[i] == bytes[i] {
      PutElsewhere(bytes, addr, n, v, i);
    }
  }

  lemma OneMore(total: nat, word: nat, held: nat, v: nat, n: nat)
    requires word == Trunc(total, n) && Trunc(held, n) == Trunc(word, n) && Trunc(v, n) == Trunc(held + 1, n)
    ensures Trunc(v, n) == Trunc(total + 1, n)
  {
    TruncAdd(held, 1, n);
    TruncAdd(word, 1, n);
    TruncAdd(total, 1, n);
  }

  /** Storing one more than the word holds counts one win. */
  lemma StoreCounts(w: Location, m0: Memory, m: Memory, wins: nat, held: nat, v: nat)
    requires MemoryCounts(w, m0, m, wins)
    requires Trunc(held, w.n) == Trunc(Value(m.bytes, w.addr, w.n), w.n) && Trunc(v, w.n) == Trunc(held + 1, w.n)
    ensures MemoryCounts(w, m0, m.(bytes := Put(m.bytes, w.addr, w.n, v)), wins + 1)
  {
    var n, bytes, total := w.n, m.bytes, Value(m0.bytes, w.addr, w.n) + wins;
    OthersKept(bytes, w.addr, n, v);
    ValueOfPut(bytes, w.addr, n, v);
    OneMore(total, Value(bytes, w.addr, n), held, v, n);
  }

  lemma LoadKeeps(w: Location, u: Setup, c: Cpu, m: Memory, p: Phase)
    requires CpuReady(w, c, p) && Uses(u, w) && RegSp(c, u.rn) == w.addr
    ensures var o := LoadExclusive(c, m, u.n, u.rn, u.rt);
            o.mem == m && CpuReady(w, o.cpu, if o.fault then p else Loaded(u))
  {
    if Readable(m, w.addr, w.n) && u.n != 8 { TruncTrunc(Value(m.bytes, w.addr, w.n), w.n, 4); }
  }

  lemma AddKeeps(w: Location, u: Setup, c: Cpu, wide: bool)
    requires CpuReady(w, c, Loaded(u)) && w.n <= AddBytes(wide)
    ensures CpuReady(w, c.(regs := c.regs[u.rt := Trunc(c.regs[u.rt] + 1, AddBytes(wide))]), Added(u))
  {
    TruncTrunc(c.regs[u.rt] + 1, u.n, AddBytes(wide));
    TruncAdd(c.regs[u.rt], 1, u.n);
    TruncAdd(c.exclVal, 1, u.n);
  }

  lemma ExpectKeeps(w: Location, u: Setup, c: Cpu, e: nat, wide: bool)
    requires Valid(c) && Uses(u, w) && RegSp(c, u.rn) == w.addr && w.n <= AddBytes(wide)
    ensures CpuReady(w, c.(regs := c.regs[u.rs := e][u.rt := Trunc(e + 1, AddBytes(wide))]), Expecting(u))
  {
    TruncTrunc(e + 1, u.n, AddBytes(wide));
  }

  lemma StoreKeeps(w: Location, u: Setup, m0: Memory, c: Cpu, m: Memory, wins: nat)
    requires CpuReady(w, c, Added(u)) && MemoryCounts(w, m0, m, wins)
    ensures var o := StoreExclusive(c, m, u.n, u.rn, u.rs, u.rt);
            && CpuReady(w, o.cpu, if o.fault then Added(u) else Idle)
            && MemoryCounts(w, m0, o.mem, wins + if !o.fault && o.cpu.regs[u.rs] == 0 then 1 else 0)
  {
    var o := StoreExclusive(c, m, u.n, u.rn, u.rs, u.rt);
    StoreExclusiveMemory(c, m, u.n, u.rn, u.rs, u.rt);
    if !o.fault && o.cpu.regs[u.rs] == 0 { StoreCounts(w, m0, m, wins, c.exclVal, c.regs[u.rt]); }
  }

  /** What CAS returns tells whether it swapped. */
  lemma SwapReports(c: Cpu, m: Memory, n: nat, rn: nat, rs: nat, rt: nat)
    requires Valid(c) && rn <= 31 && rs < 31 && rt <= 31 && n in {1, 2, 4, 8}
    ensures var o, addr, e := CompareAndSwap(c, m, n, rn, rs, rt), RegSp(c, rn), Trunc(c.regs[rs], n);
            && (o.fault ==> o.mem == m && o.cpu == c)
            && (!o.fault ==> Readable(m, addr, n) && o.cpu.regs[rs] == Value(m.bytes, addr, n))
            && (!o.fault && o.cpu.regs[rs] != e ==> o.mem == m)
            && (!o.fault && o.cpu.regs[rs] == e ==> o.mem == m.(bytes := Put(m.bytes, addr, n, RegZr(c, rt))))
  {
    var addr := RegSp(c, rn);
    if Readable(m, addr, n) {
      ValueBound(m.bytes, addr, n);
      if n != 8 { ModulusMono(n, 4); TruncBound(Value(m.bytes, addr, n), 4); }
    }
  }

  lemma {:induction false} ModulusMono(n: nat, k: nat)
    requires n <= k
    ensures Modulus(n) <= Modulus(k)
    decreases k
  {
    if n < k { ModulusMono(n, k - 1); }
  }

  lemma SwapKeeps(w: Location, u: Setup, m0: Memory, c: Cpu, m: Memory, wins: nat)
    requires CpuReady(w, c, Expecting(u)) && MemoryCounts(w, m0, m, wins)
    ensures var o := CompareAndSwap(c, m, u.n, u.rn, u.rs, u.rt);
            && CpuReady(w, o.cpu, if o.fault then Expecting(u) else Idle)
            && MemoryCounts(w, m0, o.mem,
                            wins + if !o.fault && o.cpu.regs[u.rs] == Trunc(c.regs[u.rs], u.n) then 1 else 0)
  {
    var o := CompareAndSwap(c, m, u.n, u.rn, u.rs, u.rt);
    SwapReports(c, m, u.n, u.rn, u.rs, u.rt);
    if !o.fault && o.cpu.regs[u.rs] == Trunc(c.regs[u.rs], u.n) {
      TruncTrunc(c.regs[u.rs], u.n, u.n);
      StoreCounts(w, m0, m, wins, c.regs[u.rs], c.regs[u.rt]);
    }
  }

  /** Each instruction leaves its own CPU ready and the count right; the other CPUs are as they were. */
  lemma NextKeeps(w: Location, m0: Memory, s: System, a: Action)
    requires Invariant(w, m0, s) && Enabled(w, s, a)
    ensures Invariant(w, m0, Next(w, s, a))
  {
    var t := Next(w, s, a);
    NextCpu(w, m0, s, a);
    forall k | 0 <= k < |t.cpus| ensures CpuReady(w, t.cpus[k], t.phases[k]) {
      if k != a.i { assert t.cpus[k] == s.cpus[k] && t.phases[k] == s.phases[k]; }
    }
  }

  lemma NextStore(w: Location, m0: Memory, s: System, a: Action)
    requires Invariant(w, m0, s) && Enabled(w, s, a) && a.Store?
    ensures var t := Next(w, s, a);
            CpuReady(w, t.cpus[a.i], t.phases[a.i]) && MemoryCounts(w, m0, t.mem, t.wins)
  {
    assert CpuReady(w, s.cpus[a.i], s.phases[a.i]);
    StoreKeeps(w, s.phases[a.i].u, m0, s.cpus[a.i], s.mem, s.wins);
  }

  lemma NextSwap(w: Location, m0: Memory, s: System, a: Action)
    requires Invariant(w, m0, s) && Enabled(w, s, a) && a.Swap?
    ensures var t := Next(w, s, a);
            CpuReady(w, t.cpus[a.i], t.phases[a.i]) && MemoryCounts(w, m0, t.mem, t.wins)
  {
    assert CpuReady(w, s.cpus[a.i], s.phases[a.i]);
    SwapKeeps(w, s.phases[a.i].u, m0, s.cpus[a.i], s.mem, s.wins);
  }

  /** The other instructions leave the memory alone. */
  lemma NextLocal(w: Location, m0: Memory, s: System, a: Action)
    requires Invariant(w, m0, s) && Enabled(w, s, a) && !a.Store? && !a.Swap?
    ensures var t := Next(w, s, a);
            CpuReady(w, t.cpus[a.i], t.phases[a.i]) && t.mem == s.mem && t.wins == s.wins
  {
    var c, p := s.cpus[a.i], s.phases[a.i];
    assert CpuReady(w, c, p);
    match a
    case Load(i, u) => LoadKeeps(w, u, c, s.mem, p);
    case Add(i, wide) => AddKeeps(w, p.u, c, wide);
    case Expect(i, u, e, wide) => ExpectKeeps(w, u, c, e, wide);
    case Other(i, regs, sp) =>
  }

  lemma NextCpu(w: Location, m0: Memory, s: System, a: Action)
    requires Invariant(w, m0, s) && Enabled(w, s, a)
    ensures var t := Next(w, s, a);
            CpuReady(w, t.cpus[a.i], t.phases[a.i]) && MemoryCounts(w, m0, t.mem, t.wins)
  {
    if a.Store? { NextStore(w, m0, s, a); } else if a.Swap? { NextSwap(w, m0, s, a); } else { NextLocal(w, m0, s, a); }
  }

  // ---- runs ----

  predicate Possible(w: Location, s: System, run: seq<Action>)
    decreases |run|
  {
    run == [] || (Enabled(w, s, run[0]) && Possible(w, Next(w, s, run[0]), run[1..]))
  }

  function After(w: Location, s: System, run: seq<Action>): System
    requires Possible(w, s, run)
    decreases |run|
  {
    if run == [] then s else After(w, Next(w, s, run[0]), run[1..])
  }

  lemma {:induction false} RunKeeps(w: Location, m0: Memory, s: System, run: seq<Action>)
    requires Invariant(w, m0, s) && Possible(w, s, run)
    ensures Invariant(w, m0, After(w, s, run))
    decreases |run|
  {
    if run != [] {
      NextKeeps(w, m0, s, run[0]);
      RunKeeps(w, m0, Next(w, s, run[0]), run[1..]);
    }
  }

  /** Any CPUs, between increments, and any memory that holds the word. */
  predicate Initial(w: Location, s: System) {
    && |s.phases| == |s.cpus| && s.wins == 0 && Readable(s.mem, w.addr, w.n)
    && forall i :: 0 <= i < |s.cpus| ==> Valid(s.cpus[i]) && s.phases[i] == Idle
  }

  lemma InitialInvariant(w: Location, s: System)
    requires Initial(w, s)
    ensures Invariant(w, s.mem, s)
  {
    ValueBound(s.mem.bytes, w.addr, w.n);
    TruncBound(Value(s.mem.bytes, w.addr, w.n), w.n);
  }

  /** m is m0 with the word gone up by wins, modulo its width. */
  predicate GoneUp(w: Location, m0: Memory, m: Memory, wins: nat) {
    && Readable(m0, w.addr, w.n) && |m.bytes| == |m0.bytes| && Modulus(w.n) > 0
    && Value(m.bytes, w.addr, w.n) == (Value(m0.bytes, w.addr, w.n) + wins) % Modulus(w.n)
    && forall i :: 0 <= i < |m.bytes| && !(w.addr <= i < w.addr + w.n) ==> m.bytes[i] == m0.bytes[i]
  }

  lemma CountIsModulus(w: Location, m0: Memory, m: Memory, wins: nat)
    requires MemoryCounts(w, m0, m, wins)
    ensures GoneUp(w, m0, m, wins)
  {
    TruncIsMod(Value(m0.bytes, w.addr, w.n) + wins, w.n);
  }

  /** However the CPUs interleave, and whichever registers each uses for each increment, the word has gone up by
      exactly the number of stores that were reported to succeed, modulo its width, and no other byte has changed. */
  lemma NoUpdateIsLost(w: Location, s: System, run: seq<Action>)
    requires Initial(w, s) && Possible(w, s, run)
    ensures GoneUp(w, s.mem, After(w, s, run).mem, After(w, s, run).wins)
  {
    InitialInvariant(w, s);
    RunKeeps(w, s.mem, s, run);
    CountIsModulus(w, s.mem, After(w, s, run).mem, After(w, s, run).wins);
  }

  /** Left alone, an increment goes through at the first try: the monitor does not refuse everything. */
  lemma UncontendedSucceeds(u: Setup, c: Cpu, m: Memory, wide: bool)
    requires Proper(u) && Valid(c) && RegSp(c, u.rn) == u.addr && Writable(m, u.addr, u.n)
    ensures var c1 := LoadExclusive(c, m, u.n, u.rn, u.rt).cpu;
            var c2 := c1.(regs := c1.regs[u.rt := Trunc(c1.regs[u.rt] + 1, AddBytes(wide))]);
            var o := StoreExclusive(c2, m, u.n, u.rn, u.rs, u.rt);
            !o.fault && o.cpu.regs[u.rs] == 0
  {
    TruncBound(0, 4);
  }

  /** The run is possible, wins once, and leaves CPU i between increments. */
  predicate WinsOnce(w: Location, s: System, run: seq<Action>, i: nat) {
    && Possible(w, s, run)
    && var t := After(w, s, run);
       t.wins == s.wins + 1 && i < |t.phases| && t.phases[i] == Idle
  }

  lemma FirstStep(w: Location, s: System, a: Action, rest: seq<Action>)
    requires Enabled(w, s, a) && Possible(w, Next(w, s, a), rest)
    ensures Possible(w, s, [a] + rest) && After(w, s, [a] + rest) == After(w, Next(w, s, a), rest)
  {
    assert ([a] + rest)[1..] == rest;
  }

  /** From any start and for any registers there are runs that win: any CPU whose base register holds the address can
      load, add and store, or swap what the word holds. */
  lemma SomeRunsWin(w: Location, s: System, i: nat, u: Setup, wide: bool)
    requires Initial(w, s) && i < |s.cpus| && Uses(u, w) && RegSp(s.cpus[i], u.rn) == w.addr
    requires Writable(s.mem, w.addr, w.n) && w.n <= AddBytes(wide)
    ensures WinsOnce(w, s, [Load(i, u)] + ([Add(i, wide)] + [Store(i)]), i)
    ensures WinsOnce(w, s, [Expect(i, u, Value(s.mem.bytes, w.addr, w.n), wide)] + [Swap(i)], i)
  {
    IncrementWins(w, s, i, u, wide);
    SwapWins(w, s, i, u, wide);
  }

  lemma IncrementWins(w: Location, s: System, i: nat, u: Setup, wide: bool)
    requires Initial(w, s) && i < |s.cpus| && Uses(u, w) && RegSp(s.cpus[i], u.rn) == w.addr
    requires Writable(s.mem, w.addr, w.n) && w.n <= AddBytes(wide)
    ensures WinsOnce(w, s, [Load(i, u)] + ([Add(i, wide)] + [Store(i)]), i)
  {
    UncontendedSucceeds(u, s.cpus[i], s.mem, wide);
    var s1 := Next(w, s, Load(i, u));
    var s2 := Next(w, s1, Add(i, wide));
    StoreWins(w, s2, i);
    FirstStep(w, s1, Add(i, wide), [Store(i)]);
    FirstStep(w, s, Load(i, u), [Add(i, wide)] + [Store(i)]);
  }

  lemma StoreWins(w: Location, s: System, i: nat)
    requires Enabled(w, s, Store(i))
    requires var u := s.phases[i].u; var o := StoreExclusive(s.cpus[i], s.mem, u.n, u.rn, u.rs, u.rt);
             !o.fault && o.cpu.regs[u.rs] == 0
    ensures WinsOnce(w, s, [Store(i)], i)
  {
    assert [Store(i)][1..] == [];
    assert After(w, s, [Store(i)]) == Next(w, s, Store(i));
  }

  lemma SwapWins(w: Location, s: System, i: nat, u: Setup, wide: bool)
    requires Initial(w, s) && i < |s.cpus| && Uses(u, w) && RegSp(s.cpus[i], u.rn) == w.addr
    requires Writable(s.mem, w.addr, w.n) && w.n <= AddBytes(wide)
    ensures WinsOnce(w, s, [Expect(i, u, Value(s.mem.bytes, w.addr, w.n), wide)] + [Swap(i)], i)
  {
    var e := Value(s.mem.bytes, w.addr, w.n);
    ValueBound(s.mem.bytes, w.addr, w.n); TruncBound(e, w.n);
    var s1 := Next(w, s, Expect(i, u, e, wide));
    SwapTaken(s1.cpus[i], s.mem, u.n, u.rn, u.rs, u.rt);
    SwapReports(s1.cpus[i], s.mem, u.n, u.rn, u.rs, u.rt);
    assert [Swap(i)][1..] == [];
    assert After(w, s1, [Swap(i)]) == Next(w, s1, Swap(i));
    FirstStep(w, s, Expect(i, u, e, wide), [Swap(i)]);
  }

  /** A CPU with e expected and v to store. */
  function Ready(u: Setup, c: Cpu, e: nat, v: nat): Cpu
    requires Proper(u) && Valid(c)
  {
    c.(regs := c.regs[u.rs := e][u.rt := v])
  }

  /** A swap whose expectation is right leaves the new value in a word that is writable still. */
  lemma SwapStores(u: Setup, d: Cpu, m: Memory, v: nat)
    requires Proper(u) && Valid(d) && RegSp(d, u.rn) == u.addr && Writable(m, u.addr, u.n) && v < Modulus(u.n)
    ensures var e := Value(m.bytes, u.addr, u.n);
            var o := CompareAndSwap(Ready(u, d, e, v), m, u.n, u.rn, u.rs, u.rt);
            !o.fault && Writable(o.mem, u.addr, u.n) && Value(o.mem.bytes, u.addr, u.n) == v
  {
    var e := Value(m.bytes, u.addr, u.n);
    ValueBound(m.bytes, u.addr, u.n);
    TruncBound(e, u.n); TruncBound(v, u.n);
    SwapTaken(Ready(u, d, e, v), m, u.n, u.rn, u.rs, u.rt);
    PutReads(m, u.addr, u.n, v);
  }

  lemma SwapTaken(c: Cpu, m: Memory, n: nat, rn: nat, rs: nat, rt: nat)
    requires Valid(c) && rn <= 31 && rs < 31 && rt < 31 && Writable(m, RegSp(c, rn), n)
    requires Trunc(c.regs[rs], n) == Value(m.bytes, RegSp(c, rn), n)
    ensures var o := CompareAndSwap(c, m, n, rn, rs, rt);
            !o.fault && o.mem == m.(bytes := Put(m.bytes, RegSp(c, rn), n, c.regs[rt]))
  {
  }

  lemma PutReads(m: Memory, addr: nat, n: nat, v: nat)
    requires Writable(m, addr, n) && Trunc(v, n) == v
    ensures var after := m.(bytes := Put(m.bytes, addr, n, v));
            Writable(after, addr, n) && Value(after.bytes, addr, n) == v
  {
    ValueOfPut(m.bytes, addr, n, v);
  }

  /** The monitor compares values: after a LDXR another CPU, with registers of its own, changes the word and changes it
      back, and the STXR succeeds. */
  lemma ChangedAndChangedBack(w: Location, u: Setup, t: Setup, c: Cpu, d: Cpu, m: Memory, x: nat)
    requires Uses(u, w) && Uses(t, w) && Valid(c) && Valid(d) && RegSp(c, u.rn) == w.addr && RegSp(d, t.rn) == w.addr
    requires Writable(m, w.addr, w.n) && x < Modulus(w.n) && x != Value(m.bytes, w.addr, w.n)
    ensures var v := Value(m.bytes, w.addr, w.n);
            var loaded := LoadExclusive(c, m, w.n, u.rn, u.rt).cpu;
            var changed := CompareAndSwap(Ready(t, d, v, x), m, w.n, t.rn, t.rs, t.rt).mem;
            var back := CompareAndSwap(Ready(t, d, x, v), changed, w.n, t.rn, t.rs, t.rt).mem;
            var o := StoreExclusive(loaded, back, w.n, u.rn, u.rs, u.rt);
            && Readable(changed, w.addr, w.n) && Value(changed.bytes, w.addr, w.n) == x != v
            && !o.fault && o.cpu.regs[u.rs] == 0
  {
    var v := Value(m.bytes, w.addr, w.n);
    ValueBound(m.bytes, w.addr, w.n);
    SwapStores(t, d, m, x);
    var changed := CompareAndSwap(Ready(t, d, v, x), m, w.n, t.rn, t.rs, t.rt).mem;
    SwapStores(t, d, changed, v);
    var back := CompareAndSwap(Ready(t, d, x, v), changed, w.n, t.rn, t.rs, t.rt).mem;
    var loaded := LoadExclusive(c, m, w.n, u.rn, u.rt).cpu;
    TruncBound(v, w.n);
    StoreSucceedsIff(loaded, back, w.n, u.rn, u.rs, u.rt);
  }
}
