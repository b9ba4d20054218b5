/** dbug.c and command.c: software breakpoints. The tracee runs on an abstract processor; the debugger
    patches INT3 bytes, and on a trap restores the byte, steps once and patches again. */
module Debugger {
  import opened ProMem

  const INT_3: Byte := 0xCC

  /** software breakpoint */
  datatype Bp = Bp(addr: nat, orig: Byte)

  /** What an instruction does on a text: the state after it, and the bytes it depends on (its own code, as long as
      that text makes it, and any text it reads as data). */
  datatype Machine<!D> = Machine(exec: (Text, Cpu<D>) -> Cpu<D>, fetch: (Text, Cpu<D>) -> set<nat>)

  ghost predicate SameAt(t: Text, u: Text, a: nat) {
    (a in t <==> a in u) && (a in t ==> t[a] == u[a])
  }

  /** `fetch` tells the truth: other bytes do not matter. */
  ghost predicate FetchOnly<D(!new)>(m: Machine<D>) {
    forall t: Text, u: Text, c: Cpu<D> ::
      (forall a <- m.fetch(t, c) :: SameAt(t, u, a)) ==> m.exec(t, c) == m.exec(u, c)
  }

  /** One instruction of the processor; INT3 stops behind itself. An exited process stays as it is. */
  function Tick<D>(m: Machine<D>, t: Text, c: Cpu<D>): Cpu<D> {
    if c.exited then c
    else if AtInt3(t, c) then c.(pc := c.pc + 1)
    else m.exec(t, c)
  }

  /** The undebugged run: the states the program goes through on its own text. */
  function Orbit<D>(m: Machine<D>, t: Text, c: Cpu<D>, n: nat): Cpu<D> {
    if n == 0 then c else Tick(m, t, Orbit(m, t, c, n - 1))
  }

  /** The instruction at `c`, if one is executed there, depends on no byte of `sites` but the one at the counter. */
  ghost predicate Blind<D>(m: Machine<D>, t: Text, c: Cpu<D>, sites: set<nat>) {
    c.exited || AtInt3(t, c) || m.fetch(t, c) * sites <= {c.pc}
  }

  /** The undebugged program executes no instruction with a breakpoint inside, and none that reads a patched byte. */
  ghost predicate Unobserved<D>(m: Machine<D>, t: Text, c: Cpu<D>, sites: set<nat>) {
    forall n: nat :: Blind(m, t, Orbit(m, t, c, n), sites)
  }

  /** The breakpoint find_current_SF_bp chooses for address `a`. */
  function First(bps: seq<Bp>, a: nat): (i: nat)
    ensures i <= |bps|
    ensures i < |bps| ==> bps[i].addr == a
    ensures forall j :: 0 <= j < i ==> bps[j].addr != a
  {
    if bps == [] || bps[0].addr == a then 0 else 1 + First(bps[1..], a)
  }

  ghost predicate IsBp(bps: seq<Bp>, a: nat) { exists b <- bps :: b.addr == a }

  /** The tracee's memory with every INT3 byte replaced by the byte the debugger keeps for it. */
  ghost function Restored(t: Text, bps: seq<Bp>): Text {
    map a | a in t :: if First(bps, a) < |bps| && Mapped(t, a) then bps[First(bps, a)].orig else t[a]
  }

  /** Breakpoints are armed exactly where they could be written. */
  ghost predicate Armed(t: Text, bps: seq<Bp>) {
    forall b <- bps :: Mapped(t, b.addr) ==> t[b.addr] == INT_3
  }

  /** Text that differs from the program's only at sites other than the program counter ticks the same. */
  lemma {:induction false} TickUnobserved<D(!new)>(m: Machine<D>, t: Text, u: Text, c: Cpu<D>, sites: set<nat>)
    requires FetchOnly(m) && Blind(m, u, c, sites)
    requires forall a: nat :: a !in sites || a == c.pc ==> SameAt(t, u, a)
    ensures Tick(m, t, c) == Tick(m, u, c)
  {
    assert SameAt(t, u, c.pc);
    if !c.exited && !AtInt3(u, c) {
      forall a | a in m.fetch(u, c) ensures SameAt(u, t, a) {
        assert a in sites ==> a in m.fetch(u, c) * sites;
      }
    }
  }

  /** The breakpoints that will trap: INT3 could be written there, or is the program's own byte. */
  ghost function Trapping(t: Text, bps: seq<Bp>): set<nat> {
    set b | b in bps && b.addr in t && t[b.addr] == INT_3 :: b.addr
  }

  /** The addresses whose INT3 could be written. */
  ghost function Live(t: Text, bps: seq<Bp>): set<nat> { set b | b in bps && Mapped(t, b.addr) :: b.addr }

  /** Patched memory shows INT3 at the live breakpoints and the program's bytes elsewhere. */
  lemma {:induction false} PatchedText(t: Text, bps: seq<Bp>, t0: Text, a: nat)
    requires Restored(t, bps) == t0 && Armed(t, bps)
    ensures a in Live(t, bps) ==> a in t && t[a] == INT_3
    ensures a !in Live(t, bps) ==> SameAt(t, t0, a)
  {
    if a in t && First(bps, a) < |bps| && Mapped(t, a) {
      assert bps[First(bps, a)] in bps;
    }
  }

  /** What a breakpoint set now would record. */
  lemma {:induction false} KeptByte(t: Text, bps: seq<Bp>, t0: Text, a: nat)
    requires Restored(t, bps) == t0 && Armed(t, bps)
    ensures Mapped(t0, a) ==> Mapped(t, a) && a in t0 && t[a] == if IsBp(bps, a) then INT_3 else t0[a]
  {
    assert forall x: nat :: x in t <==> x in t0;
    if Mapped(t0, a) { assert a in t0; }
    if First(bps, a) < |bps| { assert bps[First(bps, a)] in bps; }
  }

  lemma {:induction false} FirstAppend(bps: seq<Bp>, b: Bp, a: nat)
    ensures First(bps, a) < |bps| ==> First(bps + [b], a) == First(bps, a)
    ensures First(bps, a) == |bps| ==> First(bps + [b], a) == |bps| + (if b.addr == a then 0 else 1)
  {
    if bps != [] && bps[0].addr != a {
      assert (bps + [b])[1..] == bps[1..] + [b];
      FirstAppend(bps[1..], b, a);
    }
  }

  ghost function Addrs(bps: seq<Bp>): seq<nat> {
    seq(|bps|, i requires 0 <= i < |bps| => bps[i].addr)
  }

  /** The breakpoints among `addrs` that trap in a program: those where INT3 can be written, or already is. */
  ghost function ArmedAt(t0: Text, addrs: seq<nat>): set<nat> {
    set a | a in addrs && a in t0 && (Mapped(t0, a) || t0[a] == INT_3)
  }

  /** What traps in patched memory is what the program and the list of breakpoints say. */
  lemma {:induction false} TrappingIs(t: Text, bps: seq<Bp>, t0: Text)
    requires Restored(t, bps) == t0 && Armed(t, bps)
    ensures Trapping(t, bps) == ArmedAt(t0, Addrs(bps))
  {
    forall a: nat ensures a in Trapping(t, bps) <==> a in ArmedAt(t0, Addrs(bps)) {
      PatchedText(t, bps, t0, a);
      assert forall x: nat :: x in t <==> x in t0;
      if a in Addrs(bps) {
        var i :| 0 <= i < |bps| && Addrs(bps)[i] == a;
        assert bps[i] in bps;
      }
      if b :| b in bps && b.addr == a {
        var i :| 0 <= i < |bps| && bps[i] == b;
        assert Addrs(bps)[i] == a;
      }
    }
  }

  /** `i` is the lowest index of `a`. */
  ghost predicate Lowest(addrs: seq<nat>, a: nat, i: int) {
    0 <= i < |addrs| && addrs[i] == a && forall j :: 0 <= j < i ==> addrs[j] != a
  }

  lemma {:induction false} LowestFirst(bps: seq<Bp>, a: nat)
    ensures First(bps, a) < |bps| ==> Lowest(Addrs(bps), a, First(bps, a))
  {
  }

  /** The addresses that the break commands among `cmds` name. */
  ghost function Breaks(cmds: seq<Cmd>): seq<nat> {
    if cmds == [] then []
    else
      var last := cmds[|cmds| - 1];
      Breaks(cmds[..|cmds| - 1]) + if last.B? then [last.addr] else []
  }

  predicate AtInt3<D>(t: Text, c: Cpu<D>) { c.pc in t && t[c.pc] == INT_3 }

  datatype Cmd = B(addr: nat) | C(budget: nat)

  datatype Stop = Running | Exited | Trapped(bp: int)

  datatype Reply = BreakSet | Stopped(stop: Stop)

  class Dbug<D(!new)> {
    const machine: Machine<D>
    const tracee: Tracee<D>
    var bps: seq<Bp>
    var regs: Cpu<D>                    // the registers as last fetched
    ghost const text0: Text             // the program
    ghost const cpu0: Cpu<D>            // its state when the debugger took over
    ghost const sites: set<nat>         // where breakpoints may be set
    ghost var n: nat                    // instructions executed since then
    ghost var liveAt: seq<set<nat>>     // the trapping breakpoints at the execution of each of them
    ghost var reported: seq<nat>        // the instruction each report announced

    ghost function Native(i: nat): Cpu<D> { Orbit(machine, text0, cpu0, i) }

    /** Transparency: the tracee with its bytes restored is in the state of the undebugged run after `n`
        instructions; and the reports are exactly the executions at trapping breakpoints, each reported once. */
    ghost predicate Valid()
      reads this, tracee
    {
      && Assumed()
      && tracee.cpu == Native(n)
      && Restored(tracee.text, bps) == text0 && Armed(tracee.text, bps)
      && (forall b <- bps :: b.addr in sites)
      && Logged(n, liveAt, reported)
    }

    /** Instruction `i` was reported exactly when it stood at a breakpoint that was trapping then, and once. */
    ghost predicate Logged(n: nat, liveAt: seq<set<nat>>, reported: seq<nat>) {
      && |liveAt| == n
      && (forall i :: 0 <= i < n ==> (i in reported <==> Native(i).pc in liveAt[i]))
      && (forall i, j :: 0 <= i < j < |reported| ==> reported[i] < reported[j])
      && (forall i <- reported :: i < n)
    }

    lemma {:induction false} LogMore(n: nat, liveAt: seq<set<nat>>, reported: seq<nat>, now: set<nat>)
      requires Logged(n, liveAt, reported)
      ensures Logged(n + 1, liveAt + [now], if Native(n).pc in now then reported + [n] else reported)
    {
      var r := if Native(n).pc in now then reported + [n] else reported;
      forall i | 0 <= i <= n ensures i in r <==> Native(i).pc in (liveAt + [now])[i] {
        assert i < n ==> (i in r <==> i in reported);
        if i == n && Native(n).pc in now { assert r[|reported|] == n; }
      }
      forall i, j | 0 <= i < j < |r| ensures r[i] < r[j] {
        assert reported[i] in reported;
      }
    }

    /** The undebugged run stops before instruction `i`, given the armed breakpoints. */
    ghost predicate Stops(i: nat, armed: set<nat>) {
      Native(i).exited || Native(i).pc in armed || AtInt3(text0, Native(i))
    }

    /** What a continue command does, from instruction `from` to instruction `to`: it stops at the first
        instruction where the undebugged run has exited, stands at an armed breakpoint or at an INT3 of its own,
        and executes that one; a breakpoint is announced by its lowest index. */
    ghost predicate Continued(from: nat, to: nat, budget: nat, addrs: seq<nat>, stop: Stop) {
      var armed := ArmedAt(text0, addrs);
      && from <= to
      && match stop
        case Running => to == from + budget && forall i: nat :: from <= i <= to ==> !Stops(i, armed)
        case Exited => to <= from + budget && Native(to).exited && forall i: nat :: from <= i < to ==> !Stops(i, armed)
        case Trapped(bp) =>
          && from < to <= from + budget + 1 && Stops(to - 1, armed) && !Native(to - 1).exited
          && (forall i: nat :: from <= i < to - 1 ==> !Stops(i, armed))
          && if Native(to - 1).pc in armed then Lowest(addrs, Native(to - 1).pc, bp) else bp == -1
    }

    /** The tracee stops where the undebugged run does. */
    lemma {:induction false} StopsHere()
      requires Valid()
      ensures tracee.cpu.exited || AtInt3(tracee.text, tracee.cpu) <==> Stops(n, ArmedAt(text0, Addrs(bps)))
      ensures Trapping(tracee.text, bps) == ArmedAt(text0, Addrs(bps))
    {
      TrappingIs(tracee.text, bps, text0);
      PatchedText(tracee.text, bps, text0, tracee.cpu.pc);
      assert Live(tracee.text, bps) <= Trapping(tracee.text, bps);
    }

    ghost predicate Assumed() {
      FetchOnly(machine) && Unobserved(machine, text0, cpu0, sites)
    }

    constructor (machine: Machine<D>, text: Text, cpu: Cpu<D>, ghost sites: set<nat>)
      requires FetchOnly(machine) && Unobserved(machine, text, cpu, sites)
      ensures Valid() && n == 0 && bps == [] && reported == [] && fresh(tracee)
      ensures tracee.text == text && tracee.cpu == cpu
      ensures text0 == text && cpu0 == cpu && this.sites == sites && this.machine == machine
    {
      this.machine := machine;
      tracee := new Tracee(text, cpu);
      bps, regs := [], cpu;
      text0, cpu0, this.sites := text, cpu, sites;
      n, liveAt, reported := 0, [], [];
    }

    /** insert_INT3_bp */
    method InsertInt3(addr: nat) returns (b: Bp)
      modifies tracee`text
      ensures b == Bp(addr, ByteAt(old(tracee.text), addr)) && tracee.text == WithByte(old(tracee.text), addr, INT_3)
    {
      var buf := new Byte[1];
      var rc := ReadProMem(tracee, addr, buf, 1);
      OneByteRead(tracee.text, addr);
      assert buf[0] == buf[..1][0];
      b := Bp(addr, buf[0]);
      WriteByte(addr, INT_3);
    }

    /** write_pro_mem of one byte. */
    method WriteByte(addr: nat, x: Byte)
      modifies tracee`text
      ensures tracee.text == WithByte(old(tracee.text), addr, x)
    {
      ghost var t := tracee.text;
      var buf := new Byte[1];
      buf[0] := x;
      ghost var done;
      var rc;
      rc, done := WriteProMem(tracee, addr, buf, 1);
      OneByteWritten(t, addr, x);
      assert buf[..1] == [x] && buf[..0] == [];
    }

    /** command_break. A second breakpoint at an address keeps INT3 as its "original" byte. */
    method Break(addr: nat)
      requires Valid() && addr in sites
      modifies this`bps, tracee`text
      ensures Valid() && bps == old(bps) + [Bp(addr, ByteAt(old(tracee.text), addr))]
      ensures Mapped(text0, addr) && addr in text0 ==>
        ByteAt(old(tracee.text), addr) == if IsBp(old(bps), addr) then INT_3 else text0[addr]
    {
      ghost var t := tracee.text;
      PatchedText(t, bps, text0, addr);
      KeptByte(t, bps, text0, addr);
      var b := InsertInt3(addr);
      BreakKeeps(t, bps, b);
      bps := bps + [b];
    }

    /** find_current_SF_bp */
    method FindCurrentSfBp() returns (i: int)
      ensures i == (if First(bps, Before(regs.pc)) < |bps| then First(bps, Before(regs.pc)) else -1)
    {
      i := 0;
      while i < |bps|
        invariant 0 <= i <= |bps|
        invariant First(bps, Before(regs.pc)) == i + First(bps[i..], Before(regs.pc))
      {
        if bps[i].addr == Before(regs.pc) {
          return;
        }
        assert bps[i..][1..] == bps[i + 1..];
        i := i + 1;
      }
      i := -1;
    }

    /** resume_INT3_bp_next: the true byte comes back for one instruction. */
    method ResumeNext(b: Bp)
      modifies tracee, this`regs
      ensures tracee.cpu == Tick(machine, WithByte(old(tracee.text), b.addr, b.orig), old(regs).(pc := b.addr))
      ensures tracee.text == WithByte(WithByte(old(tracee.text), b.addr, b.orig), b.addr, INT_3)
    {
      WriteByte(b.addr, b.orig);
      regs := regs.(pc := b.addr);
      tracee.cpu := regs;                                         // PTRACE_SETREGS
      tracee.cpu := Tick(machine, tracee.text, tracee.cpu);       // PTRACE_SINGLESTEP
      WriteByte(b.addr, INT_3);
    }

    /** The processor executes one instruction that no breakpoint covers. */
    method Execute()
      requires Valid() && !tracee.cpu.exited && !AtInt3(tracee.text, tracee.cpu)
      modifies tracee`cpu, this`n, this`liveAt
      ensures Valid() && n == old(n) + 1 && liveAt == old(liveAt) + [ArmedAt(text0, Addrs(bps))]
    {
      ExecuteSame();
      StopsHere();
      hide Restored, Armed, Trapping, Unobserved, FetchOnly, AtInt3, Logged;
      LogMore(n, liveAt, reported, Trapping(tracee.text, bps));
      tracee.cpu := Tick(machine, tracee.text, tracee.cpu);
      liveAt := liveAt + [Trapping(tracee.text, bps)];
      n := n + 1;
    }

    lemma {:induction false} ExecuteSame()
      requires Valid() && !AtInt3(tracee.text, tracee.cpu)
      ensures Tick(machine, tracee.text, tracee.cpu) == Native(n + 1)
      ensures Native(n).pc !in Trapping(tracee.text, bps)
    {
      hide Restored, Armed, Live, FetchOnly;
      LiveInSites();
      PatchedTextAll();
      assert Blind(machine, text0, Native(n), sites);
      TickUnobserved(machine, tracee.text, text0, tracee.cpu, sites);
    }

    lemma LiveInSites()
      requires Valid()
      ensures Live(tracee.text, bps) <= sites
    {
    }

    lemma PatchedTextAll()
      requires Valid()
      ensures forall a: nat :: a in Live(tracee.text, bps) ==> a in tracee.text && tracee.text[a] == INT_3
      ensures forall a: nat :: a !in Live(tracee.text, bps) ==> SameAt(tracee.text, text0, a)
    {
      forall a: nat { PatchedText(tracee.text, bps, text0, a); }
    }

    /** At a trapping breakpoint: giving the byte back and stepping is one native instruction, and patching
        again gives the same text. */
    lemma {:induction false} ResumeSame(b: Bp)
      requires Valid() && !tracee.cpu.exited && AtInt3(tracee.text, tracee.cpu)
      requires First(bps, tracee.cpu.pc) < |bps| && b == bps[First(bps, tracee.cpu.pc)]
      ensures var t := WithByte(tracee.text, b.addr, b.orig);
        && Tick(machine, t, tracee.cpu) == Native(n + 1)
        && WithByte(t, b.addr, INT_3) == tracee.text
      ensures Native(n).pc in Trapping(tracee.text, bps) && b.addr == tracee.cpu.pc
    {
      var t, a := WithByte(tracee.text, b.addr, b.orig), tracee.cpu.pc;
      assert b in bps && b.addr == a;
      LiveInSites();
      PatchedTextAll();
      SameMapped(tracee.text, a, b.orig, a);
      assert Mapped(tracee.text, a) ==> Restored(tracee.text, bps)[a] == b.orig;
      assert SameAt(t, text0, a);
      assert Blind(machine, text0, Native(n), sites);
      TickUnobserved(machine, t, text0, tracee.cpu, sites);
    }

    /** A trap without a breakpoint is the program's own INT3. */
    lemma {:induction false} OwnInt3()
      requires Valid() && !tracee.cpu.exited && AtInt3(tracee.text, tracee.cpu)
      requires First(bps, tracee.cpu.pc) == |bps|
      ensures tracee.cpu.(pc := tracee.cpu.pc + 1) == Native(n + 1)
      ensures Native(n).pc !in Trapping(tracee.text, bps)
    {
      PatchedTextAll();
      assert SameAt(tracee.text, text0, tracee.cpu.pc);
    }

    /** Either way the trap is one native instruction, and leaves the text as it is. */
    lemma {:induction false} TrapSame()
      requires Valid() && !tracee.cpu.exited && AtInt3(tracee.text, tracee.cpu)
      ensures var t, c, f := tracee.text, tracee.cpu, First(bps, tracee.cpu.pc);
        && c == Native(n) && (c.pc in Trapping(t, bps) <==> f < |bps|)
        && if f < |bps| then
            var u := WithByte(t, c.pc, bps[f].orig);
            Tick(machine, u, c) == Native(n + 1) && WithByte(u, c.pc, INT_3) == t
          else c.(pc := c.pc + 1) == Native(n + 1)
    {
      if First(bps, tracee.cpu.pc) < |bps| {
        ResumeSame(bps[First(bps, tracee.cpu.pc)]);
      } else {
        OwnInt3();
      }
    }

    /** The part of command_continue after a SIGTRAP: the tracee has run into an INT3 byte. */
    method Trap() returns (i: int)
      modifies this`regs, tracee
      ensures var t, c, f := old(tracee.text), old(tracee.cpu), First(bps, old(tracee.cpu.pc));
        if f < |bps| then
          && i == f && bps[f].addr == c.pc
          && tracee.cpu == Tick(machine, WithByte(t, c.pc, bps[f].orig), c)
          && tracee.text == WithByte(WithByte(t, c.pc, bps[f].orig), c.pc, INT_3)
        else i == -1 && tracee.cpu == c.(pc := c.pc + 1) && tracee.text == t
    {
      tracee.cpu := tracee.cpu.(pc := tracee.cpu.pc + 1);   // the trap
      regs := tracee.cpu;                                   // PTRACE_GETREGS
      i := FindCurrentSfBp();
      if i != -1 {
        ResumeNext(bps[i]);
      }
    }

    /** A trap, seen against the undebugged run: one instruction further, reported if and only if it stands at an
        armed breakpoint. */
    method HandleTrap() returns (i: int)
      requires Valid() && !tracee.cpu.exited && AtInt3(tracee.text, tracee.cpu)
      modifies this`regs, this`n, this`liveAt, this`reported, tracee
      ensures Valid() && n == old(n) + 1 && liveAt == old(liveAt) + [ArmedAt(text0, Addrs(bps))]
      ensures i == -1 <==> Native(old(n)).pc !in ArmedAt(text0, Addrs(bps))
      ensures i != -1 ==> Lowest(Addrs(bps), Native(old(n)).pc, i)
      ensures reported == old(reported) + if i == -1 then [] else [old(n)]
    {
      hide Restored, Armed, Trapping, Unobserved, FetchOnly, AtInt3, Native, First, WithByte, Tick, Logged, ArmedAt,
        Stops;
      ghost var now := Trapping(tracee.text, bps);
      TrapSame();
      StopsHere();
      LogMore(n, liveAt, reported, now);
      LowestFirst(bps, tracee.cpu.pc);
      i := Trap();
      if i != -1 {
        reported := reported + [n];                         // "trigger breakpoint"
      }
      liveAt := liveAt + [now];
      n := n + 1;
    }

    /** command_continue. The tracee runs for at most `budget` instructions before we look again. */
    method Continue(budget: nat) returns (stop: Stop)
      requires Valid() && !tracee.cpu.exited
      modifies this`regs, this`n, this`liveAt, this`reported, tracee
      ensures Valid() && Continued(old(n), n, budget, Addrs(bps), stop)
      ensures old(liveAt) <= liveAt && forall i :: old(n) <= i < n ==> liveAt[i] == ArmedAt(text0, Addrs(bps))
      ensures reported == old(reported) + if stop.Trapped? && stop.bp != -1 then [n - 1] else []
    {
      hide Restored, Armed, Trapping, Unobserved, FetchOnly, Native, First, WithByte, Tick, ArmedAt, Stops, Lowest;
      var steps := 0;
      StopsHere();
      while steps < budget && !tracee.cpu.exited && !AtInt3(tracee.text, tracee.cpu)
        invariant Valid() && steps <= budget && n == old(n) + steps
        invariant reported == old(reported)
        invariant tracee.cpu.exited || AtInt3(tracee.text, tracee.cpu) <==> Stops(n, ArmedAt(text0, Addrs(bps)))
        invariant forall i: nat :: old(n) <= i < n ==> !Stops(i, ArmedAt(text0, Addrs(bps)))
        invariant old(liveAt) <= liveAt && forall i :: old(n) <= i < n ==> liveAt[i] == ArmedAt(text0, Addrs(bps))
      {
        Execute();
        StopsHere();
        steps := steps + 1;
      }
      if tracee.cpu.exited {
        return Exited;
      }
      if !AtInt3(tracee.text, tracee.cpu) {
        return Running;
      }
      var i := HandleTrap();
      stop := Trapped(i);
    }

    /** What one command does while the breakpoints at `addrs` are set, and what traps meanwhile. */
    ghost predicate Obeyed(cmd: Cmd, addrs: seq<nat>, from: nat, to: nat, reply: Reply, liveAt: seq<set<nat>>) {
      && from <= to <= |liveAt|
      && (forall i :: from <= i < to ==> liveAt[i] == ArmedAt(text0, addrs))
      && match cmd
         case B(_) => reply == BreakSet && to == from
         case C(budget) => reply.Stopped? && Continued(from, to, budget, addrs, reply.stop)
    }

    /** Each command has done what it does with the breakpoints set before it; `marks[k]` is the number of
        instructions executed before command `k`. */
    ghost predicate Played(cmds: seq<Cmd>, addrs: seq<nat>, replies: seq<Reply>, marks: seq<nat>,
        liveAt: seq<set<nat>>) {
      && |replies| <= |cmds| && |marks| == |replies| + 1
      && forall k :: 0 <= k < |replies| ==>
        Obeyed(cmds[k], addrs + Breaks(cmds[..k]), marks[k], marks[k + 1], replies[k], liveAt)
    }

    /** One command more. */
    lemma {:induction false} PlayedOn(cmds: seq<Cmd>, addrs: seq<nat>, replies: seq<Reply>, marks: seq<nat>,
        liveAt: seq<set<nat>>,
        reply: Reply, to: nat, liveAt': seq<set<nat>>)
      requires Played(cmds, addrs, replies, marks, liveAt) && |replies| < |cmds| && liveAt <= liveAt'
      requires Obeyed(cmds[|replies|], addrs + Breaks(cmds[..|replies|]), marks[|replies|], to, reply, liveAt')
      ensures Played(cmds, addrs, replies + [reply], marks + [to], liveAt')
    {
      hide ArmedAt, Breaks, Continued;
    }

    /** Of the instructions from `from` up to `to` exactly those are reported that stand at an armed breakpoint. */
    ghost predicate ReportedIff(from: nat, to: nat, reported: seq<nat>, addrs: seq<nat>) {
      forall i :: from <= i < to ==> (i in reported <==> Native(i).pc in ArmedAt(text0, addrs))
    }

    lemma {:induction false} ReportsOf(cmds: seq<Cmd>, addrs: seq<nat>, replies: seq<Reply>, marks: seq<nat>,
        liveAt: seq<set<nat>>,
        n: nat, reported: seq<nat>)
      requires Played(cmds, addrs, replies, marks, liveAt) && Logged(n, liveAt, reported)
      ensures forall k :: 0 <= k < |replies| ==>
        ReportedIff(marks[k], marks[k + 1], reported, addrs + Breaks(cmds[..k]))
    {
      hide ArmedAt, Breaks, Continued, Native;
    }

    /** The command found the tracee gone, or still running. */
    ghost predicate Over(reply: Reply, at: nat) {
      reply.Stopped? && (reply.stop.Trapped? ==> Native(at).exited)
    }

    /** One command. */
    method Obey(cmd: Cmd) returns (reply: Reply, over: bool)
      requires Valid() && !tracee.cpu.exited && (cmd.B? ==> cmd.addr in sites)
      modifies this`bps, this`regs, this`n, this`liveAt, this`reported, tracee
      ensures Valid() && Obeyed(cmd, old(Addrs(bps)), old(n), n, reply, liveAt)
      ensures old(liveAt) <= liveAt && old(reported) <= reported && old(bps) <= bps
      ensures Addrs(bps) == old(Addrs(bps)) + if cmd.B? then [cmd.addr] else []
      ensures (over <==> Over(reply, n)) && (!over ==> !tracee.cpu.exited)
    {
      hide Restored, Armed, Trapping, Unobserved, FetchOnly, Native, First, WithByte, Tick, ArmedAt, Continued, Addrs;
      ghost var bps0 := bps;
      match cmd {
        case B(a) =>
          Break(a);
          AddrsMore(bps0, bps[|bps0|]);
          reply, over := BreakSet, false;
        case C(budget) =>
          var stop := Continue(budget);
          reply, over := Stopped(stop), !stop.Trapped? || tracee.cpu.exited;
      }
    }

    lemma NothingPlayed(cmds: seq<Cmd>, addrs: seq<nat>, n: nat)
      ensures Played(cmds, addrs, [], [n], liveAt)
    {
    }

    /** The loop of main: one command after the other, until the tracee exits or is still running. Of the
        instructions executed meanwhile exactly those are reported that stood at an armed breakpoint set by an
        earlier command; `Valid` says that no instruction is reported twice. */
    method Play(cmds: seq<Cmd>) returns (replies: seq<Reply>, ghost marks: seq<nat>)
      requires Valid() && !tracee.cpu.exited && forall c <- cmds :: c.B? ==> c.addr in sites
      modifies this`bps, this`regs, this`n, this`liveAt, this`reported, tracee
      ensures Valid() && Played(cmds, old(Addrs(bps)), replies, marks, liveAt)
      ensures marks[0] == old(n) && marks[|replies|] == n
      ensures old(bps) <= bps && Addrs(bps) == old(Addrs(bps)) + Breaks(cmds[..|replies|])
      ensures old(reported) <= reported
      ensures forall k :: 0 <= k < |replies| ==>
        ReportedIff(marks[k], marks[k + 1], reported, old(Addrs(bps)) + Breaks(cmds[..k]))
      ensures |replies| < |cmds| ==> replies != [] && Over(replies[|replies| - 1], n)
      ensures forall k :: 0 <= k < |replies| - 1 ==> !Over(replies[k], marks[k + 1])
    {
      hide Restored, Armed, Trapping, Unobserved, FetchOnly, Native, First, WithByte, Tick, ArmedAt, Continued, Breaks,
        Addrs, Logged, ReportedIff, Played;
      ghost var addrs := Addrs(bps);
      var over := false;
      replies, marks := [], [n];
      NoBreaks(cmds);
      NothingPlayed(cmds, addrs, n);
      while |replies| < |cmds| && !over
        invariant |replies| <= |cmds| && |marks| == |replies| + 1 && Valid() && (!over ==> !tracee.cpu.exited)
        invariant Played(cmds, addrs, replies, marks, liveAt)
        invariant marks[0] == old(n) && marks[|replies|] == n
        invariant old(bps) <= bps && Addrs(bps) == addrs + Breaks(cmds[..|replies|])
        invariant old(reported) <= reported
        invariant forall k :: 0 <= k < |replies| - 1 ==> !Over(replies[k], marks[k + 1])
        invariant replies != [] ==> (over <==> Over(replies[|replies| - 1], n))
        invariant replies == [] ==> !over
      {
        var cmd := cmds[|replies|];
        MoreBreaks(cmds, |replies|);
        ghost var live, ran := liveAt, n;
        var reply;
        reply, over := Obey(cmd);
        PlayedOn(cmds, addrs, replies, marks, live, reply, n, liveAt);
        replies, marks := replies + [reply], marks + [n];
      }
      ReportsOf(cmds, addrs, replies, marks, liveAt, n, reported);
    }
  }

  lemma NoBreaks(cmds: seq<Cmd>)
    ensures Breaks(cmds[..0]) == []
  {
  }

  lemma MoreBreaks(cmds: seq<Cmd>, k: nat)
    requires k < |cmds|
    ensures Breaks(cmds[..k + 1]) == Breaks(cmds[..k]) + if cmds[k].B? then [cmds[k].addr] else []
  {
    assert cmds[..k + 1][..k] == cmds[..k];
  }

  lemma AddrsMore(bps: seq<Bp>, b: Bp)
    ensures Addrs(bps + [b]) == Addrs(bps) + [b.addr]
  {
  }

  /** `regs.rip - 1`, in 64 bits */
  function Before(rip: nat): nat { if rip == 0 then 0xFFFF_FFFF_FFFF_FFFF else rip - 1 }

  /** What a one-byte read_pro_mem delivers. */
  function ByteAt(t: Text, a: nat): Byte { if Mapped(t, a) then t[a] else 255 }

  /** Memory after a one-byte write_pro_mem, which fails without effect when the word is not mapped. */
  function WithByte(t: Text, a: nat, x: Byte): Text { if Mapped(t, a) then t[a := x] else t }

  lemma {:induction false} OneByteRead(t: Text, a: nat)
    ensures ReadBytes(t, a, 1) == [ByteAt(t, a)]
  {
  }

  lemma {:induction false} OneByteWritten(t: Text, a: nat, x: Byte)
    ensures AllMapped(t, a, 1) <==> Mapped(t, a)
    ensures Splice(t, a, []) == t && (Mapped(t, a) ==> Splice(t, a, [x]) == t[a := x])
  {
    assert 0 / WORD == 0;
    if Mapped(t, a) { assert a in t; }
  }

  lemma {:induction false} SameMapped(t: Text, a: nat, x: Byte, b: nat)
    ensures Mapped(WithByte(t, a, x), b) <==> Mapped(t, b)
    ensures WithByte(t, a, x).Keys == t.Keys
  {
    if Mapped(t, a) { assert a in t; }
    assert forall y: nat :: y in t <==> y in WithByte(t, a, x);
  }

  lemma {:induction false} BreakKeepsByte(t: Text, bps: seq<Bp>, b: Bp, a: nat)
    requires Armed(t, bps) && b.orig == ByteAt(t, b.addr) && a in t
    ensures var t' := WithByte(t, b.addr, INT_3);
      a in t' && Restored(t', bps + [b])[a] == Restored(t, bps)[a]
  {
    SameMapped(t, b.addr, INT_3, a);
    FirstAppend(bps, b, a);
  }

  lemma {:induction false} BreakKeeps(t: Text, bps: seq<Bp>, b: Bp)
    requires Armed(t, bps) && b.orig == ByteAt(t, b.addr)
    ensures var t' := WithByte(t, b.addr, INT_3);
      Armed(t', bps + [b]) && Restored(t', bps + [b]) == Restored(t, bps)
  {
    var t' := WithByte(t, b.addr, INT_3);
    forall a | a in t ensures Restored(t', bps + [b])[a] == Restored(t, bps)[a] {
      BreakKeepsByte(t, bps, b, a);
    }
    forall x | x in bps + [b] ensures Mapped(t', x.addr) ==> t'[x.addr] == INT_3 {
      SameMapped(t, b.addr, INT_3, x.addr);
    }
    SameMapped(t, b.addr, INT_3, 0);
  }
}
