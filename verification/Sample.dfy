/** A processor with instructions of different lengths, and a program debugged on it. */
module Sample {

  import opened ProMem
  import opened Debugger

  const NOP: Byte := 1              // one byte
  const ADD: Byte := 2              // two bytes: adds the second to the accumulator

  /** The length of the instruction depends on the text. */
  function Fetch(t: Text, c: Cpu<int>): set<nat> {
    {c.pc} + if c.pc in t && t[c.pc] == ADD then {c.pc + 1} else {}
  }

  function Exec(t: Text, c: Cpu<int>): Cpu<int> {
    if c.pc in t && t[c.pc] == NOP then c.(pc := c.pc + 1)
    else if c.pc in t && t[c.pc] == ADD && c.pc + 1 in t then c.(pc := c.pc + 2, data := c.data + t[c.pc + 1])
    else c.(exited := true)
  }

  function Processor(): Machine<int> { Machine(Exec, Fetch) }

  lemma FetchesOnly()
    ensures FetchOnly(Processor())
  {
    forall t: Text, u: Text, c: Cpu<int> | forall a <- Fetch(t, c) :: SameAt(t, u, a) ensures Exec(t, c) == Exec(u, c) {
      assert c.pc in Fetch(t, c);
      assert c.pc in t && t[c.pc] == ADD ==> c.pc + 1 in Fetch(t, c);
    }
  }

  /** No site lies on the second byte of an addition that is about to be executed. */
  predicate Outside(t: Text, c: Cpu<int>, sites: set<nat>) {
    !c.exited && c.pc in t && t[c.pc] == ADD ==> c.pc + 1 !in sites
  }

  lemma OutsideBlind(t: Text, c: Cpu<int>, sites: set<nat>)
    ensures Blind(Processor(), t, c, sites) <==> Outside(t, c, sites)
  {
    assert Processor().fetch(t, c) == Fetch(t, c);
    if !Outside(t, c, sites) { assert c.pc + 1 in Fetch(t, c) * sites; }
  }

  ghost predicate AlwaysOutside(t: Text, c: Cpu<int>, sites: set<nat>) {
    forall n: nat :: Outside(t, Orbit(Processor(), t, c, n), sites)
  }

  /** On this processor breakpoints may stand anywhere but on the second byte of an addition that is executed. */
  lemma {:induction false} SitesAllowed(t: Text, c: Cpu<int>, sites: set<nat>)
    ensures Unobserved(Processor(), t, c, sites) <==> AlwaysOutside(t, c, sites)
  {
    hide Blind, Outside, Orbit;
    if Unobserved(Processor(), t, c, sites) {
      forall n: nat ensures Outside(t, Orbit(Processor(), t, c, n), sites) {
        assert Blind(Processor(), t, Orbit(Processor(), t, c, n), sites);
        OutsideBlind(t, Orbit(Processor(), t, c, n), sites);
      }
    }
    if AlwaysOutside(t, c, sites) {
      forall n: nat ensures Blind(Processor(), t, Orbit(Processor(), t, c, n), sites) {
        assert Outside(t, Orbit(Processor(), t, c, n), sites);
        OutsideBlind(t, Orbit(Processor(), t, c, n), sites);
      }
    }
  }

  function CodeAt(a: nat): Byte {
    if a == 0 || a == 3 then NOP else if a == 1 then ADD else if a == 2 then 7 else 0
  }

  /** A no-operation, an addition of seven, another no-operation, and bytes that end the program. */
  function Program(): Text { map a: nat | a < 16 :: CodeAt(a) }

  const START := Cpu(0, 0, false)

  /** The program's run. */
  lemma {:induction false} ProgramRun(n: nat)
    ensures Orbit(Processor(), Program(), START, n) ==
      if n == 0 then START
      else if n == 1 then Cpu(1, 0, false)
      else if n == 2 then Cpu(3, 7, false)
      else if n == 3 then Cpu(4, 7, false)
      else Cpu(4, 7, true)
  {
    if n > 0 {
      ProgramRun(n - 1);
      var c := Orbit(Processor(), Program(), START, n - 1);
      assert Processor().exec(Program(), c) == Exec(Program(), c);
    }
  }

  lemma {:induction false} ProgramAllows()
    ensures Unobserved(Processor(), Program(), START, {0, 1, 3})
    ensures !Unobserved(Processor(), Program(), START, {2})
  {
    SitesAllowed(Program(), START, {0, 1, 3});
    SitesAllowed(Program(), START, {2});
    forall n: nat ensures Outside(Program(), Orbit(Processor(), Program(), START, n), {0, 1, 3}) {
      ProgramRun(n);
    }
    ProgramRun(1);
    assert !Outside(Program(), Orbit(Processor(), Program(), START, 1), {2});
  }

  lemma ArmedHere()
    ensures ArmedAt(Program(), [1]) == {1} && ArmedAt(Program(), []) == {}
  {
    assert Mapped(Program(), 1);
  }

  /** Where the program stops with the breakpoint set, and where it ends. */
  lemma {:induction false} StopsOf(d: Dbug<int>, from: nat, to: nat, stop: Stop)
    requires d.machine == Processor() && d.text0 == Program() && d.cpu0 == START
    requires d.Continued(from, to, 10, [1], stop)
    ensures from == 0 ==> to == 2 && stop == Trapped(0)
    ensures from == 2 ==> to == 4 && stop == Exited
  {
    hide Orbit, ArmedAt, Processor;
    ArmedHere();
    forall n: nat ensures d.Native(n) == Orbit(Processor(), Program(), START, n) {
    }
    ProgramRun(0);
    ProgramRun(1);
    ProgramRun(2);
    ProgramRun(3);
    ProgramRun(4);
    assert !d.Stops(0, {1}) && d.Stops(1, {1}) && !d.Stops(2, {1}) && !d.Stops(3, {1}) && d.Stops(4, {1});
  }

  const SESSION := [B(1), C(10), C(10)]

  lemma SessionBreaks()
    ensures Breaks(SESSION[..0]) == [] && Breaks(SESSION[..1]) == [1] && Breaks(SESSION[..2]) == [1]
    ensures Addrs([]) == []
  {
    MoreBreaks(SESSION, 0);
    MoreBreaks(SESSION, 1);
  }

  /** What the contract of Play says of this session. */
  lemma {:induction false} SessionEnds(d: Dbug<int>, replies: seq<Reply>, marks: seq<nat>)
    requires d.machine == Processor() && d.text0 == Program() && d.cpu0 == START
    requires d.Played(SESSION, [], replies, marks, d.liveAt) && marks[0] == 0
    requires |replies| < 3 ==> replies != [] && d.Over(replies[|replies| - 1], marks[|replies|])
    ensures replies == [BreakSet, Stopped(Trapped(0)), Stopped(Exited)] && marks == [0, 0, 2, 4]
  {
    hide Orbit, ArmedAt, Processor;
    SessionBreaks();
    assert |replies| > 0;
    assert d.Obeyed(SESSION[0], [] + Breaks(SESSION[..0]), marks[0], marks[1], replies[0], d.liveAt);
    assert |replies| > 1;
    assert d.Obeyed(SESSION[1], [] + Breaks(SESSION[..1]), marks[1], marks[2], replies[1], d.liveAt);
    assert [] + Breaks(SESSION[..1]) == [1] && [] + Breaks(SESSION[..2]) == [1];
    StopsOf(d, marks[1], marks[2], replies[1].stop);
    ProgramRun(2);
    assert d.Native(2) == Orbit(Processor(), Program(), START, 2);
    assert |replies| > 2;
    assert d.Obeyed(SESSION[2], [] + Breaks(SESSION[..2]), marks[2], marks[3], replies[2], d.liveAt);
    StopsOf(d, marks[2], marks[3], replies[2].stop);
  }

  /** And which instruction is reported: the second, once. */
  lemma {:induction false} SessionReports(d: Dbug<int>, marks: seq<nat>, replies: seq<Reply>)
    requires d.machine == Processor() && d.text0 == Program() && d.cpu0 == START
    requires marks == [0, 0, 2, 4] && d.Logged(4, d.liveAt, d.reported) && |replies| == 3
    requires forall k :: 0 <= k < |replies| ==>
      d.ReportedIff(marks[k], marks[k + 1], d.reported, [] + Breaks(SESSION[..k]))
    ensures d.reported == [1]
  {
    hide Orbit, ArmedAt, Processor;
    assert |d.reported| >= 2 ==> d.reported[0] < d.reported[1];
    SessionBreaks();
    ArmedHere();
    assert [] + Breaks(SESSION[..1]) == [1] && [] + Breaks(SESSION[..2]) == [1];
    assert d.ReportedIff(marks[1], marks[1 + 1], d.reported, [] + Breaks(SESSION[..1]));
    assert d.ReportedIff(marks[2], marks[2 + 1], d.reported, [] + Breaks(SESSION[..2]));
    ProgramRun(0);
    ProgramRun(1);
    ProgramRun(2);
    ProgramRun(3);
    assert forall i :: 0 <= i < 4 ==> (i in d.reported <==> i == 1);
    assert 1 in d.reported;
    forall k | 0 <= k < |d.reported| ensures d.reported[k] == 1 {
      var i := d.reported[k];
      assert i in d.reported && 0 <= i < 4;
    }
  }

  /** A breakpoint on the addition, behind another instruction, stops there once, and the sum comes out as it does
      without the debugger. */
  method Debugged() returns (d: Dbug<int>, replies: seq<Reply>)
    ensures replies == [BreakSet, Stopped(Trapped(0)), Stopped(Exited)]
    ensures d.Valid() && d.tracee.cpu == Cpu(4, 7, true) && d.reported == [1]
  {
    hide Orbit, ArmedAt, Processor, Program, Breaks, FetchOnly, Unobserved, Restored, Armed;
    FetchesOnly();
    ProgramAllows();
    SessionBreaks();
    ghost var marks;
    d := new Dbug(Processor(), Program(), START, {0, 1, 3});
    replies, marks := d.Play(SESSION);
    SessionEnds(d, replies, marks);
    SessionReports(d, marks, replies);
    ProgramRun(4);
  }
}
