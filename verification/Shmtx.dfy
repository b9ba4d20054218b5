/** The mutex of ngx_shmtx.c as a step system. Any number of processes share a lock word, a 32-bit waiter
    count and a semaphore; every load, compare-and-swap, fetch-and-add, sem_wait and sem_post is one step. */
module Shmtx {

  type Word = w: int | 0 <= w < 0x1_0000_0000

  /** `(int) w` */
  function Signed(w: Word): int { if w < 0x8000_0000 then w else w - 0x1_0000_0000 }

  function Wrap(n: int): Word { n % 0x1_0000_0000 }

  /** `spin` is an unsigned 64-bit number; `semaphore` tells whether sem_init succeeded. */
  datatype Config = Config(spin: nat, semaphore: bool)

  /** Where a process stands. */
  datatype Pc =
    | Idle
    | TryLoad | TryCas                            // ngx_shmtx_trylock, line 75
    | LockLoad | LockCas                          // ngx_shmtx_lock, line 88
    | SpinLoad(n: nat) | SpinCas(n: nat)          // lines 92-102
    | Announce                                    // line 106
    | LastLoad | LastCas | Unannounce             // lines 108-109
    | Parked                                      // line 115
    | Holding                                     // between lock and unlock
    | UnlockCas                                   // line 143
    | WakeLoad | WakeCas(w: Word) | Post          // lines 174, 180, 187

  datatype State = State(lock: Word, wait: Word, sem: nat, pcs: seq<Pc>)

  predicate Init(s: State) {
    s.lock == 0 && s.wait == 0 && s.sem == 0 && forall i :: 0 <= i < |s.pcs| ==> s.pcs[i] == Idle
  }

  /** After the spin loop: announce oneself, or yield and start over when there is no semaphore. */
  function AfterSpin(c: Config): Pc { if c.semaphore then Announce else LockLoad }

  /** The head of the spin loop with counter `n`. */
  function Spin(c: Config, n: nat): Pc { if n < c.spin then SpinLoad(n) else AfterSpin(c) }

  /** `n <<= 1` */
  function Doubled(n: nat): nat { 2 * n % 0x1_0000_0000_0000_0000 }

  function Moved(s: State, p: nat, pc: Pc): State
    requires p < |s.pcs|
  {
    s.(pcs := s.pcs[p := pc])
  }

  /** A compare-and-swap of the lock word from 0 to 1. */
  function TakeLock(s: State, p: nat, yes: Pc, no: Pc): State
    requires p < |s.pcs|
  {
    if s.lock == 0 then Moved(s, p, yes).(lock := 1) else Moved(s, p, no)
  }

  /** Process `p` is inside a function and not blocked in sem_wait. */
  predicate CanStep(s: State, p: nat) {
    p < |s.pcs| && !s.pcs[p].Idle? && !s.pcs[p].Holding? && (s.pcs[p].Parked? ==> s.sem > 0)
  }

  /** The state after one step of process `p` inside a function. */
  function Stepped(c: Config, s: State, p: nat): State
    requires CanStep(s, p)
  {
    match s.pcs[p]
    case TryLoad => Moved(s, p, if s.lock == 0 then TryCas else Idle)
    case TryCas => TakeLock(s, p, Holding, Idle)
    case LockLoad => Moved(s, p, if s.lock == 0 then LockCas else Spin(c, 1))
    case LockCas => TakeLock(s, p, Holding, Spin(c, 1))
    case SpinLoad(n) => Moved(s, p, if s.lock == 0 then SpinCas(n) else Spin(c, Doubled(n)))
    case SpinCas(n) => TakeLock(s, p, Holding, Spin(c, Doubled(n)))
    case Announce => Moved(s, p, LastLoad).(wait := Wrap(s.wait + 1))
    case LastLoad => Moved(s, p, if s.lock == 0 then LastCas else Parked)
    case LastCas => TakeLock(s, p, Unannounce, Parked)
    case Unannounce => Moved(s, p, Holding).(wait := Wrap(s.wait - 1))
    case Parked => Moved(s, p, LockLoad).(sem := s.sem - 1)
    case UnlockCas =>
      if s.lock == 1 then Moved(s, p, if c.semaphore then WakeLoad else Idle).(lock := 0) else Moved(s, p, Idle)
    case WakeLoad => Moved(s, p, if Signed(s.wait) <= 0 then Idle else WakeCas(s.wait))
    case WakeCas(w) => if s.wait == w then Moved(s, p, Post).(wait := Wrap(w - 1)) else Moved(s, p, WakeLoad)
    case Post => Moved(s, p, Idle).(sem := s.sem + 1)
  }

  predicate Inner(c: Config, s: State, s': State, p: nat) {
    CanStep(s, p) && s' == Stepped(c, s, p)
  }

  /** A process calls a function: anyone may try or lock, only the holder unlocks. */
  predicate Call(s: State, s': State, p: nat) {
    p < |s.pcs| &&
    match s.pcs[p]
    case Idle => s' == Moved(s, p, TryLoad) || s' == Moved(s, p, LockLoad)
    case Holding => s' == Moved(s, p, UnlockCas)
    case _ => false
  }

  /** sem_wait is interrupted by a signal and called again. */
  predicate Interrupted(s: State, s': State, p: nat) {
    p < |s.pcs| && s.pcs[p] == Parked && s' == s
  }

  ghost predicate Next(c: Config, s: State, s': State) {
    exists p: nat :: Inner(c, s, s', p) || Call(s, s', p) || Interrupted(s, s', p)
  }

  ghost predicate Run(c: Config, states: seq<State>) {
    states != [] && Init(states[0]) && forall i :: 0 <= i < |states| - 1 ==> Next(c, states[i], states[i + 1])
  }

  // ----- counting processes

  datatype Group = Holders | Announced | Posters | Sleepers | Wakers | Lockers

  predicate In(g: Group, pc: Pc) {
    match g
    case Holders => pc.Unannounce? || pc.Holding? || pc.UnlockCas?
    case Announced => pc.LastLoad? || pc.LastCas? || pc.Unannounce? || pc.Parked?
    case Posters => pc.Post?
    case Sleepers => pc.Parked?
    case Wakers => pc.WakeLoad? || pc.WakeCas? || pc.Post?
    case Lockers =>
      pc.LockLoad? || pc.LockCas? || pc.SpinLoad? || pc.SpinCas? || pc.Announce? || pc.LastLoad? || pc.LastCas?
  }

  function Weight(g: Group, pc: Pc): nat { if In(g, pc) then 1 else 0 }

  function Count(g: Group, pcs: seq<Pc>): (n: nat)
    ensures n <= |pcs|
  {
    if pcs == [] then 0 else Count(g, pcs[1..]) + Weight(g, pcs[0])
  }

  lemma {:induction false} CountMoved(g: Group, pcs: seq<Pc>, p: nat, pc: Pc)
    requires p < |pcs|
    ensures Count(g, pcs[p := pc]) == Count(g, pcs) - Weight(g, pcs[p]) + Weight(g, pc)
  {
    if p > 0 {
      CountMoved(g, pcs[1..], p - 1, pc);
      assert pcs[p := pc][1..] == pcs[1..][p - 1 := pc];
    } else {
      assert pcs[p := pc][1..] == pcs[1..];
    }
  }

  lemma {:induction false} CountPositive(g: Group, pcs: seq<Pc>, p: nat)
    requires p < |pcs| && In(g, pcs[p])
    ensures Count(g, pcs) > 0
  {
    if p > 0 { CountPositive(g, pcs[1..], p - 1); }
  }

  lemma {:induction false} CountWitness(g: Group, pcs: seq<Pc>) returns (p: nat)
    requires Count(g, pcs) > 0
    ensures p < |pcs| && In(g, pcs[p])
  {
    if In(g, pcs[0]) {
      p := 0;
    } else {
      p := CountWitness(g, pcs[1..]);
      p := p + 1;
    }
  }

  // ----- what every reachable state keeps

  predicate Accounted(s: State) {
    && s.lock == Count(Holders, s.pcs) <= 1
    && Signed(s.wait) == Count(Announced, s.pcs) - s.sem - Count(Posters, s.pcs)
    && s.sem + Count(Posters, s.pcs) <= |s.pcs|
    && forall i :: 0 <= i < |s.pcs| && s.pcs[i].WakeCas? ==> Signed(s.pcs[i].w) > 0
  }

  predicate NotLost(s: State) {
    s.lock == 0 && Count(Sleepers, s.pcs) > 0 ==>
      s.sem > 0 || Count(Wakers, s.pcs) > 0 || Count(Lockers, s.pcs) > 0
  }

  /** Without a semaphore nobody announces or sleeps. */
  predicate Plain(c: Config, s: State) {
    !c.semaphore ==> forall i :: 0 <= i < |s.pcs| ==> !s.pcs[i].Announce? && !In(Announced, s.pcs[i])
  }

  predicate Inv(c: Config, s: State) { Accounted(s) && NotLost(s) && Plain(c, s) }

  lemma {:induction false} Subgroups(pcs: seq<Pc>)
    ensures Count(Posters, pcs) <= Count(Wakers, pcs) && Count(Sleepers, pcs) <= Count(Announced, pcs)
  {
    if pcs != [] { Subgroups(pcs[1..]); }
  }

  lemma {:induction false} NobodyIn(g: Group, pcs: seq<Pc>)
    requires forall i :: 0 <= i < |pcs| ==> !In(g, pcs[i])
    ensures Count(g, pcs) == 0
  {
    if pcs != [] { NobodyIn(g, pcs[1..]); }
  }

  lemma {:induction false} CountsMoved(s: State, s': State, p: nat)
    requires p < |s.pcs| && |s'.pcs| == |s.pcs| && s'.pcs == s.pcs[p := s'.pcs[p]]
    ensures forall g :: Count(g, s'.pcs) == Count(g, s.pcs) - Weight(g, s.pcs[p]) + Weight(g, s'.pcs[p])
    ensures forall g :: In(g, s.pcs[p]) ==> Count(g, s.pcs) > 0
  {
    forall g ensures Count(g, s'.pcs) == Count(g, s.pcs) - Weight(g, s.pcs[p]) + Weight(g, s'.pcs[p]) {
      CountMoved(g, s.pcs, p, s'.pcs[p]);
    }
    forall g | In(g, s.pcs[p]) ensures Count(g, s.pcs) > 0 { CountPositive(g, s.pcs, p); }
  }

  lemma {:induction false} OneMoves(c: Config, s: State, s': State, p: nat)
    requires Inner(c, s, s', p) || Call(s, s', p)
    ensures p < |s.pcs| && |s'.pcs| == |s.pcs| && s'.pcs == s.pcs[p := s'.pcs[p]]
  {
  }

  lemma {:induction false} LockKept(c: Config, s: State, s': State, p: nat)
    requires Inner(c, s, s', p) && s.lock == Count(Holders, s.pcs) <= 1
    ensures s'.lock == Count(Holders, s'.pcs) <= 1
  {
    hide Count;
    OneMoves(c, s, s', p);
    CountsMoved(s, s', p);
  }

  /** The 32-bit count moves by one without wrapping as long as its signed value stays in range. */
  lemma SignedMoves(w: Word)
    ensures Signed(w) < 0x7FFF_FFFF ==> Signed(Wrap(w + 1)) == Signed(w) + 1
    ensures Signed(w) > -0x8000_0000 ==> Signed(Wrap(w - 1)) == Signed(w) - 1
  {
  }

  lemma {:induction false} WaitKept(c: Config, s: State, s': State, p: nat)
    requires |s.pcs| < 0x8000_0000 && Inner(c, s, s', p) && Accounted(s)
    ensures Signed(s'.wait) == Count(Announced, s'.pcs) - s'.sem - Count(Posters, s'.pcs)
    ensures s'.sem + Count(Posters, s'.pcs) <= |s'.pcs|
  {
    hide Count, Wrap, Signed;
    OneMoves(c, s, s', p);
    CountsMoved(s, s', p);
    SignedMoves(s.wait);
  }

  lemma {:induction false} CasKept(c: Config, s: State, s': State, p: nat)
    requires Inner(c, s, s', p) && Accounted(s)
    ensures forall i :: 0 <= i < |s'.pcs| && s'.pcs[i].WakeCas? ==> Signed(s'.pcs[i].w) > 0
  {
    OneMoves(c, s, s', p);
  }

  lemma {:induction false} NotLostKept(c: Config, s: State, s': State, p: nat)
    requires Inner(c, s, s', p) && Inv(c, s)
    ensures NotLost(s')
  {
    hide Count, Wrap, Signed;
    OneMoves(c, s, s', p);
    CountsMoved(s, s', p);
    Subgroups(s.pcs);
    Subgroups(s'.pcs);
    if !c.semaphore { NobodyIn(Announced, s.pcs); }
  }

  lemma {:induction false} InnerKeepsInv(c: Config, s: State, s': State, p: nat)
    requires |s.pcs| < 0x8000_0000 && Inv(c, s) && Inner(c, s, s', p)
    ensures Inv(c, s') && |s'.pcs| == |s.pcs|
  {
    hide Count, Wrap, Signed;
    OneMoves(c, s, s', p);
    LockKept(c, s, s', p);
    WaitKept(c, s, s', p);
    CasKept(c, s, s', p);
    NotLostKept(c, s, s', p);
  }

  lemma {:induction false} CallKeepsInv(c: Config, s: State, s': State, p: nat)
    requires Inv(c, s) && Call(s, s', p)
    ensures Inv(c, s') && |s'.pcs| == |s.pcs|
  {
    hide Count, Wrap, Signed;
    OneMoves(c, s, s', p);
    CountsMoved(s, s', p);
  }

  /** Every state of every run keeps the accounts and loses no wakeup, for any number of processes below 2^31. */
  lemma {:induction false} RunKeepsInv(c: Config, states: seq<State>, i: nat)
    requires Run(c, states) && i < |states| && |states[0].pcs| < 0x8000_0000
    ensures Inv(c, states[i]) && |states[i].pcs| == |states[0].pcs|
  {
    if i == 0 {
      forall g ensures Count(g, states[0].pcs) == 0 || In(g, Idle) { if !In(g, Idle) { NobodyIn(g, states[0].pcs); } }
    } else {
      RunKeepsInv(c, states, i - 1);
      var s, s' := states[i - 1], states[i];
      assert Next(c, s, s');
      var p: nat :| Inner(c, s, s', p) || Call(s, s', p) || Interrupted(s, s', p);
      if Inner(c, s, s', p) { InnerKeepsInv(c, s, s', p); }
      if Call(s, s', p) { CallKeepsInv(c, s, s', p); }
    }
  }

  // ----- what that means for the processes

  /** No two processes hold the lock. */
  lemma {:induction false} MutualExclusion(c: Config, states: seq<State>, i: nat, p: nat, q: nat)
    requires Run(c, states) && i < |states| && |states[0].pcs| < 0x8000_0000
    requires p < q < |states[i].pcs|
    ensures !(In(Holders, states[i].pcs[p]) && In(Holders, states[i].pcs[q]))
  {
    RunKeepsInv(c, states, i);
    if In(Holders, states[i].pcs[p]) && In(Holders, states[i].pcs[q]) {
      CountMoved(Holders, states[i].pcs, p, Idle);
      CountPositive(Holders, states[i].pcs[p := Idle], q);
    }
  }

  /** The lock word is 1 exactly when some process holds the lock. */
  lemma {:induction false} LockedIffHeld(c: Config, states: seq<State>, i: nat)
    requires Run(c, states) && i < |states| && |states[0].pcs| < 0x8000_0000
    ensures states[i].lock == 1 <==> exists p :: 0 <= p < |states[i].pcs| && In(Holders, states[i].pcs[p])
  {
    RunKeepsInv(c, states, i);
    var pcs := states[i].pcs;
    if states[i].lock == 1 {
      var p := CountWitness(Holders, pcs);
    }
    if p: nat :| p < |pcs| && In(Holders, pcs[p]) {
      CountPositive(Holders, pcs, p);
    }
  }

  /** While the lock is free a sleeper has a wakeup coming: the semaphore is positive, or an unlocker has not
      finished, or somebody in the lock loop has yet to make the last check. */
  lemma {:induction false} NoLostWakeup(c: Config, states: seq<State>, i: nat, sleeper: nat)
    requires Run(c, states) && i < |states| && |states[0].pcs| < 0x8000_0000
    requires states[i].lock == 0 && sleeper < |states[i].pcs| && states[i].pcs[sleeper] == Parked
    ensures states[i].sem > 0 || exists p ::
      0 <= p < |states[i].pcs| && (In(Wakers, states[i].pcs[p]) || In(Lockers, states[i].pcs[p]))
  {
    RunKeepsInv(c, states, i);
    var pcs := states[i].pcs;
    CountPositive(Sleepers, pcs, sleeper);
    if Count(Wakers, pcs) > 0 {
      var p := CountWitness(Wakers, pcs);
    } else if Count(Lockers, pcs) > 0 {
      var p := CountWitness(Lockers, pcs);
    }
  }

  // ----- a free lock does not stay free beside a sleeper

  /** A process that can still change the waiter count while the lock stays free. */
  function Writer(pc: Pc): nat { if pc.Announce? || pc.WakeLoad? || pc.WakeCas? then 1 else 0 }

  /** How far a process is from the end of its current call while the lock stays free and the count unchanged. */
  function Rank(pc: Pc, wait: Word): nat {
    match pc
    case Parked => 4
    case LockLoad => 3
    case SpinLoad(_) => 3
    case LockCas => 2
    case SpinCas(_) => 2
    case LastLoad => 2
    case TryLoad => 2
    case WakeCas(w) => if w == wait then 1 else 3
    case WakeLoad => 2
    case LastCas => 1
    case TryCas => 1
    case Post => 1
    case _ => 0
  }

  function Writers(pcs: seq<Pc>): nat { if pcs == [] then 0 else Writer(pcs[0]) + Writers(pcs[1..]) }

  function Ranks(pcs: seq<Pc>, wait: Word): (n: nat)
    ensures n <= 4 * |pcs|
  {
    if pcs == [] then 0 else Rank(pcs[0], wait) + Ranks(pcs[1..], wait)
  }

  function Measure(s: State): nat { Writers(s.pcs) * (4 * |s.pcs| + 1) + Ranks(s.pcs, s.wait) }

  lemma {:induction false} WritersMoved(pcs: seq<Pc>, p: nat, pc: Pc)
    requires p < |pcs|
    ensures Writers(pcs[p := pc]) == Writers(pcs) - Writer(pcs[p]) + Writer(pc)
  {
    if p > 0 {
      WritersMoved(pcs[1..], p - 1, pc);
      assert pcs[p := pc][1..] == pcs[1..][p - 1 := pc];
    } else {
      assert pcs[p := pc][1..] == pcs[1..];
    }
  }

  lemma {:induction false} RanksMoved(pcs: seq<Pc>, wait: Word, p: nat, pc: Pc)
    requires p < |pcs|
    ensures Ranks(pcs[p := pc], wait) == Ranks(pcs, wait) - Rank(pcs[p], wait) + Rank(pc, wait)
  {
    if p > 0 {
      RanksMoved(pcs[1..], wait, p - 1, pc);
      assert pcs[p := pc][1..] == pcs[1..][p - 1 := pc];
    } else {
      assert pcs[p := pc][1..] == pcs[1..];
    }
  }

  lemma {:induction false} FreeLockStep(c: Config, s: State, s': State, p: nat)
    requires Inv(c, s) && Inner(c, s, s', p) && s.lock == 0 && s'.lock == 0
    ensures Measure(s') < Measure(s)
  {
    hide Count, Wrap, Signed, Writers, Ranks;
    OneMoves(c, s, s', p);
    WritersMoved(s.pcs, p, s'.pcs[p]);
    RanksMoved(s.pcs, s.wait, p, s'.pcs[p]);
    CountsMoved(s, s', p);
    var n := 4 * |s.pcs| + 1;
    if Writer(s'.pcs[p]) < Writer(s.pcs[p]) {
      assert Writers(s'.pcs) * n == Writers(s.pcs) * n - n;
    } else {
      assert Writer(s'.pcs[p]) == Writer(s.pcs[p]) && s'.wait == s.wait;
    }
  }

  /** Steps inside the functions, without new calls: `who[i]` takes step `i`. */
  predicate InnerRun(c: Config, states: seq<State>, who: seq<nat>) {
    |states| == |who| + 1 && forall i :: 0 <= i < |who| ==> Inner(c, states[i], states[i + 1], who[i])
  }

  /** The processes inside the functions can only take a bounded number of steps before one takes a free lock. */
  lemma {:induction false} FreeLockBound(c: Config, states: seq<State>, who: seq<nat>)
    requires InnerRun(c, states, who) && Inv(c, states[0]) && |states[0].pcs| < 0x8000_0000
    requires forall i :: 0 <= i < |states| ==> states[i].lock == 0
    ensures |who| <= Measure(states[0])
    decreases |who|
  {
    hide Inv, Inner, Measure;
    if who != [] {
      FreeLockStep(c, states[0], states[1], who[0]);
      InnerKeepsInv(c, states[0], states[1], who[0]);
      FreeLockBound(c, states[1..], who[1..]);
    }
  }

  /** Somebody sleeps, or is on the way into or round the lock loop. */
  predicate Waiting(s: State) { Count(Sleepers, s.pcs) > 0 || Count(Lockers, s.pcs) > 0 }

  /** While the lock stays free, whoever waits goes on waiting: a sleeper only leaves for the lock loop. */
  lemma {:induction false} StillWaiting(c: Config, s: State, s': State, p: nat)
    requires Inner(c, s, s', p) && s.lock == 0 && s'.lock == 0 && Waiting(s)
    ensures Waiting(s')
  {
    hide Count, Wrap, Signed;
    OneMoves(c, s, s', p);
    CountsMoved(s, s', p);
    if In(Lockers, s'.pcs[p]) { CountPositive(Lockers, s'.pcs, p); }
    if In(Sleepers, s'.pcs[p]) { CountPositive(Sleepers, s'.pcs, p); }
  }

  /** And some process can take a step. */
  lemma {:induction false} WaitingHasStep(c: Config, s: State)
    requires Inv(c, s) && s.lock == 0 && Waiting(s)
    ensures exists p: nat :: CanStep(s, p)
  {
    if Count(Lockers, s.pcs) > 0 {
      var p := CountWitness(Lockers, s.pcs);
      assert CanStep(s, p);
    } else if s.sem > 0 {
      var sleeper := CountWitness(Sleepers, s.pcs);
      assert CanStep(s, sleeper);
    } else {
      var p := CountWitness(Wakers, s.pcs);
      assert CanStep(s, p);
    }
  }

  lemma {:induction false} WaitingLasts(c: Config, states: seq<State>, who: seq<nat>, i: nat)
    requires InnerRun(c, states, who) && i < |states| && Inv(c, states[0]) && |states[0].pcs| < 0x8000_0000
    requires Waiting(states[0]) && forall j :: 0 <= j < |states| ==> states[j].lock == 0
    ensures Waiting(states[i]) && Inv(c, states[i]) && |states[i].pcs| == |states[0].pcs|
  {
    hide Inv, Inner, Waiting;
    if i > 0 {
      WaitingLasts(c, states, who, i - 1);
      StillWaiting(c, states[i - 1], states[i], who[i - 1]);
      InnerKeepsInv(c, states[i - 1], states[i], who[i - 1]);
    }
  }

  /** A free lock with a sleeper beside it is taken again: after any run, however the processes inside the functions
      go on without new calls, some state has the lock taken, at the latest when `Measure` steps have been taken or
      none is left to take. */
  lemma {:induction false} FreeLockTaken(c: Config, run: seq<State>, states: seq<State>, who: seq<nat>)
    requires Run(c, run) && |run[0].pcs| < 0x8000_0000 && states != [] && states[0] == run[|run| - 1]
    requires InnerRun(c, states, who) && states[0].lock == 0 && Count(Sleepers, states[0].pcs) > 0
    requires |who| > Measure(states[0]) || forall p: nat :: !CanStep(states[|who|], p)
    ensures exists i :: 0 <= i < |states| && states[i].lock == 1
  {
    RunKeepsInv(c, run, |run| - 1);
    if forall i :: 0 <= i < |states| ==> states[i].lock != 1 {
      LocksFree(c, states, who, |who|);
      FreeLockBound(c, states, who);
      WaitingLasts(c, states, who, |who|);
      WaitingHasStep(c, states[|who|]);
    }
  }

  /** The lock word is 0 or 1. */
  lemma {:induction false} LocksFree(c: Config, states: seq<State>, who: seq<nat>, n: nat)
    requires InnerRun(c, states, who) && n <= |who| && Inv(c, states[0]) && |states[0].pcs| < 0x8000_0000
    requires forall i :: 0 <= i < |states| ==> states[i].lock != 1
    ensures forall i :: 0 <= i <= n ==> states[i].lock == 0
    ensures Inv(c, states[n]) && |states[n].pcs| == |states[0].pcs|
  {
    hide Count, Inner, Stepped, CanStep;
    if n > 0 {
      LocksFree(c, states, who, n - 1);
      InnerKeepsInv(c, states[n - 1], states[n], who[n - 1]);
    }
  }
}
