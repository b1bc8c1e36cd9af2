/** Sleep and wakeup, and the sleeplock built on them: kernel/sleeplock.c with proc_sleep and
    proc_wakeup of kernel/proc/proc.c, as a step system over any number of processes.

    The two spinlocks, the one inside the sleeplock and the one of the process manager, are
    held by one process or none; taking a free one is a single step. A process that goes to
    sleep releases the manager's lock and leaves its hart in one step. */
module Sleeplock {
  import opened Types

  datatype RunState = Sleeping | Runnable | Running
  datatype Chan = NoChan | OnLock | Elsewhere

  datatype Pc =
    | Out                    // not in sleeplock code
    | A0 | A1                // acquire: before / after taking the inner lock
    | S0 | S1 | S2 | S3 | S4 // proc_sleep: found locked; manager's lock; inner lock released; channel; state set
    | Off                    // off the hart until woken and scheduled
    | W0 | W1 | W2 | W3      // proc_sleep after the switch: channel cleared, inner lock to retake
    | A2 | A3 | A4           // acquire: found free; `locked` set; `pid` set
    | Hold                   // between acquire and release
    | R0 | R1                // release: before / after taking the inner lock
    | R2(todo: set<nat>)     // proc_wakeup: walking the process list, `todo` still to be visited
    | R3 | R4                // walk finished; manager's lock released
    | R5 | R6                // `locked` cleared; `pid` cleared

  datatype Proc = Proc(pc: Pc, run: RunState, chan: Chan)

  /** `inner` and `manager` are the holders of the two spinlocks; `locked` and `pid` the fields of
      the sleeplock. `owner` is history: who set `locked` last and has not cleared it. */
  datatype State = State(procs: map<nat, Proc>, inner: Option<nat>, manager: Option<nat>, locked: bool, pid: nat,
                         owner: Option<nat>)

  datatype Action =
    | Acquire | Release      // a process enters the sleeplock code
    | Advance                // it takes its next step there
    | Visit(q: nat)          // ... or the next step of its walk over the process list
    | Nap                    // outside: sleep on some other channel
    | Wake                   // some other wakeup, or a kill, makes it runnable
    | Schedule               // the scheduler runs it

  predicate HoldsInner(pc: Pc) {
    || pc.A1? || pc.S0? || pc.S1? || pc.A2? || pc.A3? || pc.A4?
    || pc.R1? || pc.R2? || pc.R3? || pc.R4? || pc.R5? || pc.R6?
  }

  predicate HoldsManager(pc: Pc) {
    (pc.S1? || pc.S2? || pc.S3? || pc.S4? || pc.W1? || pc.W2? || pc.R3?) || pc.R2?
  }

  predicate Owns(pc: Pc) {
    (pc.A3? || pc.A4? || pc.Hold? || pc.R0? || pc.R1? || pc.R3? || pc.R4?) || pc.R2?
  }

  predicate Enabled(s: State, p: nat, a: Action) {
    p in s.procs &&
    var x := s.procs[p];
    match a
    case Acquire => x.pc.Out? && x.run.Running?
    case Release => x.pc.Hold? && x.run.Running?
    case Advance =>
      && !x.pc.Out? && !x.pc.Hold? && (x.run.Running? || x.pc.S4?)
      && ((x.pc.A0? || x.pc.W3? || x.pc.R0?) ==> s.inner.None?)
      && ((x.pc.S0? || x.pc.W0? || x.pc.R1?) ==> s.manager.None?)
      && (x.pc.R2? ==> x.pc.todo == {})
    case Visit(q) => x.pc.R2? && q in x.pc.todo && q in s.procs && x.run.Running?
    case Nap => x.pc.Out? && x.run.Running? && s.manager.None?
    case Wake => x.run.Sleeping? && s.manager.None?
    case Schedule => x.run.Runnable? && s.manager.None?
  }

  function At(s: State, p: nat, pc: Pc): State
    requires p in s.procs
  {
    s.(procs := s.procs[p := s.procs[p].(pc := pc)])
  }

  function WithRun(s: State, p: nat, run: RunState): State
    requires p in s.procs
  {
    s.(procs := s.procs[p := s.procs[p].(run := run)])
  }

  function WithChan(s: State, p: nat, chan: Chan): State
    requires p in s.procs
  {
    s.(procs := s.procs[p := s.procs[p].(chan := chan)])
  }

  /** The next statement of a process inside the sleeplock code. */
  function Statement(s: State, p: nat): State
    requires p in s.procs
  {
    match s.procs[p].pc
    case A0 => At(s, p, A1).(inner := Some(p))
    case A1 => At(s, p, if s.locked then S0 else A2)
    case S0 => At(s, p, S1).(manager := Some(p))
    case S1 => At(s, p, S2).(inner := None)
    case S2 => At(WithChan(s, p, OnLock), p, S3)
    case S3 => At(WithRun(s, p, Sleeping), p, S4)
    case S4 => At(s, p, Off).(manager := None)
    case Off => At(s, p, W0)
    case W0 => At(s, p, W1).(manager := Some(p))
    case W1 => At(WithChan(s, p, NoChan), p, W2)
    case W2 => At(s, p, W3).(manager := None)
    case W3 => At(s, p, A1).(inner := Some(p))
    case A2 => At(s, p, A3).(locked := true, owner := Some(p))
    case A3 => At(s, p, A4).(pid := p)
    case A4 => At(s, p, Hold).(inner := None)
    case R0 => At(s, p, R1).(inner := Some(p))
    case R1 => At(s, p, R2(s.procs.Keys)).(manager := Some(p))
    case R2(_) => At(s, p, R3)
    case R3 => At(s, p, R4).(manager := None)
    case R4 => At(s, p, R5).(locked := false, owner := None)
    case R5 => At(s, p, R6).(pid := 0)
    case R6 => At(s, p, Out).(inner := None)
    case Out => s
    case Hold => s
  }

  function Next(s: State, p: nat, a: Action): State
    requires Enabled(s, p, a)
  {
    match a
    case Acquire => At(s, p, A0)
    case Release => At(s, p, R0)
    case Advance => Statement(s, p)
    case Visit(q) =>
      var s1 := if s.procs[q].chan.OnLock? && s.procs[q].run.Sleeping? then WithRun(s, q, Runnable) else s;
      At(s1, p, R2(s.procs[p].pc.todo - {q}))
    case Nap => WithRun(WithChan(s, p, Elsewhere), p, Sleeping)
    case Wake => WithRun(s, p, Runnable)
    case Schedule => WithRun(s, p, Running)
  }

  predicate Init(s: State) {
    && (forall p | p in s.procs :: s.procs[p].pc.Out? && s.procs[p].chan.NoChan? && p != 0)
    && s.inner.None? && s.manager.None? && !s.locked && s.pid == 0 && s.owner.None?
  }

  // ------------------------------------------------------------------ the invariant

  /** Asleep on the lock, or past releasing the inner lock on the way to sleep. */
  predicate Waiting(x: Proc) {
    (x.pc.S2? || x.pc.S3? || x.pc.S4?) || (x.pc.Off? && x.run.Sleeping?)
  }

  /** How far the current owner's wakeup has come, as far as process `p` is concerned. */
  predicate WokenBy(pc: Pc, p: nat, x: Proc) {
    match pc
    case R2(todo) => Waiting(x) ==> p in todo
    case R3 => !Waiting(x)
    case R4 => !Waiting(x)
    case _ => true
  }

  predicate ProcOk(s: State, p: nat)
    requires p in s.procs
  {
    var x := s.procs[p];
    && (HoldsInner(x.pc) <==> s.inner == Some(p))
    && (HoldsManager(x.pc) <==> s.manager == Some(p))
    && (Owns(x.pc) <==> s.owner == Some(p))
    && ((x.pc.A4? || x.pc.Hold? || x.pc.R0? || x.pc.R1? || x.pc.R3? || x.pc.R4? || x.pc.R5?) || x.pc.R2? ==> s.pid == p)
    && (x.pc.A2? ==> !s.locked) && (x.pc.A3? ==> s.pid == 0)
    && ((x.pc.S0? || x.pc.S1?) || Waiting(x) ==> s.locked)
    && (x.chan.OnLock? <==> (x.pc.S3? || x.pc.S4? || x.pc.Off? || x.pc.W0? || x.pc.W1?))
    && (if x.pc.Out? || x.pc.Off? then true else if x.pc.S4? then x.run.Sleeping? else x.run.Running?)
    && (s.owner.Some? && s.owner.value in s.procs ==> WokenBy(s.procs[s.owner.value].pc, p, x))
    && (x.pc.R2? ==> x.pc.todo <= s.procs.Keys)
  }

  predicate Inv(s: State) {
    && (forall p | p in s.procs :: p != 0 && ProcOk(s, p))
    && (s.locked <==> s.owner.Some?)
    && (s.owner.Some? ==> s.owner.value in s.procs)
    && (s.inner.Some? ==> s.inner.value in s.procs)
    && (s.pid != 0 ==> s.pid in s.procs && (Owns(s.procs[s.pid].pc) || s.procs[s.pid].pc.R5?))
  }

  lemma InitInv(s: State)
    requires Init(s)
    ensures Inv(s)
  {
  }

  predicate Acquiring(pc: Pc) { pc.A0? || pc.A1? || pc.A2? || pc.A3? || pc.A4? }
  predicate GoingToSleep(pc: Pc) { pc.S0? || pc.S1? || pc.S2? || pc.S3? || pc.S4? }
  predicate WakingUp(pc: Pc) { pc.Off? || pc.W0? || pc.W1? || pc.W2? || pc.W3? }
  predicate Releasing(pc: Pc) { pc.R0? || pc.R1? || pc.R2? || pc.R3? || pc.R4? || pc.R5? || pc.R6? }

  // What a statement means for the process that executes it ...

  lemma AcquireEntry(s: State, p: nat)
    requires Inv(s) && Enabled(s, p, Advance) && (s.procs[p].pc.A0? || s.procs[p].pc.A1?)
    ensures ProcOk(Statement(s, p), p)
  {
    assert ProcOk(s, p);
  }

  lemma AcquireTake(s: State, p: nat)
    requires Inv(s) && Enabled(s, p, Advance) && (s.procs[p].pc.A2? || s.procs[p].pc.A3? || s.procs[p].pc.A4?)
    ensures ProcOk(Statement(s, p), p)
  {
    assert ProcOk(s, p);
  }

  lemma SleepLocks(s: State, p: nat)
    requires Inv(s) && Enabled(s, p, Advance) && (s.procs[p].pc.S0? || s.procs[p].pc.S1?)
    ensures ProcOk(Statement(s, p), p)
  {
    assert ProcOk(s, p);
  }

  lemma SleepMarks(s: State, p: nat)
    requires Inv(s) && Enabled(s, p, Advance) && (s.procs[p].pc.S2? || s.procs[p].pc.S3? || s.procs[p].pc.S4?)
    ensures ProcOk(Statement(s, p), p)
  {
    assert ProcOk(s, p);
  }

  lemma WakeResume(s: State, p: nat)
    requires Inv(s) && Enabled(s, p, Advance) && (s.procs[p].pc.Off? || s.procs[p].pc.W0?)
    ensures ProcOk(Statement(s, p), p)
  {
    assert ProcOk(s, p);
  }

  lemma WakeClear(s: State, p: nat)
    requires Inv(s) && Enabled(s, p, Advance) && (s.procs[p].pc.W1? || s.procs[p].pc.W2? || s.procs[p].pc.W3?)
    ensures ProcOk(Statement(s, p), p)
  {
    if s.procs[p].pc.W1? {
      WakeChannel(s, p);
    } else {
      WakeReturn(s, p);
    }
  }

  lemma WakeChannel(s: State, p: nat)
    requires Inv(s) && Enabled(s, p, Advance) && s.procs[p].pc.W1?
    ensures ProcOk(Statement(s, p), p)
  {
    assert ProcOk(s, p);
  }

  lemma WakeReturn(s: State, p: nat)
    requires Inv(s) && Enabled(s, p, Advance) && (s.procs[p].pc.W2? || s.procs[p].pc.W3?)
    ensures ProcOk(Statement(s, p), p)
  {
    assert ProcOk(s, p);
  }

  lemma ReleaseEntry(s: State, p: nat)
    requires Inv(s) && Enabled(s, p, Advance) && (s.procs[p].pc.R0? || s.procs[p].pc.R1? || s.procs[p].pc.R2?)
    ensures ProcOk(Statement(s, p), p)
  {
    assert ProcOk(s, p);
  }

  lemma ReleaseClear(s: State, p: nat)
    requires Inv(s) && Enabled(s, p, Advance) && (s.procs[p].pc.R3? || s.procs[p].pc.R4?)
    ensures ProcOk(Statement(s, p), p)
  {
    assert ProcOk(s, p);
  }

  lemma ReleaseExit(s: State, p: nat)
    requires Inv(s) && Enabled(s, p, Advance) && (s.procs[p].pc.R5? || s.procs[p].pc.R6?)
    ensures ProcOk(Statement(s, p), p)
  {
    assert ProcOk(s, p);
  }

  // ... and for every other process.

  lemma AcquireOthers(s: State, p: nat, q: nat)
    requires Inv(s) && Enabled(s, p, Advance) && Acquiring(s.procs[p].pc) && q in s.procs && q != p
    ensures ProcOk(Statement(s, p), q)
  {
    assert ProcOk(s, p) && ProcOk(s, q);
  }

  lemma SleepOthers(s: State, p: nat, q: nat)
    requires Inv(s) && Enabled(s, p, Advance) && GoingToSleep(s.procs[p].pc) && q in s.procs && q != p
    ensures ProcOk(Statement(s, p), q)
  {
    assert ProcOk(s, p) && ProcOk(s, q);
  }

  lemma WakeOthers(s: State, p: nat, q: nat)
    requires Inv(s) && Enabled(s, p, Advance) && WakingUp(s.procs[p].pc) && q in s.procs && q != p
    ensures ProcOk(Statement(s, p), q)
  {
    assert ProcOk(s, p) && ProcOk(s, q);
  }

  lemma ReleaseOthers(s: State, p: nat, q: nat)
    requires Inv(s) && Enabled(s, p, Advance) && Releasing(s.procs[p].pc) && q in s.procs && q != p
    ensures ProcOk(Statement(s, p), q)
  {
    assert ProcOk(s, p) && ProcOk(s, q);
  }

  lemma StatementKeeps(s: State, p: nat, q: nat)
    requires Inv(s) && Enabled(s, p, Advance) && q in s.procs
    ensures ProcOk(Statement(s, p), q)
  {
    var pc := s.procs[p].pc;
    if q != p {
      if Acquiring(pc) {
        AcquireOthers(s, p, q);
      } else if GoingToSleep(pc) {
        SleepOthers(s, p, q);
      } else if WakingUp(pc) {
        WakeOthers(s, p, q);
      } else {
        ReleaseOthers(s, p, q);
      }
    } else if pc.A0? || pc.A1? {
      AcquireEntry(s, p);
    } else if Acquiring(pc) {
      AcquireTake(s, p);
    } else if pc.S0? || pc.S1? {
      SleepLocks(s, p);
    } else if GoingToSleep(pc) {
      SleepMarks(s, p);
    } else if pc.Off? || pc.W0? {
      WakeResume(s, p);
    } else if WakingUp(pc) {
      WakeClear(s, p);
    } else if pc.R0? || pc.R1? || pc.R2? {
      ReleaseEntry(s, p);
    } else if pc.R3? || pc.R4? {
      ReleaseClear(s, p);
    } else {
      ReleaseExit(s, p);
    }
  }

  lemma AdvanceStep(s: State, p: nat)
    requires Inv(s) && Enabled(s, p, Advance)
    ensures Inv(Statement(s, p))
  {
    var s' := Statement(s, p);
    forall q | q in s'.procs ensures ProcOk(s', q) {
      StatementKeeps(s, p, q);
    }
    AdvanceGlobals(s, p);
  }

  lemma AdvanceGlobals(s: State, p: nat)
    requires Inv(s) && Enabled(s, p, Advance)
    ensures var s' := Statement(s, p);
            && s'.procs.Keys == s.procs.Keys && (s'.locked <==> s'.owner.Some?)
            && (s'.owner.Some? ==> s'.owner.value in s'.procs) && (s'.inner.Some? ==> s'.inner.value in s'.procs)
            && (s'.pid != 0 ==> s'.pid in s'.procs && (Owns(s'.procs[s'.pid].pc) || s'.procs[s'.pid].pc.R5?))
  {
    AdvanceOwner(s, p);
    AdvancePid(s, p);
  }

  lemma AdvanceOwner(s: State, p: nat)
    requires Inv(s) && Enabled(s, p, Advance)
    ensures var s' := Statement(s, p);
            && s'.procs.Keys == s.procs.Keys && (s'.locked <==> s'.owner.Some?)
            && (s'.owner.Some? ==> s'.owner.value in s'.procs) && (s'.inner.Some? ==> s'.inner.value in s'.procs)
  {
    assert ProcOk(s, p);
  }

  lemma AdvancePid(s: State, p: nat)
    requires Inv(s) && Enabled(s, p, Advance)
    ensures var s' := Statement(s, p);
            s'.pid != 0 ==> s'.pid in s'.procs && (Owns(s'.procs[s'.pid].pc) || s'.procs[s'.pid].pc.R5?)
  {
    assert ProcOk(s, p);
    if s.pid != 0 && s.pid != p {
      assert ProcOk(s, s.pid);
    }
  }

  /** The walk of proc_wakeup: one process after the other. */
  lemma VisitStep(s: State, p: nat, q: nat)
    requires Inv(s) && Enabled(s, p, Visit(q))
    ensures Inv(Next(s, p, Visit(q)))
  {
    var s' := Next(s, p, Visit(q));
    assert ProcOk(s, p) && ProcOk(s, q);
    forall r | r in s'.procs ensures ProcOk(s', r) {
      assert ProcOk(s, r);
    }
  }

  /** Entering the code, and everything other code may do to a process. */
  lemma OtherStep(s: State, p: nat, a: Action)
    requires Inv(s) && Enabled(s, p, a) && !a.Advance? && !a.Visit?
    ensures Inv(Next(s, p, a))
  {
    var s' := Next(s, p, a);
    forall r | r in s'.procs ensures ProcOk(s', r) {
      if a.Acquire? || a.Release? {
        EnterKeeps(s, p, a, r);
      } else {
        OutsideKeeps(s, p, a, r);
      }
    }
    OtherGlobals(s, p, a);
  }

  lemma EnterKeeps(s: State, p: nat, a: Action, r: nat)
    requires Inv(s) && Enabled(s, p, a) && (a.Acquire? || a.Release?) && r in s.procs
    ensures ProcOk(Next(s, p, a), r)
  {
    assert ProcOk(s, p) && ProcOk(s, r);
  }

  lemma OutsideKeeps(s: State, p: nat, a: Action, r: nat)
    requires Inv(s) && Enabled(s, p, a) && (a.Nap? || a.Wake? || a.Schedule?) && r in s.procs
    ensures ProcOk(Next(s, p, a), r)
  {
    assert ProcOk(s, p) && ProcOk(s, r);
  }

  /** These steps change nothing but the process itself, and not whether it owns the lock. */
  lemma OtherGlobals(s: State, p: nat, a: Action)
    requires Inv(s) && Enabled(s, p, a) && !a.Advance? && !a.Visit?
    ensures var s' := Next(s, p, a);
            && s'.procs.Keys == s.procs.Keys && s'.locked == s.locked && s'.owner == s.owner && s'.inner == s.inner
            && s'.manager == s.manager && s'.pid == s.pid
            && (forall q | q in s.procs :: Owns(s'.procs[q].pc) == Owns(s.procs[q].pc))
            && (forall q | q in s.procs :: s'.procs[q].pc.R5? == s.procs[q].pc.R5?)
  {
  }

  lemma StepInv(s: State, p: nat, a: Action)
    requires Inv(s) && Enabled(s, p, a)
    ensures Inv(Next(s, p, a))
  {
    match a
    case Advance => AdvanceStep(s, p);
    case Visit(q) => VisitStep(s, p, q);
    case _ => OtherStep(s, p, a);
  }

  // ------------------------------------------------------------------ runs

  datatype Event = Event(p: nat, a: Action)

  /** Any interleaving. */
  ghost predicate Run(ss: seq<State>, es: seq<Event>) {
    && |ss| == |es| + 1 && Init(ss[0])
    && forall i | 0 <= i < |es| :: Enabled(ss[i], es[i].p, es[i].a) && ss[i + 1] == Next(ss[i], es[i].p, es[i].a)
  }

  lemma {:induction false} RunInv(ss: seq<State>, es: seq<Event>, i: nat)
    requires Run(ss, es) && i < |ss|
    ensures Inv(ss[i])
  {
    if i == 0 {
      InitInv(ss[0]);
    } else {
      RunInv(ss, es, i - 1);
      StepInv(ss[i - 1], es[i - 1].p, es[i - 1].a);
    }
  }

  /** The sleeplock belongs to `p`: from its last write in acquire to the clearing of `locked` in release. */
  predicate Has(s: State, p: nat) {
    p in s.procs && Owns(s.procs[p].pc) && !s.procs[p].pc.A3?
  }

  /** Mutual exclusion over all interleavings: at most one process has the lock, the fields name
      it, and `locked && pid == p`, which is_holding_sleeplock tests, holds for it alone. */
  lemma MutualExclusion(ss: seq<State>, es: seq<Event>, i: nat, p: nat)
    requires Run(ss, es) && i < |ss| && p != 0
    ensures var s := ss[i];
            && (Has(s, p) <==> s.locked && s.pid == p)
            && (forall q | Has(s, p) && Has(s, q) :: q == p)
            && (Has(s, p) ==> s.owner == Some(p))
  {
    RunInv(ss, es, i);
    var s := ss[i];
    forall q | q in s.procs ensures ProcOk(s, q) {}
  }

  /** No wakeup is lost: while the lock is free nobody sleeps on it or is on the way there. */
  lemma NoLostWakeup(ss: seq<State>, es: seq<Event>, i: nat, p: nat)
    requires Run(ss, es) && i < |ss| && p in ss[i].procs && Waiting(ss[i].procs[p])
    ensures ss[i].locked && ss[i].owner.Some? && ss[i].owner.value in ss[i].procs && ss[i].owner.value != p
    ensures Owns(ss[i].procs[ss[i].owner.value].pc)
  {
    RunInv(ss, es, i);
    var s := ss[i];
    assert ProcOk(s, p) && ProcOk(s, s.owner.value);
  }

  /** When a release clears `locked`, every process that is off its hart on this channel can run. */
  lemma ReleaseWakesAll(ss: seq<State>, es: seq<Event>, i: nat, p: nat)
    requires Run(ss, es) && i < |es| && es[i].a.Advance? && ss[i].procs[es[i].p].pc.R4?
    requires p in ss[i + 1].procs && ss[i + 1].procs[p].pc.Off?
    ensures !ss[i + 1].procs[p].run.Sleeping?
  {
    RunInv(ss, es, i + 1);
    assert ProcOk(ss[i + 1], p);
  }
}
