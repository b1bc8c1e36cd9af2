/** What proc_wakeup of kernel/proc/proc.c wakes on behalf of sleeplock_release, and what it leaves asleep. */
module SleeplockWakes {
  import opened Types
  import opened Sleeplock

  /** The process sleeps on the channel of this lock. */
  predicate Asleep(x: Proc) {
    x.run == Sleeping && x.chan == OnLock
  }

  ghost predicate IsStep(s: State, e: Event, t: State) {
    Enabled(s, e.p, e.a) && t == Next(s, e.p, e.a)
  }

  lemma StepOf(ss: seq<State>, es: seq<Event>, i: nat)
    requires Run(ss, es) && i < |es|
    ensures IsStep(ss[i], es[i], ss[i + 1])
  {
    assert Enabled(ss[i], es[i].p, es[i].a) && ss[i + 1] == Next(ss[i], es[i].p, es[i].a);
  }

  /** A step of another process changes nothing of `r`, except that a visit of the walk makes it runnable if it
      slept on this lock's channel. */
  lemma StepBeside(s: State, e: Event, t: State, r: nat)
    requires IsStep(s, e, t) && r in s.procs && e.p != r
    ensures r in t.procs
    ensures var x, x' := s.procs[r], t.procs[r];
            if e.a == Visit(r) && Asleep(x) then x' == Proc(x.pc, Runnable, OnLock) else x' == x
  {
    if e.a.Advance? {
      StatementFrame(s, e.p, r);
    }
  }

  lemma StatementFrame(s: State, p: nat, r: nat)
    requires p in s.procs && r in s.procs && p != r
    ensures r in Statement(s, p).procs && Statement(s, p).procs[r] == s.procs[r]
  {
  }

  /** This in every run. */
  lemma OnlySleepersWake(ss: seq<State>, es: seq<Event>, i: nat, r: nat)
    requires Run(ss, es) && i < |es| && r in ss[i].procs && es[i].p != r
    ensures r in ss[i + 1].procs
    ensures var x, x' := ss[i].procs[r], ss[i + 1].procs[r];
            if es[i].a == Visit(r) && Asleep(x) then x' == Proc(x.pc, Runnable, OnLock) else x' == x
  {
    StepOf(ss, es, i);
    StepBeside(ss[i], es[i], ss[i + 1], r);
  }

  /** Without the manager's lock a process neither changes what it sleeps on nor whether it sleeps. */
  lemma OwnStep(s: State, r: nat, a: Action, t: State)
    requires IsStep(s, Event(r, a), t) && s.manager.Some? && !HoldsManager(s.procs[r].pc)
    ensures r in t.procs && t.procs[r].chan == s.procs[r].chan && t.procs[r].run == s.procs[r].run
  {
  }

  /** The walking process itself. */
  lemma OwnVisit(s: State, p: nat, a: Action, t: State)
    requires IsStep(s, Event(p, a), t) && s.manager.Some? && s.procs[p].pc.R2? && p in t.procs && t.procs[p].pc.R2?
    ensures a.Visit? && t.procs[p].pc.todo == s.procs[p].pc.todo - {a.q}
    ensures t.procs[p].chan == s.procs[p].chan && t.procs[p].run == s.procs[p].run == Running
  {
  }

  /** While `p` walks over the processes it holds the manager's lock: only its own visits change what any process
      sleeps on or whether it sleeps. */
  lemma WalkStep(s: State, e: Event, s': State, p: nat, r: nat)
    requires IsStep(s, e, s')
    requires s.manager == Some(p) && (HoldsManager(s.procs[e.p].pc) <==> s.manager == Some(e.p))
    requires p in s.procs && r in s.procs && s.procs[p].pc.R2? && p in s'.procs && s'.procs[p].pc.R2?
    ensures r in s'.procs && s'.procs[r].chan == s.procs[r].chan
    ensures s'.procs[r].run == if e == Event(p, Visit(r)) && Asleep(s.procs[r]) then Runnable else s.procs[r].run
    ensures s'.procs[p].pc.todo ==
            if e.p == p && e.a.Visit? then s.procs[p].pc.todo - {e.a.q} else s.procs[p].pc.todo
  {
    if e.p == p {
      OwnVisit(s, p, e.a, s');
    } else {
      StepBeside(s, e, s', p);
    }
    if e.p != r {
      StepBeside(s, e, s', r);
      assert e.a == Visit(r) ==> s.procs[e.p].pc.R2?;
    } else if r != p {
      OwnStep(s, r, e.a, s');
    }
  }

  lemma Managed(ss: seq<State>, es: seq<Event>, i: nat, q: nat)
    requires Run(ss, es) && i < |ss| && q in ss[i].procs
    ensures HoldsManager(ss[i].procs[q].pc) <==> ss[i].manager == Some(q)
  {
    RunInv(ss, es, i);
    assert ProcOk(ss[i], q);
  }

  /** The walk of `p` goes on from the state `i + 1`, where it begins, up to the state `j`, where it ends. */
  ghost predicate Walks(ss: seq<State>, es: seq<Event>, i: nat, j: nat, p: nat) {
    && Run(ss, es) && i < j < |es| && es[i] == Event(p, Advance) && es[j] == Event(p, Advance)
    && p in ss[i].procs && ss[i].procs[p].pc.R1?
    && forall k | i < k <= j :: p in ss[k].procs && ss[k].procs[p].pc.R2?
  }

  /** What the walk has done to `r` so far: woken it if it was asleep on the channel and has been visited. */
  ghost predicate WokenSoFar(s: State, t: State, p: nat, r: nat) {
    && r in s.procs && r in t.procs && p in t.procs && t.procs[p].pc.R2?
    && t.procs[r].chan == s.procs[r].chan
    && t.procs[r].run == if r !in t.procs[p].pc.todo && Asleep(s.procs[r]) then Runnable else s.procs[r].run
  }

  lemma WalkBegins(s: State, t: State, p: nat, r: nat)
    requires IsStep(s, Event(p, Advance), t) && s.procs[p].pc.R1? && r in s.procs
    ensures WokenSoFar(s, t, p, r)
  {
  }

  lemma WalkGoesOn(s: State, t: State, e: Event, t': State, p: nat, r: nat)
    requires t.manager == Some(p) && e.p in t.procs && (HoldsManager(t.procs[e.p].pc) <==> t.manager == Some(e.p))
    requires IsStep(t, e, t') && WokenSoFar(s, t, p, r) && p in t'.procs && t'.procs[p].pc.R2?
    ensures WokenSoFar(s, t', p, r)
  {
    WalkStep(t, e, t', p, r);
  }

  lemma WalkNext(ss: seq<State>, es: seq<Event>, s: State, k: nat, p: nat, r: nat)
    requires Run(ss, es) && k < |es| && WokenSoFar(s, ss[k], p, r) && p in ss[k + 1].procs && ss[k + 1].procs[p].pc.R2?
    ensures WokenSoFar(s, ss[k + 1], p, r)
  {
    StepOf(ss, es, k);
    Managed(ss, es, k, p);
    Managed(ss, es, k, es[k].p);
    WalkGoesOn(s, ss[k], es[k], ss[k + 1], p, r);
  }

  lemma {:induction false} WalkSoFar(ss: seq<State>, es: seq<Event>, i: nat, j: nat, k: nat, p: nat, r: nat)
    requires Walks(ss, es, i, j, p) && i < k <= j && r in ss[i].procs
    ensures WokenSoFar(ss[i], ss[k], p, r)
    decreases k
  {
    if k == i + 1 {
      StepOf(ss, es, i);
      WalkBegins(ss[i], ss[k], p, r);
    } else {
      WalkSoFar(ss, es, i, j, k - 1, p, r);
      WalkNext(ss, es, ss[i], k - 1, p, r);
    }
  }

  /** In every run, the walk of a release makes runnable exactly the processes that slept on this lock's channel
      when it began; for every other process it changes nothing. */
  lemma ReleaseWakesExactly(ss: seq<State>, es: seq<Event>, i: nat, j: nat, p: nat, r: nat)
    requires Walks(ss, es, i, j, p) && r in ss[i].procs
    ensures r in ss[j + 1].procs && ss[j + 1].procs[r].chan == ss[i].procs[r].chan
    ensures ss[j + 1].procs[r].run == if Asleep(ss[i].procs[r]) then Runnable else ss[i].procs[r].run
  {
    WalkSoFar(ss, es, i, j, j, p, r);
    StepOf(ss, es, j);
  }

  /** So a process that sleeps on another channel sleeps on. */
  lemma OthersSleepOn(ss: seq<State>, es: seq<Event>, i: nat, j: nat, p: nat, r: nat)
    requires Walks(ss, es, i, j, p) && r in ss[i].procs
    requires ss[i].procs[r].run == Sleeping && ss[i].procs[r].chan == Elsewhere
    ensures r in ss[j + 1].procs && ss[j + 1].procs[r].run == Sleeping
  {
    ReleaseWakesExactly(ss, es, i, j, p, r);
  }
}
