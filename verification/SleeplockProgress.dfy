/** What the calls of kernel/sleeplock.c achieve: a process that finds the lock free holds it, and a release leaves it
    free, whatever the other processes do in between. */
module SleeplockProgress {
  import opened Types
  import opened Sleeplock
  import opened SleeplockWakes

  /** Step `j` is the first one of process `p` behind step `i`. */
  ghost predicate NextOwn(es: seq<Event>, i: nat, j: nat, p: nat) {
    i < j < |es| && es[j].p == p && forall k | i < k < j :: es[k].p != p
  }

  lemma InnerHeld(ss: seq<State>, es: seq<Event>, i: nat, q: nat)
    requires Run(ss, es) && i < |ss| && q in ss[i].procs
    ensures HoldsInner(ss[i].procs[q].pc) <==> ss[i].inner == Some(q)
  {
    RunInv(ss, es, i);
    assert ProcOk(ss[i], q);
  }

  /** The fields of the lock change only under the inner lock. */
  lemma FieldsStay(s: State, e: Event, t: State)
    requires IsStep(s, e, t) && !HoldsInner(s.procs[e.p].pc)
    ensures t.locked == s.locked && t.pid == s.pid
  {
  }

  lemma StayOne(ss: seq<State>, es: seq<Event>, i: nat, p: nat)
    requires Run(ss, es) && i < |es| && es[i].p != p && p in ss[i].procs && HoldsInner(ss[i].procs[p].pc)
    requires ss[i].procs[p].run == Running
    ensures p in ss[i + 1].procs && ss[i + 1].procs[p] == ss[i].procs[p]
    ensures ss[i + 1].locked == ss[i].locked && ss[i + 1].pid == ss[i].pid
  {
    StepOf(ss, es, i);
    StepBeside(ss[i], es[i], ss[i + 1], p);
    InnerHeld(ss, es, i, p);
    InnerHeld(ss, es, i, es[i].p);
    FieldsStay(ss[i], es[i], ss[i + 1]);
  }

  /** Between the steps of a process that holds the inner lock neither the process nor the lock changes. */
  lemma {:induction false} Stays(ss: seq<State>, es: seq<Event>, i: nat, j: nat, p: nat)
    requires Run(ss, es) && i <= j < |ss| && p in ss[i].procs && forall k | i <= k < j :: es[k].p != p
    requires HoldsInner(ss[i].procs[p].pc) && ss[i].procs[p].run == Running
    ensures p in ss[j].procs && ss[j].procs[p] == ss[i].procs[p]
    ensures ss[j].locked == ss[i].locked && ss[j].pid == ss[i].pid
    decreases j
  {
    if i < j {
      Stays(ss, es, i, j - 1, p);
      StayOne(ss, es, j - 1, p);
    }
  }

  /** A step of a running process inside the sleeplock code that is not in a walk. */
  lemma OwnStatement(s: State, p: nat, e: Event, t: State)
    requires IsStep(s, e, t) && e.p == p && s.procs[p].run == Running
    requires !s.procs[p].pc.Out? && !s.procs[p].pc.Hold? && !s.procs[p].pc.R2?
    ensures e.a == Advance && t == Statement(s, p)
  {
  }

  /** From one own step to the next, under the inner lock. */
  lemma Onward(ss: seq<State>, es: seq<Event>, i: nat, j: nat, p: nat)
    requires Run(ss, es) && NextOwn(es, i, j, p) && p in ss[i + 1].procs
    requires HoldsInner(ss[i + 1].procs[p].pc) && !ss[i + 1].procs[p].pc.R2? && ss[i + 1].procs[p].run == Running
    ensures p in ss[j].procs && ss[j].procs[p] == ss[i + 1].procs[p]
    ensures ss[j].locked == ss[i + 1].locked && ss[j].pid == ss[i + 1].pid
    ensures ss[j + 1] == Statement(ss[j], p)
  {
    Stays(ss, es, i + 1, j, p);
    StepOf(ss, es, j);
    OwnStatement(ss[j], p, es[j], ss[j + 1]);
  }

  /** sleeplock_acquire: a process that finds the lock free under the inner lock holds it after three more steps of
      its own, and the lock names it. */
  lemma FreeLockTaken(ss: seq<State>, es: seq<Event>, i: nat, j: nat, k: nat, m: nat, p: nat)
    requires Run(ss, es) && i < |es| && es[i].p == p && p in ss[i].procs && ss[i].procs[p].pc.A1?
    requires ss[i].procs[p].run == Running && !ss[i].locked
    requires NextOwn(es, i, j, p) && NextOwn(es, j, k, p) && NextOwn(es, k, m, p)
    ensures p in ss[m + 1].procs && ss[m + 1].procs[p].pc.Hold? && ss[m + 1].locked && ss[m + 1].pid == p
  {
    StepOf(ss, es, i);
    OwnStatement(ss[i], p, es[i], ss[i + 1]);
    Onward(ss, es, i, j, p);
    Onward(ss, es, j, k, p);
    Onward(ss, es, k, m, p);
  }

  /** sleeplock_release behind the wakeup: three more steps of its own and the lock is free and names no one. */
  lemma ReleaseFrees(ss: seq<State>, es: seq<Event>, i: nat, j: nat, k: nat, m: nat, p: nat)
    requires Run(ss, es) && i < |es| && es[i].p == p && p in ss[i].procs && ss[i].procs[p].pc.R3?
    requires ss[i].procs[p].run == Running
    requires NextOwn(es, i, j, p) && NextOwn(es, j, k, p) && NextOwn(es, k, m, p)
    ensures p in ss[m + 1].procs && ss[m + 1].procs[p].pc.Out? && ss[m + 1].inner.None?
    ensures !ss[m + 1].locked && ss[m + 1].pid == 0
  {
    StepOf(ss, es, i);
    OwnStatement(ss[i], p, es[i], ss[i + 1]);
    Onward(ss, es, i, j, p);
    Onward(ss, es, j, k, p);
    Onward(ss, es, k, m, p);
  }
}
