/** sleeplock_release of kernel/sleeplock.c does not test who holds the lock: what one release by
    another process leads to. */
module SleeplockForeign {
  import opened Types
  import opened Sleeplock

  /** The steps of the source: a release may begin in any process that is outside the sleeplock code. */
  predicate MayStep(s: State, p: nat, a: Action) {
    Enabled(s, p, a) || (p in s.procs && a.Release? && s.procs[p].pc.Out? && s.procs[p].run.Running?)
  }

  function Then(s: State, p: nat, a: Action): State
    requires MayStep(s, p, a)
  {
    if Enabled(s, p, a) then Next(s, p, a) else At(s, p, R0)
  }

  ghost predicate Trace(ss: seq<State>, es: seq<Event>) {
    |ss| == |es| + 1 && forall i | 0 <= i < |es| :: IsStep(ss[i], es[i], ss[i + 1])
  }

  ghost predicate IsStep(s: State, e: Event, t: State) {
    MayStep(s, e.p, e.a) && t == Then(s, e.p, e.a)
  }

  /** One more step. */
  lemma Go(ss: seq<State>, es: seq<Event>, p: nat, a: Action) returns (ss': seq<State>, es': seq<Event>)
    requires Trace(ss, es) && MayStep(ss[|es|], p, a)
    ensures Trace(ss', es') && ss'[0] == ss[0] && ss'[|es'|] == Then(ss[|es|], p, a)
  {
    ss', es' := ss + [Then(ss[|es|], p, a)], es + [Event(p, a)];
    forall i | 0 <= i < |es'| ensures IsStep(ss'[i], es'[i], ss'[i + 1]) {
      assert i < |es| ==> IsStep(ss[i], es[i], ss[i + 1]);
    }
  }

  /** All processes but `p` stand where they stood. */
  ghost predicate OthersStay(s: State, t: State, p: nat) {
    t.procs.Keys == s.procs.Keys && forall q | q in s.procs && q != p :: t.procs[q].pc == s.procs[q].pc
  }

  /** A running process outside the sleeplock code, with both spinlocks free. */
  ghost predicate Ready(s: State, p: nat) {
    p in s.procs && s.procs[p].pc.Out? && s.procs[p].run.Running? && s.inner.None? && s.manager.None?
  }

  /** The walk of proc_wakeup over the processes still to be visited. */
  lemma {:induction false} Walk(ss: seq<State>, es: seq<Event>, p: nat) returns (ss': seq<State>, es': seq<Event>)
    requires Trace(ss, es) && p in ss[|es|].procs && ss[|es|].procs[p].pc.R2? && ss[|es|].procs[p].run.Running?
    requires ss[|es|].procs[p].pc.todo <= ss[|es|].procs.Keys
    ensures Trace(ss', es') && ss'[0] == ss[0]
    ensures var s, t := ss[|es|], ss'[|es'|];
            && p in t.procs && t.procs[p].pc == R2({}) && t.procs[p].run.Running? && OthersStay(s, t, p)
    decreases ss[|es|].procs[p].pc.todo
  {
    ss', es' := ss, es;
    var todo := ss[|es|].procs[p].pc.todo;
    if todo != {} {
      var q :| q in todo;
      ss', es' := Go(ss, es, p, Visit(q));
      ss', es' := Walk(ss', es', p);
    }
  }

  /** A release by `p`, up to the walk. */
  lemma Enters(ss: seq<State>, es: seq<Event>, p: nat) returns (ss': seq<State>, es': seq<Event>)
    requires Trace(ss, es) && Ready(ss[|es|], p)
    ensures Trace(ss', es') && ss'[0] == ss[0]
    ensures var s, t := ss[|es|], ss'[|es'|];
            && p in t.procs && t.procs[p].pc.R2? && t.procs[p].pc.todo <= t.procs.Keys
            && t.procs[p].run.Running? && OthersStay(s, t, p)
  {
    ss', es' := Go(ss, es, p, Release);
    ss', es' := Go(ss', es', p, Advance);
    ss', es' := Go(ss', es', p, Advance);
  }

  /** `locked` is cleared. */
  lemma Clears(ss: seq<State>, es: seq<Event>, p: nat) returns (ss': seq<State>, es': seq<Event>)
    requires Trace(ss, es) && p in ss[|es|].procs && ss[|es|].procs[p].pc == R2({}) && ss[|es|].procs[p].run.Running?
    ensures Trace(ss', es') && ss'[0] == ss[0]
    ensures var s, t := ss[|es|], ss'[|es'|];
            && p in t.procs && t.procs[p].pc == R5 && t.procs[p].run.Running? && OthersStay(s, t, p)
            && t.manager == None && !t.locked
  {
    ss', es' := Go(ss, es, p, Advance);
    ss', es' := Go(ss', es', p, Advance);
    ss', es' := Go(ss', es', p, Advance);
  }

  /** The rest of it. */
  lemma Leaves(ss: seq<State>, es: seq<Event>, p: nat) returns (ss': seq<State>, es': seq<Event>)
    requires Trace(ss, es) && p in ss[|es|].procs && ss[|es|].procs[p].pc == R5 && ss[|es|].procs[p].run.Running?
    requires ss[|es|].manager == None && !ss[|es|].locked
    ensures Trace(ss', es') && ss'[0] == ss[0]
    ensures Ready(ss'[|es'|], p) && OthersStay(ss[|es|], ss'[|es'|], p) && !ss'[|es'|].locked
  {
    ss', es' := Go(ss, es, p, Advance);
    ss', es' := Go(ss', es', p, Advance);
  }

  lemma Releases(ss: seq<State>, es: seq<Event>, p: nat) returns (ss': seq<State>, es': seq<Event>)
    requires Trace(ss, es) && Ready(ss[|es|], p)
    ensures Trace(ss', es') && ss'[0] == ss[0]
    ensures Ready(ss'[|es'|], p) && OthersStay(ss[|es|], ss'[|es'|], p) && !ss'[|es'|].locked
  {
    ss', es' := Enters(ss, es, p);
    ss', es' := Walk(ss', es', p);
    ss', es' := Clears(ss', es', p);
    ss', es' := Leaves(ss', es', p);
  }

  /** An acquire of the free lock by `p`. */
  lemma Acquires(ss: seq<State>, es: seq<Event>, p: nat) returns (ss': seq<State>, es': seq<Event>)
    requires Trace(ss, es) && Ready(ss[|es|], p) && !ss[|es|].locked
    ensures Trace(ss', es') && ss'[0] == ss[0]
    ensures p in ss'[|es'|].procs && ss'[|es'|].procs[p].pc.Hold? && OthersStay(ss[|es|], ss'[|es'|], p)
  {
    ss', es' := Go(ss, es, p, Acquire);
    ss', es' := Go(ss', es', p, Advance);
    ss', es' := Go(ss', es', p, Advance);
    ss', es' := Go(ss', es', p, Advance);
    ss', es' := Go(ss', es', p, Advance);
    ss', es' := Go(ss', es', p, Advance);
  }

  /** From every state in which `h` holds the lock and `p` is idle, one release by `p` and one acquire
      lead to a state in which both hold it. */
  lemma ForeignRelease(s: State, h: nat, p: nat) returns (ss: seq<State>, es: seq<Event>)
    requires h in s.procs && s.procs[h].pc.Hold? && Ready(s, p)
    ensures Trace(ss, es) && ss[0] == s && Has(ss[|es|], h) && Has(ss[|es|], p) && h != p
  {
    ss, es := [s], [];
    ss, es := Releases(ss, es, p);
    ss, es := Acquires(ss, es, p);
  }
}
