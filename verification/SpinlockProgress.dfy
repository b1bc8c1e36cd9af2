/** What the calls of kernel/spinlock.c achieve: a hart that finds a lock free gets it, and an owner that gives it
    back leaves it free, whatever the other harts do in between. */
module SpinlockProgress {
  import opened Types
  import opened Spinlock

  ghost predicate IsStep(s: State, e: Event, t: State) {
    Enabled(s, e.h, e.a) && t == Next(s, e.h, e.a)
  }

  lemma StepOf(ss: seq<State>, es: seq<Event>, i: nat)
    requires Run(ss, es) && i < |es|
    ensures IsStep(ss[i], es[i], ss[i + 1])
  {
    assert Enabled(ss[i], es[i].h, es[i].a) && ss[i + 1] == Next(ss[i], es[i].h, es[i].a);
  }

  /** Step `j` is the first one of hart `h` behind step `i`. */
  ghost predicate NextOwn(es: seq<Event>, i: nat, j: nat, h: nat) {
    i < j < |es| && es[j].h == h && forall k | i < k < j :: es[k].h != h
  }

  lemma OtherStep(s: State, e: Event, t: State, h: nat)
    requires IsStep(s, e, t) && e.h != h && h in s.harts
    ensures h in t.harts && t.harts[h] == s.harts[h]
  {
  }

  /** Between its own steps a hart stays where it is. */
  lemma {:induction false} HartStays(ss: seq<State>, es: seq<Event>, i: nat, j: nat, h: nat)
    requires Run(ss, es) && i <= j < |ss| && h in ss[i].harts && forall k | i <= k < j :: es[k].h != h
    ensures h in ss[j].harts && ss[j].harts[h] == ss[i].harts[h]
    decreases j
  {
    if i < j {
      HartStays(ss, es, i, j - 1, h);
      StepOf(ss, es, j - 1);
      OtherStep(ss[j - 1], es[j - 1], ss[j], h);
    }
  }

  /** What the lock shows of its owner. */
  lemma OwnLockShows(ss: seq<State>, es: seq<Event>, i: nat, h: nat, l: nat)
    requires Run(ss, es) && i < |ss| && h in ss[i].harts && l in ss[i].harts[h].owns
    ensures l in ss[i].locks && ss[i].locks[l].locked
    ensures ss[i].locks[l].hart == if Unnamed(ss[i].harts[h].pc, l) then None else Some(h)
  {
    RunInv(ss, es, i);
    assert HartOk(ss[i], h) && LockOk(ss[i], l, h);
  }

  /** spinlock_acquire: a hart that tests a free lock owns it, and its next step names it in the lock. */
  lemma FreeLockTaken(ss: seq<State>, es: seq<Event>, i: nat, j: nat, h: nat, l: nat)
    requires Run(ss, es) && NextOwn(es, i, j, h) && es[i] == Event(h, TestAndSet)
    requires h in ss[i].harts && ss[i].harts[h].pc == Spinning(l) && l in ss[i].locks && !ss[i].locks[l].locked
    ensures es[j].a == SetHart && h in ss[i + 1].harts && l in ss[i + 1].harts[h].owns
    ensures l in ss[j + 1].locks && ss[j + 1].locks[l] == Lock(true, Some(h))
    ensures h in ss[j + 1].harts && ss[j + 1].harts[h].pc == Idle && l in ss[j + 1].harts[h].owns
  {
    StepOf(ss, es, i);
    HartStays(ss, es, i + 1, j, h);
    StepOf(ss, es, j);
    OwnLockShows(ss, es, j, h, l);
  }

  /** A hart that tests a lock in use changes nothing and tests again. */
  lemma UsedLockAwaited(ss: seq<State>, es: seq<Event>, i: nat, j: nat, h: nat, l: nat)
    requires Run(ss, es) && NextOwn(es, i, j, h) && es[i] == Event(h, TestAndSet)
    requires h in ss[i].harts && ss[i].harts[h].pc == Spinning(l) && l in ss[i].locks && ss[i].locks[l].locked
    ensures ss[i + 1] == ss[i] && es[j].a == TestAndSet
  {
    StepOf(ss, es, i);
    HartStays(ss, es, i + 1, j, h);
    StepOf(ss, es, j);
  }

  /** One own step later. */
  lemma Onward(ss: seq<State>, es: seq<Event>, i: nat, j: nat, h: nat)
    requires Run(ss, es) && NextOwn(es, i, j, h) && h in ss[i + 1].harts
    ensures h in ss[j].harts && ss[j].harts[h] == ss[i + 1].harts[h]
    ensures Enabled(ss[j], h, es[j].a) && ss[j + 1] == Next(ss[j], h, es[j].a)
  {
    HartStays(ss, es, i + 1, j, h);
    StepOf(ss, es, j);
  }

  /** spinlock_release: the owner reads, clears the name, clears the lock and pops, in this order and without a
      panic; with the third step the lock is free. */
  lemma OwnerReleases(ss: seq<State>, es: seq<Event>, i: nat, j: nat, k: nat, m: nat, n: nat, h: nat, l: nat)
    requires Run(ss, es) && i < |es| && es[i] == Event(h, TryRelease(l)) && h in ss[i].harts && l in ss[i].harts[h].owns
    requires NextOwn(es, i, j, h) && NextOwn(es, j, k, h) && NextOwn(es, k, m, h) && NextOwn(es, m, n, h)
    ensures es[j].a == ConfirmLocked && es[k].a == ClearHart && es[m].a == Unlock && es[n].a == Pop
    ensures l in ss[m + 1].locks && ss[m + 1].locks[l] == Lock(false, None)
    ensures h in ss[n + 1].harts && ss[n + 1].harts[h].pc == Idle && l !in ss[n + 1].harts[h].owns
  {
    ReleaseBegins(ss, es, i, j, h, l);
    ReleaseClears(ss, es, j, k, m, h, l);
    Onward(ss, es, m, n, h);
    RunInv(ss, es, n);
    assert HartOk(ss[n], h);
  }

  lemma ReleaseBegins(ss: seq<State>, es: seq<Event>, i: nat, j: nat, h: nat, l: nat)
    requires Run(ss, es) && i < |es| && es[i] == Event(h, TryRelease(l)) && h in ss[i].harts && l in ss[i].harts[h].owns
    requires NextOwn(es, i, j, h)
    ensures es[j].a == ConfirmLocked && h in ss[j + 1].harts && ss[j + 1].harts[h].pc == Held(l)
    ensures l in ss[j + 1].harts[h].owns
  {
    StepOf(ss, es, i);
    OwnLockShows(ss, es, i, h, l);
    Onward(ss, es, i, j, h);
    OwnLockShows(ss, es, j, h, l);
  }

  lemma ReleaseClears(ss: seq<State>, es: seq<Event>, j: nat, k: nat, m: nat, h: nat, l: nat)
    requires Run(ss, es) && NextOwn(es, j, k, h) && NextOwn(es, k, m, h)
    requires h in ss[j + 1].harts && ss[j + 1].harts[h].pc == Held(l) && l in ss[j + 1].harts[h].owns
    ensures es[k].a == ClearHart && es[m].a == Unlock
    ensures l in ss[m + 1].locks && ss[m + 1].locks[l] == Lock(false, None)
    ensures h in ss[m + 1].harts && ss[m + 1].harts[h].pc == Unlocked && l !in ss[m + 1].harts[h].owns
  {
    Onward(ss, es, j, k, h);
    Onward(ss, es, k, m, h);
    OwnLockShows(ss, es, m, h, l);
  }
}
