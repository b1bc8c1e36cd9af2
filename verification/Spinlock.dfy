/** Spinlocks and the interrupt push-off depth: kernel/spinlock.c and kernel/asm/hart.c, as a
    step system over any number of harts and locks. One step is one access to a field of a lock,
    in a sequentially consistent order. */
module Spinlock {
  import opened Types

  /** Where a hart stands: inside spinlock_acquire, inside spinlock_release, or in neither. */
  datatype Pc =
    | Idle
    | Pushed(l: nat)    // acquire: pushoff_hart done
    | Named(l: nat)     // acquire: `hart` names this hart, `locked` not yet read
    | Spinning(l: nat)  // acquire: not held by this hart, testing and setting
    | Got(l: nat)       // acquire: `locked` set, `hart` not yet written
    | Asked(l: nat)     // release: `hart` names this hart, `locked` not yet read
    | Held(l: nat)      // release: found to be the holder
    | Cleared(l: nat)   // release: `hart` cleared
    | Unlocked          // release: `locked` cleared, popoff_hart to come
    | Panicked(why: Reason)

  datatype Reason = AcquireHeld(held: nat) | ReleaseNotHeld(free: nat) | PopEnabled | PopUnmatched

  /** `dep`, `saved` and `enabled` are trap_pushoff_dep, trap_enabled and the interrupt flag.
      `owns` and `outer` are history: the locks the hart took and has not given back, and the
      interrupt flag it last chose itself outside all critical sections. */
  datatype Hart = Hart(pc: Pc, dep: int, saved: bool, enabled: bool, owns: set<nat>, outer: bool)

  datatype Lock = Lock(locked: bool, hart: Option<nat>)

  datatype State = State(harts: map<nat, Hart>, locks: map<nat, Lock>)

  datatype Action =
    | Push(lock: nat) | ReadHart | ReadLocked | TestAndSet | SetHart
    | TryRelease(lock: nat) | ConfirmLocked | ClearHart | Unlock | Pop
    | Choose(on: bool)

  /** is_holding_spinlock, asked by hart `h`: what its two reads find if nothing comes between. */
  predicate IsHolding(s: State, h: nat, l: nat)
    requires l in s.locks
  {
    s.locks[l].hart == Some(h) && s.locks[l].locked
  }

  /** pushoff_hart */
  function PushOff(x: Hart): Hart {
    x.(enabled := false, saved := if x.dep == 0 then x.enabled else x.saved, dep := x.dep + 1)
  }

  /** popoff_hart */
  function PopOff(x: Hart): Hart {
    if x.enabled then x.(pc := Panicked(PopEnabled))
    else if x.dep < 1 then x.(pc := Panicked(PopUnmatched))
    else x.(pc := Idle, dep := x.dep - 1, enabled := x.dep == 1 && x.saved)
  }

  function WithHart(s: State, h: nat, x: Hart): State {
    s.(harts := s.harts[h := x])
  }

  function WithLock(s: State, l: nat, k: Lock): State {
    s.(locks := s.locks[l := k])
  }

  predicate Enabled(s: State, h: nat, a: Action) {
    h in s.harts &&
    var x := s.harts[h];
    match a
    case Push(l) => x.pc.Idle? && l in s.locks
    case ReadHart => x.pc.Pushed? && x.pc.l in s.locks
    case ReadLocked => x.pc.Named? && x.pc.l in s.locks
    case TestAndSet => x.pc.Spinning? && x.pc.l in s.locks
    case SetHart => x.pc.Got? && x.pc.l in s.locks
    case TryRelease(l) => x.pc.Idle? && l in s.locks
    case ConfirmLocked => x.pc.Asked? && x.pc.l in s.locks
    case ClearHart => x.pc.Held? && x.pc.l in s.locks
    case Unlock => x.pc.Cleared? && x.pc.l in s.locks
    case Pop => x.pc.Unlocked?
    case Choose(_) => x.pc.Idle? && x.dep == 0
  }

  function Next(s: State, h: nat, a: Action): State
    requires Enabled(s, h, a)
  {
    var x := s.harts[h];
    match a
    case Push(l) => WithHart(s, h, PushOff(x).(pc := Pushed(l)))
    case ReadHart =>
      WithHart(s, h, x.(pc := if s.locks[x.pc.l].hart == Some(h) then Named(x.pc.l) else Spinning(x.pc.l)))
    case ReadLocked =>
      WithHart(s, h, x.(pc := if s.locks[x.pc.l].locked then Panicked(AcquireHeld(x.pc.l)) else Spinning(x.pc.l)))
    case TestAndSet =>
      if s.locks[x.pc.l].locked then s
      else WithHart(WithLock(s, x.pc.l, s.locks[x.pc.l].(locked := true)), h,
                    x.(pc := Got(x.pc.l), owns := x.owns + {x.pc.l}))
    case SetHart => WithHart(WithLock(s, x.pc.l, s.locks[x.pc.l].(hart := Some(h))), h, x.(pc := Idle))
    case TryRelease(l) =>
      WithHart(s, h, x.(pc := if s.locks[l].hart == Some(h) then Asked(l) else Panicked(ReleaseNotHeld(l))))
    case ConfirmLocked =>
      WithHart(s, h, x.(pc := if s.locks[x.pc.l].locked then Held(x.pc.l) else Panicked(ReleaseNotHeld(x.pc.l))))
    case ClearHart => WithHart(WithLock(s, x.pc.l, s.locks[x.pc.l].(hart := None)), h, x.(pc := Cleared(x.pc.l)))
    case Unlock =>
      WithHart(WithLock(s, x.pc.l, s.locks[x.pc.l].(locked := false)), h, x.(pc := Unlocked, owns := x.owns - {x.pc.l}))
    case Pop => WithHart(s, h, PopOff(x))
    case Choose(on) => WithHart(s, h, x.(enabled := on, outer := on))
  }

  /** All harts outside critical sections, all locks free. */
  predicate Init(s: State) {
    && (forall h | h in s.harts ::
          && s.harts[h].pc.Idle? && s.harts[h].dep == 0
          && s.harts[h].owns == {} && s.harts[h].outer == s.harts[h].enabled)
    && (forall l | l in s.locks :: s.locks[l] == Lock(false, None))
  }

  // ------------------------------------------------------------------ the invariant

  /** Pushes not yet matched by a lock the hart owns. */
  function Pending(pc: Pc): nat {
    if pc.Pushed? || pc.Named? || pc.Spinning? || pc.Unlocked? then 1 else 0
  }

  /** The lock a hart owns although the lock does not name it. */
  predicate Unnamed(pc: Pc, l: nat) {
    pc == Got(l) || pc == Cleared(l)
  }

  ghost predicate HartOk(s: State, h: nat)
    requires h in s.harts
  {
    var x := s.harts[h];
    && x.owns <= s.locks.Keys
    && (x.pc.Named? || x.pc.Got? || x.pc.Asked? || x.pc.Held? || x.pc.Cleared? ==> x.pc.l in x.owns)
    && (!x.pc.Panicked? ==> x.dep == |x.owns| + Pending(x.pc))
    && (x.pc.Panicked? ==> Justified(s, h, x.pc.why))
    && (if x.dep > 0 then !x.enabled && x.saved == x.outer else x.enabled == x.outer)
  }

  /** A panic means that the hart broke the rules: it asked for a lock it had, or gave back one it had not. */
  ghost predicate Justified(s: State, h: nat, why: Reason)
    requires h in s.harts
  {
    match why
    case AcquireHeld(l) => l in s.harts[h].owns
    case ReleaseNotHeld(l) => l !in s.harts[h].owns
    case PopEnabled => false
    case PopUnmatched => false
  }

  ghost predicate LockOk(s: State, l: nat, h: nat)
    requires l in s.locks && h in s.harts
  {
    if l in s.harts[h].owns then
      s.locks[l].locked && s.locks[l].hart == if Unnamed(s.harts[h].pc, l) then None else Some(h)
    else s.locks[l].hart != Some(h)
  }

  ghost predicate Owned(s: State, l: nat) {
    exists h :: h in s.harts && l in s.harts[h].owns
  }

  ghost predicate Inv(s: State) {
    && (forall h | h in s.harts :: HartOk(s, h))
    && (forall l, h | l in s.locks && h in s.harts :: LockOk(s, l, h))
    && (forall l | l in s.locks :: s.locks[l].locked ==> Owned(s, l))
    && (forall l | l in s.locks :: s.locks[l].hart.Some? ==> s.locks[l].hart.value in s.harts)
    && (forall h, g, l | h in s.harts && g in s.harts && l in s.harts[h].owns && l in s.harts[g].owns :: h == g)
  }

  lemma InitInv(s: State)
    requires Init(s)
    ensures Inv(s)
  {
  }

  predicate IsLocal(a: Action) {
    a.Push? || a.ReadHart? || a.ReadLocked? || a.TryRelease? || a.ConfirmLocked? || a.Pop? || a.Choose?
  }

  /** The local steps change nothing but the hart itself, and not what it owns. */
  lemma LocalHart(s: State, h: nat, a: Action)
    requires Inv(s) && Enabled(s, h, a) && IsLocal(a)
    ensures HartOk(Next(s, h, a), h)
  {
    assert HartOk(s, h);
    if a.ReadHart? || a.ReadLocked? || a.ConfirmLocked? {
      assert LockOk(s, s.harts[h].pc.l, h);
    }
    if a.TryRelease? {
      assert LockOk(s, a.lock, h);
    }
  }

  /** A step of hart `h` that writes at most the lock `k`. */
  ghost predicate Framed(s: State, s': State, h: nat, k: nat) {
    && h in s.harts && s'.harts.Keys == s.harts.Keys && s'.locks.Keys == s.locks.Keys
    && (forall g | g in s.harts && g != h :: s'.harts[g] == s.harts[g])
    && (forall l | l in s.locks && l != k :: s'.locks[l] == s.locks[l])
    && (forall l | l in s.locks && l != k :: l in s'.harts[h].owns <==> l in s.harts[h].owns)
  }

  lemma FramedHarts(s: State, s': State, h: nat, k: nat)
    requires (forall g | g in s.harts :: HartOk(s, g)) && Framed(s, s', h, k) && HartOk(s', h)
    ensures forall g | g in s'.harts :: HartOk(s', g)
  {
    forall g | g in s'.harts ensures HartOk(s', g) {
      assert HartOk(s, g);
    }
  }

  lemma FramedLocks(s: State, s': State, h: nat, k: nat)
    requires (forall l, g | l in s.locks && g in s.harts :: LockOk(s, l, g)) && Framed(s, s', h, k)
    requires forall l | l in s.locks :: LockOk(s', l, h)
    requires forall g | g in s.harts && g != h && k in s.locks :: LockOk(s', k, g)
    ensures forall l, g | l in s'.locks && g in s'.harts :: LockOk(s', l, g)
  {
    forall l, g | l in s'.locks && g in s'.harts ensures LockOk(s', l, g) {
      assert LockOk(s, l, g);
    }
  }

  lemma FramedOwned(s: State, s': State, h: nat, k: nat)
    requires (forall l | l in s.locks :: s.locks[l].locked ==> Owned(s, l)) && Framed(s, s', h, k)
    requires k in s.locks && s'.locks[k].locked ==> Owned(s', k)
    ensures forall l | l in s'.locks && s'.locks[l].locked :: Owned(s', l)
  {
    forall l | l in s'.locks && s'.locks[l].locked ensures Owned(s', l) {
      if l != k {
        var g :| g in s.harts && l in s.harts[g].owns;
        assert l in s'.harts[g].owns;
      }
    }
  }

  /** Names are those of harts, and no lock has two owners. */
  lemma FramedNames(s: State, s': State, h: nat, k: nat)
    requires Inv(s) && Framed(s, s', h, k)
    requires k in s.locks && s'.locks[k].hart.Some? ==> s'.locks[k].hart.value in s.harts
    requires s'.harts[h].owns <= s'.locks.Keys
    requires k in s'.harts[h].owns ==> forall g | g in s.harts && g != h :: k !in s.harts[g].owns
    ensures forall l | l in s'.locks && s'.locks[l].hart.Some? :: s'.locks[l].hart.value in s'.harts
    ensures forall f, g, l | f in s'.harts && g in s'.harts && l in s'.harts[f].owns && l in s'.harts[g].owns :: f == g
  {
    forall f, g, l | f in s'.harts && g in s'.harts && l in s'.harts[f].owns && l in s'.harts[g].owns ensures f == g {
      assert HartOk(s, f) && HartOk(s, g);
    }
  }

  lemma Rebuild(s: State, s': State, h: nat, k: nat)
    requires Inv(s) && Framed(s, s', h, k) && HartOk(s', h)
    requires forall l | l in s.locks :: LockOk(s', l, h)
    requires forall g | g in s.harts && g != h && k in s.locks :: LockOk(s', k, g)
    requires k in s.locks && s'.locks[k].locked ==> Owned(s', k)
    requires k in s.locks && s'.locks[k].hart.Some? ==> s'.locks[k].hart.value in s.harts
    requires k in s'.harts[h].owns ==> forall g | g in s.harts && g != h :: k !in s.harts[g].owns
    ensures Inv(s')
  {
    FramedHarts(s, s', h, k);
    FramedLocks(s, s', h, k);
    FramedOwned(s, s', h, k);
    FramedNames(s, s', h, k);
  }

  lemma StillOwned(s: State, s': State, l: nat)
    requires Owned(s, l) && s'.harts.Keys == s.harts.Keys
    requires forall g | g in s.harts :: l in s.harts[g].owns ==> l in s'.harts[g].owns
    ensures Owned(s', l)
  {
    var g :| g in s.harts && l in s.harts[g].owns;
    assert l in s'.harts[g].owns;
  }

  lemma LocalFrame(s: State, h: nat, a: Action)
    requires Enabled(s, h, a) && IsLocal(a)
    ensures var s' := Next(s, h, a);
            && Framed(s, s', h, 0) && s'.locks == s.locks && s'.harts[h].owns == s.harts[h].owns
            && forall l :: !Unnamed(s.harts[h].pc, l) && !Unnamed(s'.harts[h].pc, l)
  {
  }

  lemma LocalStep(s: State, h: nat, a: Action)
    requires Inv(s) && Enabled(s, h, a) && IsLocal(a)
    ensures Inv(Next(s, h, a))
  {
    var s' := Next(s, h, a);
    LocalFrame(s, h, a);
    LocalHart(s, h, a);
    SameLocks(s, s', h);
    if 0 in s.locks && s.locks[0].locked {
      StillOwned(s, s', 0);
    }
    Rebuild(s, s', h, 0);
  }

  lemma SameLocks(s: State, s': State, h: nat)
    requires Inv(s) && Framed(s, s', h, 0) && s'.locks == s.locks && s'.harts[h].owns == s.harts[h].owns
    requires forall l :: !Unnamed(s.harts[h].pc, l) && !Unnamed(s'.harts[h].pc, l)
    ensures forall l, g | l in s.locks && g in s.harts :: LockOk(s', l, g)
  {
    forall g, l | g in s.harts && l in s.locks ensures LockOk(s', l, g) {
      assert LockOk(s, l, g);
    }
  }

  /** Taking a lock. */
  lemma TakeStep(s: State, h: nat)
    requires Inv(s) && Enabled(s, h, TestAndSet)
    ensures Inv(Next(s, h, TestAndSet))
  {
    var s', k := Next(s, h, TestAndSet), s.harts[h].pc.l;
    if !s.locks[k].locked {
      TakeHart(s, h);
      forall l | l in s.locks ensures LockOk(s', l, h) {
        assert LockOk(s, l, h);
        assert s.locks[k].hart.Some? ==> LockOk(s, k, s.locks[k].hart.value);
      }
      forall g | g in s.harts && g != h ensures LockOk(s', k, g) {
        assert LockOk(s, k, g);
      }
      assert k in s'.harts[h].owns;
      Rebuild(s, s', h, k);
    }
  }

  lemma TakeHart(s: State, h: nat)
    requires Inv(s) && Enabled(s, h, TestAndSet) && !s.locks[s.harts[h].pc.l].locked
    ensures HartOk(Next(s, h, TestAndSet), h)
    ensures forall g | g in s.harts :: s.harts[h].pc.l !in s.harts[g].owns
  {
    assert HartOk(s, h);
    forall g | g in s.harts ensures s.harts[h].pc.l !in s.harts[g].owns {
      assert LockOk(s, s.harts[h].pc.l, g);
    }
  }

  /** Writing or clearing the name in a lock the hart owns, and giving a lock back. */
  lemma OwnerStep(s: State, h: nat, a: Action)
    requires Inv(s) && Enabled(s, h, a) && (a.SetHart? || a.ClearHart? || a.Unlock?)
    ensures Inv(Next(s, h, a))
  {
    var s', k := Next(s, h, a), s.harts[h].pc.l;
    OwnerHart(s, h, a);
    OwnerLocks(s, h, a);
    OwnerFrame(s, h, a);
    Rebuild(s, s', h, k);
  }

  lemma OwnerFrame(s: State, h: nat, a: Action)
    requires Inv(s) && Enabled(s, h, a) && (a.SetHart? || a.ClearHart? || a.Unlock?)
    ensures var s', k := Next(s, h, a), s.harts[h].pc.l;
            && Framed(s, s', h, k) && k in s.locks && (s'.locks[k].locked ==> Owned(s', k))
            && (s'.locks[k].hart.Some? ==> s'.locks[k].hart.value in s.harts)
            && (k in s'.harts[h].owns ==> forall g | g in s.harts && g != h :: k !in s.harts[g].owns)
  {
    var s', k := Next(s, h, a), s.harts[h].pc.l;
    assert HartOk(s, h);
    if !a.Unlock? {
      StillOwned(s, s', k);
    }
  }

  lemma OwnerLocks(s: State, h: nat, a: Action)
    requires Inv(s) && Enabled(s, h, a) && (a.SetHart? || a.ClearHart? || a.Unlock?)
    ensures var s', k := Next(s, h, a), s.harts[h].pc.l;
            && h in s'.harts && s'.harts.Keys == s.harts.Keys && s'.locks.Keys == s.locks.Keys
            && (forall l | l in s.locks :: LockOk(s', l, h))
            && (forall g | g in s.harts && g != h :: LockOk(s', k, g))
  {
    var s', k := Next(s, h, a), s.harts[h].pc.l;
    forall l | l in s.locks ensures LockOk(s', l, h) {
      OwnLock(s, h, a, l);
    }
    forall g | g in s.harts && g != h ensures LockOk(s', k, g) {
      OtherHart(s, h, a, g);
    }
  }

  lemma OwnLock(s: State, h: nat, a: Action, l: nat)
    requires Inv(s) && Enabled(s, h, a) && (a.SetHart? || a.ClearHart? || a.Unlock?) && l in s.locks
    ensures LockOk(Next(s, h, a), l, h)
  {
    assert HartOk(s, h) && LockOk(s, l, h);
  }

  lemma OtherHart(s: State, h: nat, a: Action, g: nat)
    requires Inv(s) && Enabled(s, h, a) && (a.SetHart? || a.ClearHart? || a.Unlock?) && g in s.harts && g != h
    ensures LockOk(Next(s, h, a), s.harts[h].pc.l, g)
  {
    assert HartOk(s, h) && LockOk(s, s.harts[h].pc.l, g);
  }

  lemma OwnerHart(s: State, h: nat, a: Action)
    requires Inv(s) && Enabled(s, h, a) && (a.SetHart? || a.ClearHart? || a.Unlock?)
    ensures HartOk(Next(s, h, a), h)
    ensures Owned(s, s.harts[h].pc.l)
    ensures forall g | g in s.harts && g != h :: s.harts[h].pc.l !in s.harts[g].owns
  {
    assert HartOk(s, h);
    assert s.harts[h].pc.l in s.harts[h].owns;
  }

  lemma StepInv(s: State, h: nat, a: Action)
    requires Inv(s) && Enabled(s, h, a)
    ensures Inv(Next(s, h, a))
  {
    match a
    case TestAndSet => TakeStep(s, h);
    case SetHart => OwnerStep(s, h, a);
    case ClearHart => OwnerStep(s, h, a);
    case Unlock => OwnerStep(s, h, a);
    case _ => LocalStep(s, h, a);
  }

  // ------------------------------------------------------------------ runs

  datatype Event = Event(h: nat, a: Action)

  /** Any interleaving of the harts. */
  ghost predicate Run(ss: seq<State>, es: seq<Event>) {
    && |ss| == |es| + 1 && Init(ss[0])
    && forall i | 0 <= i < |es| :: Enabled(ss[i], es[i].h, es[i].a) && ss[i + 1] == Next(ss[i], es[i].h, es[i].a)
  }

  lemma {:induction false} RunInv(ss: seq<State>, es: seq<Event>, i: nat)
    requires Run(ss, es) && i < |ss|
    ensures Inv(ss[i])
  {
    if i == 0 {
      InitInv(ss[0]);
    } else {
      RunInv(ss, es, i - 1);
      StepInv(ss[i - 1], es[i - 1].h, es[i - 1].a);
    }
  }

  /** Mutual exclusion: in every state of every run a lock that names a hart is locked and that
      hart is the only owner; is_holding_spinlock answers exactly whether the asking hart owns
      the lock, except between the two writes of its own acquire or release. */
  lemma HolderUnique(ss: seq<State>, es: seq<Event>, i: nat, l: nat)
    requires Run(ss, es) && i < |ss| && l in ss[i].locks
    ensures var s := ss[i];
            && (s.locks[l].hart.Some? ==>
                s.locks[l].locked && s.locks[l].hart.value in s.harts && l in s.harts[s.locks[l].hart.value].owns)
            && (s.locks[l].locked <==> Owned(s, l))
            && (forall h, g | h in s.harts && g in s.harts && l in s.harts[h].owns && l in s.harts[g].owns :: h == g)
            && (forall h | h in s.harts && !Unnamed(s.harts[h].pc, l) :: IsHolding(s, h, l) <==> l in s.harts[h].owns)
  {
    RunInv(ss, es, i);
    var s := ss[i];
    forall h | h in s.harts ensures LockOk(s, l, h) {}
  }

  /** The push-off depth counts the locks owned and the acquire or release in progress;
      interrupts are off while it is positive; popoff_hart never panics. */
  lemma DepthCounts(ss: seq<State>, es: seq<Event>, i: nat, h: nat)
    requires Run(ss, es) && i < |ss| && h in ss[i].harts
    ensures var x := ss[i].harts[h];
            && (!x.pc.Panicked? ==> x.dep == |x.owns| + Pending(x.pc))
            && (x.dep > 0 ==> !x.enabled)
            && (x.pc.Panicked? ==> Justified(ss[i], h, x.pc.why))
  {
    RunInv(ss, es, i);
    assert HartOk(ss[i], h);
  }

  lemma {:induction false} OuterKept(ss: seq<State>, es: seq<Event>, i: nat, j: nat, h: nat)
    requires Run(ss, es) && i <= j < |ss| && h in ss[i].harts
    requires forall k | i <= k < j :: !(es[k].h == h && es[k].a.Choose?)
    ensures h in ss[j].harts && ss[j].harts[h].outer == ss[i].harts[h].outer
    decreases j - i
  {
    if i < j {
      OuterKept(ss, es, i, j - 1, h);
      assert ss[j] == Next(ss[j - 1], es[j - 1].h, es[j - 1].a);
    }
  }

  /** Any balanced stretch, released in whatever order, restores the interrupt flag seen when it began. */
  lemma InterruptsRestored(ss: seq<State>, es: seq<Event>, i: nat, j: nat, h: nat)
    requires Run(ss, es) && i <= j < |ss| && h in ss[i].harts && h in ss[j].harts
    requires ss[i].harts[h].dep == 0 && ss[j].harts[h].dep == 0
    requires forall k | i <= k < j :: !(es[k].h == h && es[k].a.Choose?)
    ensures ss[j].harts[h].enabled == ss[i].harts[h].enabled
  {
    RunInv(ss, es, i);
    RunInv(ss, es, j);
    OuterKept(ss, es, i, j, h);
    assert HartOk(ss[i], h) && HartOk(ss[j], h);
  }
}
