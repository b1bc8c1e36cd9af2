/** The sweep of kernel/device/memory.c that finds the RAM no reserved range covers. The begins
    and the ends of the ranges are sorted independently of each other. */
module Sweep {
  import opened Addr
  import opened QSort

  const U64_MAX := 0xffff_ffff_ffff_ffff

  // ------------------------------------------------------------ counting

  ghost function CountLe(s: seq<nat>, x: nat): nat {
    if s == [] then 0 else CountLe(s[..|s| - 1], x) + if s[|s| - 1] <= x then 1 else 0
  }

  lemma {:induction false} CountConcat(s: seq<nat>, t: seq<nat>, x: nat)
    ensures CountLe(s + t, x) == CountLe(s, x) + CountLe(t, x)
  {
    if t == [] {
      assert s + t == s;
    } else {
      assert (s + t)[..|s + t| - 1] == s + t[..|t| - 1];
      CountConcat(s, t[..|t| - 1], x);
    }
  }

  /** The count does not depend on the order. */
  lemma {:induction false} CountPerm(s: seq<nat>, t: seq<nat>, x: nat)
    requires multiset(s) == multiset(t)
    ensures CountLe(s, x) == CountLe(t, x)
    decreases |s|
  {
    if s == [] {
      assert |multiset(t)| == 0;
    } else {
      var j := Partner(s, t);
      CountPerm(s[..|s| - 1], t[..j] + t[j + 1..], x);
      CountWithout(t, j, x);
    }
  }

  lemma Partner(s: seq<nat>, t: seq<nat>) returns (j: nat)
    requires s != [] && multiset(s) == multiset(t)
    ensures j < |t| && t[j] == s[|s| - 1] && multiset(s[..|s| - 1]) == multiset(t[..j] + t[j + 1..])
  {
    var v := s[|s| - 1];
    assert s == s[..|s| - 1] + [v];
    assert v in multiset(t);
    j :| 0 <= j < |t| && t[j] == v;
    Without(t, j);
  }

  lemma Without(t: seq<nat>, j: nat)
    requires j < |t|
    ensures multiset(t[..j] + t[j + 1..]) == multiset(t) - multiset{t[j]}
  {
    assert t == t[..j] + [t[j]] + t[j + 1..];
  }

  lemma CountWithout(t: seq<nat>, j: nat, x: nat)
    requires j < |t|
    ensures CountLe(t, x) == CountLe(t[..j] + t[j + 1..], x) + if t[j] <= x then 1 else 0
  {
    assert t == t[..j] + [t[j]] + t[j + 1..];
    CountConcat(t[..j] + [t[j]], t[j + 1..], x);
    CountConcat(t[..j], [t[j]], x);
    CountConcat(t[..j], t[j + 1..], x);
  }

  /** In a sequence whose first `k` elements are the ones up to `x`, the count is `k`. */
  lemma {:induction false} CountSplit(s: seq<nat>, k: nat, x: nat)
    requires k <= |s| && (forall i | 0 <= i < k :: s[i] <= x) && (forall i | k <= i < |s| :: x < s[i])
    ensures CountLe(s, x) == k
  {
    if s != [] {
      CountSplit(s[..|s| - 1], if k == |s| then k - 1 else k, x);
    }
  }

  lemma {:induction false} CountAtLeast(s: seq<nat>, k: nat, x: nat)
    requires k <= |s| && forall i | 0 <= i < k :: s[i] <= x
    ensures CountLe(s, x) >= k
  {
    if s != [] {
      CountAtLeast(s[..|s| - 1], if k == |s| then k - 1 else k, x);
    }
  }

  // ------------------------------------------------------------ ranges

  /** Each range begins no later than it ends. */
  ghost predicate Ranges(bs: seq<nat>, es: seq<nat>) {
    |bs| == |es| && forall i | 0 <= i < |bs| :: bs[i] <= es[i]
  }

  ghost predicate Covered(bs: seq<nat>, es: seq<nat>, x: nat)
    requires |bs| == |es|
  {
    exists i | 0 <= i < |bs| :: bs[i] <= x < es[i]
  }

  /** Counting begins and ends up to `x` separately tells whether a range covers `x`. */
  lemma {:induction false} CountCover(bs: seq<nat>, es: seq<nat>, x: nat)
    requires Ranges(bs, es)
    ensures CountLe(bs, x) >= CountLe(es, x)
    ensures CountLe(bs, x) > CountLe(es, x) <==> Covered(bs, es, x)
  {
    if bs != [] {
      var n := |bs| - 1;
      var bs', es' := bs[..n], es[..n];
      CountCover(bs', es', x);
      if Covered(bs', es', x) {
        var i :| 0 <= i < n && bs'[i] <= x < es'[i];
        assert bs[i] <= x < es[i];
      }
      if Covered(bs, es, x) && !(bs[n] <= x < es[n]) {
        var i :| 0 <= i < n + 1 && bs[i] <= x < es[i];
        assert bs'[i] <= x < es'[i];
      }
    }
  }

  // ------------------------------------------------------------ the sweep

  datatype Segment = Segment(begin: nat, len: nat)

  /** The ranges, the sorted begins and ends, and where the RAM begins. */
  datatype Job = Job(bs: seq<nat>, es: seq<nat>, b: seq<nat>, e: seq<nat>, ram: nat)

  ghost predicate Ready(w: Job) {
    && Ranges(w.bs, w.es) && |w.b| == |w.e| == |w.bs| && Sorted(w.b, 0, |w.b|) && Sorted(w.e, 0, |w.e|)
    && forall x: nat :: Tally(w, x)
  }

  /** Sorting has not changed how many begins and how many ends there are up to `x`. */
  ghost predicate Tally(w: Job, x: nat) {
    CountLe(w.b, x) == CountLe(w.bs, x) && CountLe(w.e, x) == CountLe(w.es, x)
  }

  /** The sorted sequences hold the begins and the ends. */
  ghost predicate Shuffled(w: Job) {
    && Ranges(w.bs, w.es) && |w.b| == |w.e| == |w.bs| && Sorted(w.b, 0, |w.b|) && Sorted(w.e, 0, |w.e|)
    && multiset(w.b) == multiset(w.bs) && multiset(w.e) == multiset(w.es)
  }

  lemma ShuffledReady(w: Job)
    requires Shuffled(w)
    ensures Ready(w)
  {
    forall x: nat ensures Tally(w, x) {
      CountPerm(w.b, w.bs, x);
      CountPerm(w.e, w.es, x);
    }
  }

  ghost predicate Cov(w: Job, x: nat)
    requires Ready(w)
  {
    Covered(w.bs, w.es, x)
  }

  /** Something before `x` is covered. */
  ghost predicate Started(w: Job, x: nat)
    requires Ready(w)
  {
    exists y: nat :: y < x && Cov(w, y)
  }

  /** What the sweep is to find: addresses that no range covers, from the beginning of the RAM on
      or behind some covered address. */
  ghost predicate Want(w: Job, x: nat)
    requires Ready(w)
  {
    !Cov(w, x) && (x >= w.ram || Started(w, x))
  }

  ghost predicate InSegment(g: Segment, x: nat) {
    g.begin <= x < g.begin + g.len
  }

  ghost predicate InSegs(segs: seq<Segment>, x: nat) {
    exists i | 0 <= i < |segs| :: InSegment(segs[i], x)
  }

  /** The variables of the sweep. `cur` is the last position handled and `hot`, while a range is
      open, a covered address before every end still to come. */
  datatype State = State(bp: nat, ep: nat, last: nat, cur: nat, hot: nat, segs: seq<Segment>)

  /** `k` elements have been handled, none of them behind `c`, and none of the others before. */
  ghost predicate Passed(s: seq<nat>, k: nat, c: nat) {
    k <= |s| && (forall i | 0 <= i < k :: s[i] <= c) && (forall i | k <= i < |s| :: c <= s[i])
  }

  /** Nothing left before or at `x`. */
  ghost predicate Beyond(s: seq<nat>, k: nat, x: nat) {
    forall i | k <= i < |s| :: x < s[i]
  }

  ghost predicate Open(s: State) {
    s.bp > s.ep
  }

  /** `x` has been decided. */
  ghost predicate Decided(w: Job, s: State, x: nat)
    requires Ready(w)
  {
    (InSegs(s.segs, x) || (!Open(s) && s.last <= x)) <==> Want(w, x)
  }

  /** Segments lie apart in increasing order, each from the RAM's beginning or an end to a begin. */
  ghost predicate Apart(w: Job, segs: seq<Segment>) {
    && (forall i | 0 <= i < |segs| :: SegOk(w, segs[i]))
    && (forall i, j | 0 <= i < j < |segs| :: segs[i].begin + segs[i].len < segs[j].begin)
  }

  ghost predicate SegOk(w: Job, g: Segment) {
    g.len > 0 && (g.begin == w.ram || g.begin in w.e) && g.begin + g.len in w.b
  }

  ghost predicate EndBy(segs: seq<Segment>, c: int) {
    forall i | 0 <= i < |segs| :: segs[i].begin + segs[i].len <= c
  }

  /** Where the current gap begins. */
  ghost predicate Idle(w: Job, s: State)
    requires Ready(w)
  {
    && EndBy(s.segs, s.last - 1)
    && ((Started(w, s.last) && s.last <= s.cur && s.last in w.e) ||
        (s.last == w.ram && s.segs == [] && Untouched(w, s.bp)))
  }

  /** Nothing is covered before the begin `k`. */
  ghost predicate Untouched(w: Job, k: nat)
    requires Ready(w)
  {
    forall y | Cov(w, y) :: k < |w.b| && w.b[k] <= y
  }

  ghost predicate Busy(w: Job, s: State)
    requires Ready(w)
  {
    s.hot <= s.cur && Cov(w, s.hot) && Beyond(w.e, s.ep, s.hot) && EndBy(s.segs, s.hot)
  }

  ghost predicate Inv(w: Job, s: State) {
    && Ready(w) && s.ep <= s.bp && Passed(w.b, s.bp, s.cur) && Passed(w.e, s.ep, s.cur)
    && |s.segs| <= s.bp && Apart(w, s.segs) && EndBy(s.segs, s.cur)
    && (forall x: nat | x < s.cur :: Decided(w, s, x))
    && (if Open(s) then Busy(w, s) else Idle(w, s))
  }

  lemma StartInv(w: Job)
    requires Ready(w)
    ensures Inv(w, State(0, 0, w.ram, 0, 0, []))
  {
    forall y | Cov(w, y) ensures 0 < |w.b| && w.b[0] <= y {
      CountCover(w.bs, w.es, y);
      assert Tally(w, y);
      if |w.b| == 0 || y < w.b[0] {
        CountSplit(w.b, 0, y);
      }
    }
  }

  /** With everything up to `x` handled on both sides, `x` is covered iff a range is open. */
  lemma CaughtUp(w: Job, bp: nat, ep: nat, x: nat)
    requires Ready(w) && bp <= |w.b| && ep <= |w.e| && Beyond(w.b, bp, x) && Beyond(w.e, ep, x)
    requires (forall i | 0 <= i < bp :: w.b[i] <= x) && (forall i | 0 <= i < ep :: w.e[i] <= x)
    ensures ep <= bp && (bp > ep <==> Cov(w, x))
  {
    CountSplit(w.b, bp, x);
    CountSplit(w.e, ep, x);
    assert Tally(w, x);
    CountCover(w.bs, w.es, x);
  }

  /** With only the ends up to `x` handled completely, an open range covers `x`. */
  lemma EndsCaughtUp(w: Job, bp: nat, ep: nat, x: nat)
    requires Ready(w) && bp <= |w.b| && ep <= |w.e| && Beyond(w.e, ep, x) && bp > ep
    requires (forall i | 0 <= i < bp :: w.b[i] <= x) && (forall i | 0 <= i < ep :: w.e[i] <= x)
    ensures Cov(w, x)
  {
    CountAtLeast(w.b, bp, x);
    CountSplit(w.e, ep, x);
    assert Tally(w, x);
    CountCover(w.bs, w.es, x);
  }

  /** With only the begins up to `x` handled completely, there are no more ends than begins. */
  lemma BeginsCaughtUp(w: Job, bp: nat, ep: nat, x: nat)
    requires Ready(w) && bp <= |w.b| && ep <= |w.e| && Beyond(w.b, bp, x)
    requires (forall i | 0 <= i < bp :: w.b[i] <= x) && (forall i | 0 <= i < ep :: w.e[i] <= x)
    ensures ep <= bp
  {
    CountSplit(w.b, bp, x);
    CountAtLeast(w.e, ep, x);
    assert Tally(w, x);
    CountCover(w.bs, w.es, x);
  }

  /** Between two positions everything is covered or nothing is. */
  lemma Gap(w: Job, s: State, x: nat)
    requires Inv(w, s) && s.cur <= x && Beyond(w.b, s.bp, x) && Beyond(w.e, s.ep, x)
    ensures Cov(w, x) <==> Open(s)
    ensures !Open(s) ==> (Want(w, x) <==> s.last <= x)
    ensures !InSegs(s.segs, x)
  {
    CaughtUp(w, s.bp, s.ep, x);
  }

  /** The state after the events at `pos` have been handled up to `bp` and `ep`. */
  ghost function After(s: State, bp: nat, ep: nat, pos: nat, hot: nat): State {
    State(bp, ep, if Open(s) && bp == ep then pos else s.last, pos, hot,
          if !Open(s) && bp > ep && pos > s.last then s.segs + [Segment(s.last, pos - s.last)] else s.segs)
  }

  lemma InAppend(segs: seq<Segment>, g: Segment, x: nat)
    ensures InSegs(segs + [g], x) <==> InSegs(segs, x) || InSegment(g, x)
  {
    var t := segs + [g];
    if InSegs(segs, x) {
      var i :| 0 <= i < |segs| && InSegment(segs[i], x);
      assert InSegment(t[i], x);
    }
    assert t[|segs|] == g;
  }

  /** `pos` is the next position. */
  ghost predicate NextAt(w: Job, s: State, pos: nat) {
    s.cur <= pos && (forall i | s.bp <= i < |w.b| :: pos <= w.b[i]) && (forall i | s.ep <= i < |w.e| :: pos <= w.e[i])
  }

  lemma Decide(w: Job, s: State, bp: nat, ep: nat, pos: nat, hot: nat, x: nat)
    requires Inv(w, s) && NextAt(w, s, pos) && ep <= bp && x < pos
    ensures Decided(w, After(s, bp, ep, pos, hot), x)
  {
    InAppend(s.segs, Segment(s.last, if pos > s.last then pos - s.last else 0), x);
    if x >= s.cur {
      Gap(w, s, x);
    } else {
      assert Decided(w, s, x);
    }
  }

  lemma ApartAppend(w: Job, segs: seq<Segment>, g: Segment)
    requires Apart(w, segs) && SegOk(w, g) && EndBy(segs, g.begin - 1)
    ensures Apart(w, segs + [g]) && EndBy(segs + [g], g.begin + g.len)
  {
  }

  /** The change of state keeps the segments in order. */
  lemma KeepsApart(w: Job, s: State, bp: nat, ep: nat, pos: nat, hot: nat)
    requires Inv(w, s) && NextAt(w, s, pos) && s.bp <= bp && s.ep <= ep <= bp && (bp > ep && !Open(s) ==> pos in w.b)
    ensures var t := After(s, bp, ep, pos, hot); |t.segs| <= bp && Apart(w, t.segs) && EndBy(t.segs, pos)
  {
    if !Open(s) && bp > ep && pos > s.last {
      ApartAppend(w, s.segs, Segment(s.last, pos - s.last));
    }
  }

  lemma Advance(w: Job, s: State, bp: nat, ep: nat, pos: nat, hot: nat, t: State)
    requires Inv(w, s) && NextAt(w, s, pos) && s.bp <= bp && s.ep <= ep <= bp && Passed(w.b, bp, pos)
    requires Passed(w.e, ep, pos)
    requires bp > ep ==> hot <= pos && Cov(w, hot) && Beyond(w.e, ep, hot) && (hot == pos || (hot == s.hot && Open(s)))
    requires bp > ep && !Open(s) ==> pos in w.b
    requires bp == ep && Open(s) ==> pos in w.e && s.hot < pos
    requires bp == ep && !Open(s) && Untouched(w, s.bp) ==> Untouched(w, bp)
    requires t == After(s, bp, ep, pos, hot)
    ensures Inv(w, t)
  {
    KeepsApart(w, s, bp, ep, pos, hot);
    forall x: nat | x < pos ensures Decided(w, t, x) {
      Decide(w, s, bp, ep, pos, hot, x);
    }
    if Open(t) {
      BusyAfter(w, s, bp, ep, pos, hot);
    } else {
      IdleAfter(w, s, bp, ep, pos, hot);
    }
  }

  lemma BusyAfter(w: Job, s: State, bp: nat, ep: nat, pos: nat, hot: nat)
    requires Inv(w, s) && NextAt(w, s, pos) && s.bp <= bp && s.ep <= ep < bp
    requires hot <= pos && Cov(w, hot) && Beyond(w.e, ep, hot) && (hot == pos || (hot == s.hot && Open(s)))
    requires !Open(s) ==> pos in w.b
    ensures Busy(w, After(s, bp, ep, pos, hot))
  {
    KeepsApart(w, s, bp, ep, pos, hot);
  }

  lemma IdleAfter(w: Job, s: State, bp: nat, ep: nat, pos: nat, hot: nat)
    requires Inv(w, s) && NextAt(w, s, pos) && s.bp <= bp && s.ep <= ep == bp
    requires Open(s) ==> pos in w.e && s.hot < pos
    requires !Open(s) && Untouched(w, s.bp) ==> Untouched(w, bp)
    ensures Idle(w, After(s, bp, ep, pos, hot))
  {
    if Open(s) {
      assert Cov(w, s.hot);
    }
  }

  lemma PassNext(s: seq<nat>, k: nat, c: nat)
    requires Sorted(s, 0, |s|) && Passed(s, k, c) && k < |s|
    ensures Passed(s, k + 1, s[k]) && c <= s[k]
  {
  }

  lemma FirstBeyond(s: seq<nat>, k: nat, x: nat)
    requires Sorted(s, 0, |s|) && k <= |s| && (k == |s| || x < s[k])
    ensures Beyond(s, k, x)
  {
  }

  /** What is known when the next position is a begin, or an end, alone. */
  lemma NextAlone(x: seq<nat>, k: nat, y: seq<nat>, l: nat, cur: nat)
    requires Sorted(x, 0, |x|) && Sorted(y, 0, |y|) && Passed(x, k, cur) && Passed(y, l, cur)
    requires k < |x| && (l == |y| || x[k] < y[l])
    ensures cur <= x[k] && (forall i | k <= i < |x| :: x[k] <= x[i]) && (forall i | l <= i < |y| :: x[k] <= y[i])
    ensures Passed(x, k + 1, x[k]) && Passed(y, l, x[k]) && Beyond(y, l, x[k]) && x[k] in x
  {
    FirstBeyond(y, l, x[k]);
    PassNext(x, k, cur);
  }

  /** A begin before every end that is left. */
  lemma BeginEvent(w: Job, s: State, t: State)
    requires Inv(w, s) && s.bp < |w.b| && (s.ep == |w.e| || w.b[s.bp] < w.e[s.ep])
    requires t == After(s, s.bp + 1, s.ep, w.b[s.bp], w.b[s.bp])
    ensures Inv(w, t)
  {
    var pos := w.b[s.bp];
    BeginCovers(w, s.bp, s.ep, s.cur);
    Advance(w, s, s.bp + 1, s.ep, pos, pos, t);
  }

  lemma BeginCovers(w: Job, bp: nat, ep: nat, cur: nat)
    requires Ready(w) && ep <= bp && Passed(w.b, bp, cur) && Passed(w.e, ep, cur) && bp < |w.b|
    requires ep == |w.e| || w.b[bp] < w.e[ep]
    ensures var pos := w.b[bp];
            && cur <= pos && (forall i | bp <= i < |w.b| :: pos <= w.b[i])
            && (forall i | ep <= i < |w.e| :: pos <= w.e[i])
            && Passed(w.b, bp + 1, pos) && Passed(w.e, ep, pos) && Beyond(w.e, ep, pos) && pos in w.b && Cov(w, pos)
  {
    NextAlone(w.b, bp, w.e, ep, cur);
    EndsCaughtUp(w, bp + 1, ep, w.b[bp]);
  }

  /** An end before every begin that is left. */
  lemma EndEvent(w: Job, s: State, t: State)
    requires Inv(w, s) && s.ep < |w.e| && (s.bp == |w.b| || w.e[s.ep] < w.b[s.bp])
    requires t == After(s, s.bp, s.ep + 1, w.e[s.ep], s.hot)
    ensures Inv(w, t)
  {
    var pos := w.e[s.ep];
    NextAlone(w.e, s.ep, w.b, s.bp, s.cur);
    BeginsCaughtUp(w, s.bp, s.ep + 1, pos);
    Advance(w, s, s.bp, s.ep + 1, pos, s.hot, t);
  }

  /** All begins and ends at one position together. */
  lemma TieEvent(w: Job, s: State, bp: nat, ep: nat, pos: nat, t: State)
    requires Inv(w, s) && s.bp < |w.b| && s.ep < |w.e| && w.b[s.bp] == w.e[s.ep] == pos
    requires EqualUpTo(w.b, s.bp, bp, pos) && EqualUpTo(w.e, s.ep, ep, pos) && t == After(s, bp, ep, pos, pos)
    ensures Inv(w, t)
  {
    CaughtUp(w, bp, ep, pos);
    if bp == ep && !Open(s) && Untouched(w, s.bp) {
      StillUntouched(w, s, bp, ep, pos);
    }
    Advance(w, s, bp, ep, pos, pos, t);
  }

  lemma StillUntouched(w: Job, s: State, bp: nat, ep: nat, pos: nat)
    requires Inv(w, s) && s.bp < bp == ep <= |w.b| && w.b[s.bp] == pos && Untouched(w, s.bp)
    requires Passed(w.b, bp, pos) && Passed(w.e, ep, pos) && Beyond(w.e, ep, pos)
    ensures Untouched(w, bp)
  {
    forall y | Cov(w, y) ensures bp < |w.b| && w.b[bp] <= y {
      if Beyond(w.b, bp, y) {
        NoneYet(w, bp, ep, pos, y);
      }
    }
  }

  /** As many ends as begins up to `y` leave it uncovered. */
  lemma NoneYet(w: Job, bp: nat, ep: nat, pos: nat, y: nat)
    requires Ready(w) && bp == ep <= |w.b| && pos <= y && Beyond(w.b, bp, y)
    requires Passed(w.b, bp, pos) && Passed(w.e, ep, pos)
    ensures !Cov(w, y)
  {
    CountSplit(w.b, bp, y);
    CountAtLeast(w.e, ep, y);
    assert Tally(w, y);
    CountCover(w.bs, w.es, y);
  }

  /** The three kinds of events: a begin alone, an end alone, all begins and ends at one position. */
  ghost predicate Event(w: Job, s: State, bp: nat, ep: nat, pos: nat, hot: nat) {
    || (s.bp < |w.b| && (s.ep >= |w.e| || w.b[s.bp] < w.e[s.ep]) && bp == s.bp + 1 && ep == s.ep &&
        pos == hot == w.b[s.bp])
    || (s.ep < |w.e| && (s.bp >= |w.b| || w.e[s.ep] < w.b[s.bp]) && bp == s.bp && ep == s.ep + 1 && pos == w.e[s.ep] &&
        hot == s.hot)
    || (s.bp < |w.b| && s.ep < |w.e| && w.b[s.bp] == w.e[s.ep] == pos == hot && EqualUpTo(w.b, s.bp, bp, pos) &&
        EqualUpTo(w.e, s.ep, ep, pos))
  }

  ghost predicate EqualUpTo(s: seq<nat>, from: nat, k: nat, x: nat) {
    from < k <= |s| && (forall i | from <= i < k :: s[i] == x) && Beyond(s, k, x)
  }

  lemma EventKeeps(w: Job, s: State, bp: nat, ep: nat, pos: nat, hot: nat, t: State)
    requires Inv(w, s) && Event(w, s, bp, ep, pos, hot) && t == After(s, bp, ep, pos, hot)
    ensures Inv(w, t)
  {
    if bp == s.bp {
      EndEvent(w, s, t);
    } else if ep == s.ep {
      BeginEvent(w, s, t);
    } else {
      TieEvent(w, s, bp, ep, pos, t);
    }
  }

  /** The next position and how many ranges open and close there. */
  method NextEvent(b: array<nat>, e: array<nat>, n: nat, bptr: nat, eptr: nat, ghost w: Job, ghost s: State)
      returns (pos: nat, val: int, bp: nat, ep: nat, ghost hot: nat)
    requires n <= b.Length && n <= e.Length && w.b == b[..n] && w.e == e[..n] && Sorted(w.b, 0, n) && Sorted(w.e, 0, n)
    requires bptr == s.bp <= n && eptr == s.ep <= n && (bptr < n || eptr < n)
    ensures val == bp - ep - (bptr - eptr) && Event(w, s, bp, ep, pos, hot)
  {
    if bptr < n && eptr < n && b[bptr] == e[eptr] {
      pos := b[bptr];
      bp := SkipEqual(b, n, bptr, pos, w.b);
      ep := SkipEqual(e, n, eptr, pos, w.e);
      val := bp - bptr - (ep - eptr);
      hot := pos;
    } else if bptr < n && (eptr == n || b[bptr] < e[eptr]) {
      pos, val, bp, ep := b[bptr], 1, bptr + 1, eptr;
      hot := pos;
    } else {
      pos, val, bp, ep := e[eptr], -1, bptr, eptr + 1;
      hot := s.hot;
    }
  }

  /** The loop over equal positions. */
  method SkipEqual(a: array<nat>, n: nat, from: nat, x: nat, ghost s: seq<nat>) returns (k: nat)
    requires from < n <= a.Length && s == a[..n] && Sorted(s, 0, n) && s[from] == x
    ensures EqualUpTo(s, from, k, x)
  {
    k := from + 1;
    while k < n && a[k] == x
      invariant from < k <= n && forall i | from <= i < k :: s[i] == x
    {
      k := k + 1;
    }
  }

  /** The end of the loop's body: a gap begins, or one ends and is reported. */
  method Update(out: array<Segment>, count: nat, last: nat, pos: nat, acc: int, newAcc: int, ghost s: State,
                ghost t: State)
      returns (last': nat, count': nat)
    requires count <= out.Length && (newAcc > 0 && acc == 0 ==> count < out.Length) && s.segs == out[..count]
    requires last == s.last && acc == s.bp - s.ep >= 0 && newAcc == t.bp - t.ep >= 0
    requires t == After(s, t.bp, t.ep, pos, t.hot)
    modifies out
    ensures last' == t.last && count' <= out.Length && t.segs == out[..count']
  {
    last', count' := last, count;
    if newAcc == 0 && acc > 0 {
      last' := pos;
    } else if newAcc > 0 && acc == 0 && pos > last {
      out[count] := Segment(last, pos - last);
      count' := count + 1;
      assert out[..count'] == s.segs + [Segment(last, pos - last)];
    }
  }

  /** The sweep over the sorted positions, after both arrays have been sorted. */
  method Run(b: array<nat>, e: array<nat>, n: nat, ram: nat, out: array<Segment>, ghost w: Job) returns (count: nat)
    requires n <= b.Length && n <= e.Length && n <= out.Length && Ready(w) && w.b == b[..n] && w.e == e[..n]
    requires w.ram == ram
    requires Cov(w, U64_MAX - 1) && U64_MAX in w.e
    modifies out
    ensures count <= n && Exact(w, out[..count])
  {
    var bptr, eptr, acc, last := 0, 0, 0, ram;
    count := 0;
    ghost var s := State(0, 0, ram, 0, 0, []);
    StartInv(w);
    while bptr < n || eptr < n
      invariant bptr <= n && eptr <= bptr && acc == bptr - eptr && count <= bptr
      invariant Inv(w, s) && bptr == s.bp && eptr == s.ep && last == s.last && s.segs == out[..count]
      decreases n + n - bptr - eptr
    {
      var pos, val, bp, ep, hot := NextEvent(b, e, n, bptr, eptr, w, s);
      ghost var t := After(s, bp, ep, pos, hot);
      EventKeeps(w, s, bp, ep, pos, hot, t);
      var newAcc := acc + val;
      last, count := Update(out, count, last, pos, acc, newAcc, s, t);
      s, acc, bptr, eptr := t, newAcc, bp, ep;
    }
    AtTheEnd(w, s);
  }

  /** The segments hold exactly the wanted addresses, apart and in increasing order. */
  ghost predicate Exact(w: Job, segs: seq<Segment>) {
    Ready(w) && Apart(w, segs) && forall x: nat | x < U64_MAX :: InSegs(segs, x) <==> Want(w, x)
  }

  lemma AtTheEnd(w: Job, s: State)
    requires Inv(w, s) && s.bp == s.ep == |w.b| && Cov(w, U64_MAX - 1) && U64_MAX in w.e
    ensures Exact(w, s.segs)
  {
    assert s.cur >= U64_MAX;
    assert Decided(w, s, U64_MAX - 1);
    forall x: nat | x < U64_MAX ensures InSegs(s.segs, x) <==> Want(w, x) {
      assert Decided(w, s, x);
    }
  }

  // ------------------------------------------------------------ device_calc_available_ram

  function Down(x: nat): nat {
    x / PAGE_SIZE * PAGE_SIZE
  }

  function Up(x: nat): nat {
    (x + PAGE_SIZE - 1) / PAGE_SIZE * PAGE_SIZE
  }

  lemma RoundFacts(x: nat)
    ensures Down(x) <= x < Down(x) + PAGE_SIZE && Down(x) % PAGE_SIZE == 0
    ensures x <= Up(x) < x + PAGE_SIZE && Up(x) % PAGE_SIZE == 0
  {
  }

  /** The begins that are swept: the reserved ranges and the kernel image, rounded to pages, and the end of the RAM. */
  function Begins(s: seq<nat>, ram: nat, len: nat): seq<nat> {
    seq(|s|, i requires 0 <= i < |s| => Down(s[i])) + [Down(ram), Down(ram + len)]
  }

  function Ends(s: seq<nat>, imageEnd: nat): seq<nat> {
    seq(|s|, i requires 0 <= i < |s| => Up(s[i])) + [Up(imageEnd), U64_MAX]
  }

  /** The loop that rounds the ranges to pages. */
  method Align(b: array<nat>, e: array<nat>, n: nat)
    requires n <= b.Length && n <= e.Length && b != e
    modifies b, e
    ensures forall i | 0 <= i < b.Length :: b[i] == if i < n then Down(old(b[i])) else old(b[i])
    ensures forall i | 0 <= i < e.Length :: e[i] == if i < n then Up(old(e[i])) else old(e[i])
  {
    var k := 0;
    while k < n
      invariant 0 <= k <= n
      invariant forall i | 0 <= i < b.Length :: b[i] == if i < k then Down(old(b[i])) else old(b[i])
      invariant forall i | 0 <= i < e.Length :: e[i] == if i < k then Up(old(e[i])) else old(e[i])
    {
      b[k], e[k] := Down(b[k]), Up(e[k]);
      k := k + 1;
    }
  }

  /** What the callers give: reserved ranges that end after they begin, everything inside the address space. */
  ghost predicate Sane(b: seq<nat>, e: seq<nat>, ram: nat, len: nat, imageEnd: nat) {
    && |b| == |e| && (forall i | 0 <= i < |b| :: b[i] <= e[i] && e[i] + PAGE_SIZE <= U64_MAX)
    && ram <= imageEnd && imageEnd + PAGE_SIZE <= U64_MAX && ram + len < U64_MAX
  }

  lemma SaneRanges(b: seq<nat>, e: seq<nat>, ram: nat, len: nat, imageEnd: nat)
    requires Sane(b, e, ram, len, imageEnd)
    ensures Ranges(Begins(b, ram, len), Ends(e, imageEnd))
    ensures Covered(Begins(b, ram, len), Ends(e, imageEnd), U64_MAX - 1)
  {
    var bs, es := Begins(b, ram, len), Ends(e, imageEnd);
    forall i | 0 <= i < |bs| ensures bs[i] <= es[i] {
      if i < |b| {
        RoundFacts(b[i]);
        RoundFacts(e[i]);
      }
    }
    RoundFacts(ram);
    RoundFacts(imageEnd);
    RoundFacts(ram + len);
    assert bs[|b| + 1] <= U64_MAX - 1 < es[|b| + 1];
  }

  /** device_calc_available_ram */
  method CalcAvailable(b: array<nat>, e: array<nat>, num: nat, ram: nat, len: nat, imageEnd: nat, out: array<Segment>)
      returns (count: nat, ghost w: Job)
    requires num + 2 <= b.Length && num + 2 <= e.Length && num + 2 <= out.Length && b != e
    requires Sane(b[..num], e[..num], ram, len, imageEnd)
    modifies b, e, out
    ensures w.bs == Begins(old(b[..num]), ram, len) && w.es == Ends(old(e[..num]), imageEnd) && w.ram == ram
    ensures count <= num + 2 && Shuffled(w) && Exact(w, out[..count])
  {
    ghost var b0, e0 := b[..num], e[..num];
    SaneRanges(b0, e0, ram, len, imageEnd);
    var n := Collect(b, e, num, ram, len, imageEnd);
    ghost var bs, es := b[..n], e[..n];
    SortBoth(b, e, n);
    w := Job(bs, es, b[..n], e[..n], ram);
    LastIn(w);
    ShuffledReady(w);
    count := Run(b, e, n, ram, out, w);
  }

  /** The positions before sorting. */
  method Collect(b: array<nat>, e: array<nat>, num: nat, ram: nat, len: nat, imageEnd: nat) returns (n: nat)
    requires num + 2 <= b.Length && num + 2 <= e.Length && b != e
    modifies b, e
    ensures n == num + 2 && b[..n] == Begins(old(b[..num]), ram, len) && e[..n] == Ends(old(e[..num]), imageEnd)
  {
    n := num;
    b[n], e[n] := ram, imageEnd;
    n := n + 1;
    Align(b, e, n);
    b[n], e[n] := Down(ram + len), U64_MAX;
    n := n + 1;
  }

  method SortBoth(b: array<nat>, e: array<nat>, n: nat)
    requires n <= b.Length && n <= e.Length && b != e
    modifies b, e
    ensures multiset(b[..n]) == multiset(old(b[..n])) && Sorted(b[..n], 0, n)
    ensures multiset(e[..n]) == multiset(old(e[..n])) && Sorted(e[..n], 0, n)
  {
    ghost var b0, e0 := b[..], e[..];
    assert b0[..n] == b0[0..n] && e0[..n] == e0[0..n];
    Sort(b, 0, n - 1);
    ghost var b1 := b[..];
    Sort(e, 0, n - 1);
    assert b1[0..n] == b[..n] && e[..][0..n] == e[..n];
  }

  lemma LastIn(w: Job)
    requires multiset(w.e) == multiset(w.es) && |w.es| > 0 && w.es[|w.es| - 1] == U64_MAX
    ensures U64_MAX in w.e
  {
    assert U64_MAX in multiset(w.es);
    assert U64_MAX in multiset(w.e);
  }

  /** The result of a call. */
  ghost predicate Result(b: seq<nat>, e: seq<nat>, ram: nat, len: nat, imageEnd: nat, w: Job, segs: seq<Segment>) {
    && Sane(b, e, ram, len, imageEnd) && Shuffled(w) && Exact(w, segs)
    && w.bs == Begins(b, ram, len) && w.es == Ends(e, imageEnd) && w.ram == ram
  }

  /** Some reserved range or the kernel image, rounded to pages, covers `x`. */
  ghost predicate Reserved(b: seq<nat>, e: seq<nat>, ram: nat, imageEnd: nat, x: nat)
    requires |b| == |e|
  {
    Down(ram) <= x < Up(imageEnd) || exists i | 0 <= i < |b| :: Down(b[i]) <= x < Up(e[i])
  }

  lemma CoveredMeans(b: seq<nat>, e: seq<nat>, ram: nat, len: nat, imageEnd: nat, x: nat)
    requires Sane(b, e, ram, len, imageEnd) && x < U64_MAX
    ensures Covered(Begins(b, ram, len), Ends(e, imageEnd), x) <==>
              Reserved(b, e, ram, imageEnd, x) || Down(ram + len) <= x
  {
    var bs, es := Begins(b, ram, len), Ends(e, imageEnd);
    var n := |b|;
    assert bs[n] == Down(ram) && es[n] == Up(imageEnd) && bs[n + 1] == Down(ram + len) && es[n + 1] == U64_MAX;
    if i :| 0 <= i < n && Down(b[i]) <= x < Up(e[i]) {
      assert bs[i] <= x < es[i];
    }
    if Covered(bs, es, x) {
      var i :| 0 <= i < |bs| && bs[i] <= x < es[i];
      assert i < n ==> Down(b[i]) <= x < Up(e[i]);
    }
  }

  /** From the beginning of the RAM to its rounded end, an address is reported available exactly
      when no reserved range covers its page. */
  lemma AvailableExactly(b: seq<nat>, e: seq<nat>, ram: nat, len: nat, imageEnd: nat, w: Job, segs: seq<Segment>,
                         x: nat)
    requires Result(b, e, ram, len, imageEnd, w, segs) && ram <= x < U64_MAX
    ensures InSegs(segs, x) <==> x < Down(ram + len) && !Reserved(b, e, ram, imageEnd, x)
  {
    CoveredMeans(b, e, ram, len, imageEnd, x);
  }

  /** Something before `x` is reserved. */
  ghost predicate BehindReserved(b: seq<nat>, e: seq<nat>, ram: nat, imageEnd: nat, x: nat)
    requires |b| == |e|
  {
    exists y: nat :: y < x && Reserved(b, e, ram, imageEnd, y)
  }

  /** Below the RAM, covered means reserved: the range behind the end of the RAM adds nothing. */
  lemma CoveredBelow(b: seq<nat>, e: seq<nat>, ram: nat, len: nat, imageEnd: nat, x: nat)
    requires Sane(b, e, ram, len, imageEnd) && x < ram
    ensures Covered(Begins(b, ram, len), Ends(e, imageEnd), x) <==> Reserved(b, e, ram, imageEnd, x)
  {
    CoveredMeans(b, e, ram, len, imageEnd, x);
    DownMono(ram, ram + len);
    RoundFacts(imageEnd);
  }

  /** Before the beginning of the RAM, an address is reported available exactly when it is not
      reserved but some address before it is. */
  lemma AvailableBelow(b: seq<nat>, e: seq<nat>, ram: nat, len: nat, imageEnd: nat, w: Job, segs: seq<Segment>, x: nat)
    requires Result(b, e, ram, len, imageEnd, w, segs) && x < ram
    ensures InSegs(segs, x) <==> !Reserved(b, e, ram, imageEnd, x) && BehindReserved(b, e, ram, imageEnd, x)
  {
    CoveredBelow(b, e, ram, len, imageEnd, x);
    forall y: nat | y < x ensures Cov(w, y) <==> Reserved(b, e, ram, imageEnd, y) {
      CoveredBelow(b, e, ram, len, imageEnd, y);
    }
  }

  /** The addresses reported available, in terms of the arguments alone. */
  ghost predicate Reported(b: seq<nat>, e: seq<nat>, ram: nat, len: nat, imageEnd: nat, x: nat)
    requires |b| == |e|
  {
    && !Reserved(b, e, ram, imageEnd, x)
    && if x >= ram then x < Down(ram + len) else BehindReserved(b, e, ram, imageEnd, x)
  }

  lemma ReportedExactly(b: seq<nat>, e: seq<nat>, ram: nat, len: nat, imageEnd: nat, w: Job, segs: seq<Segment>, x: nat)
    requires Result(b, e, ram, len, imageEnd, w, segs) && x < U64_MAX
    ensures InSegs(segs, x) <==> Reported(b, e, ram, len, imageEnd, x)
  {
    if x < ram {
      AvailableBelow(b, e, ram, len, imageEnd, w, segs, x);
    } else {
      AvailableExactly(b, e, ram, len, imageEnd, w, segs, x);
    }
  }

  /** No address below the RAM is left open behind a reserved one. */
  ghost predicate NoHoleBelow(b: seq<nat>, e: seq<nat>, ram: nat, imageEnd: nat)
    requires |b| == |e|
  {
    forall x: nat | x < ram && BehindReserved(b, e, ram, imageEnd, x) :: Reserved(b, e, ram, imageEnd, x)
  }

  /** The segments lie inside the RAM exactly when there is no such hole. */
  lemma SegmentsInRam(b: seq<nat>, e: seq<nat>, ram: nat, len: nat, imageEnd: nat, w: Job, segs: seq<Segment>)
    requires Result(b, e, ram, len, imageEnd, w, segs)
    ensures (forall x: nat | x < U64_MAX && InSegs(segs, x) :: ram <= x < Down(ram + len)) <==>
            NoHoleBelow(b, e, ram, imageEnd)
  {
    forall x: nat | x < U64_MAX
      ensures x < ram ==>
                (InSegs(segs, x) <==> !Reserved(b, e, ram, imageEnd, x) && BehindReserved(b, e, ram, imageEnd, x))
      ensures x >= ram && InSegs(segs, x) ==> x < Down(ram + len)
    {
      if x < ram {
        AvailableBelow(b, e, ram, len, imageEnd, w, segs, x);
      } else {
        AvailableExactly(b, e, ram, len, imageEnd, w, segs, x);
      }
    }
  }

  /** There is none if every reserved range begins in the RAM. */
  lemma RangesInRam(b: seq<nat>, e: seq<nat>, ram: nat, imageEnd: nat)
    requires |b| == |e| && ram <= imageEnd && forall i | 0 <= i < |b| :: Down(ram) <= b[i]
    ensures NoHoleBelow(b, e, ram, imageEnd)
  {
    forall x: nat | x < ram && BehindReserved(b, e, ram, imageEnd, x) ensures Reserved(b, e, ram, imageEnd, x) {
      var y: nat :| y < x && Reserved(b, e, ram, imageEnd, y);
      BeforeRam(b, e, ram, imageEnd, y);
      RoundFacts(imageEnd);
    }
  }

  lemma BeforeRam(b: seq<nat>, e: seq<nat>, ram: nat, imageEnd: nat, y: nat)
    requires |b| == |e| && Reserved(b, e, ram, imageEnd, y) && forall i | 0 <= i < |b| :: Down(ram) <= b[i]
    ensures Down(ram) <= y
  {
    if i :| 0 <= i < |b| && Down(b[i]) <= y < Up(e[i]) {
      DownMono(Down(ram), b[i]);
      RoundFacts(ram);
    }
  }

  lemma DownMono(x: nat, y: nat)
    requires x <= y
    ensures Down(x) <= Down(y) && (x % PAGE_SIZE == 0 ==> Down(x) == x)
  {
  }

  /** The segments consist of whole pages. */
  lemma SegmentsArePages(b: seq<nat>, e: seq<nat>, ram: nat, len: nat, imageEnd: nat, w: Job, segs: seq<Segment>,
                         k: nat)
    requires Result(b, e, ram, len, imageEnd, w, segs) && ram < imageEnd && k < |segs|
    ensures segs[k].begin % PAGE_SIZE == 0 && segs[k].len % PAGE_SIZE == 0
  {
    var g := segs[k];
    assert SegOk(w, g);
    BeginAligned(b, e, ram, len, imageEnd, w, g.begin + g.len);
    if g.begin == ram {
      RoundFacts(ram);
      RoundFacts(imageEnd);
      assert InSegment(segs[k], ram);
      AvailableExactly(b, e, ram, len, imageEnd, w, segs, ram);
      assert false;
    }
    EndAligned(b, e, ram, len, imageEnd, w, g.begin);
    Difference(g.begin, g.len);
  }

  /** No segment reaches beyond the end of the RAM. */
  lemma SegmentEnd(b: seq<nat>, e: seq<nat>, ram: nat, len: nat, imageEnd: nat, w: Job, segs: seq<Segment>, k: nat)
    requires Result(b, e, ram, len, imageEnd, w, segs) && k < |segs|
    ensures segs[k].begin + segs[k].len <= ram + len
  {
    var g := segs[k];
    assert SegOk(w, g);
    BeginAligned(b, e, ram, len, imageEnd, w, g.begin + g.len);
    var x := g.begin + g.len - 1;
    assert InSegment(segs[k], x);
    if x >= ram {
      AvailableExactly(b, e, ram, len, imageEnd, w, segs, x);
      RoundFacts(ram + len);
    }
  }

  lemma Difference(x: nat, l: nat)
    requires x % PAGE_SIZE == 0 && (x + l) % PAGE_SIZE == 0
    ensures l % PAGE_SIZE == 0
  {
  }

  lemma BeginAligned(b: seq<nat>, e: seq<nat>, ram: nat, len: nat, imageEnd: nat, w: Job, p: nat)
    requires Sane(b, e, ram, len, imageEnd) && Shuffled(w) && w.bs == Begins(b, ram, len) && p in w.b
    ensures p % PAGE_SIZE == 0 && p < U64_MAX
  {
    assert p in multiset(w.b);
    assert p in multiset(w.bs);
    var i :| 0 <= i < |w.bs| && w.bs[i] == p;
    RoundFacts(if i < |b| then b[i] else if i == |b| then ram else ram + len);
  }

  lemma EndAligned(b: seq<nat>, e: seq<nat>, ram: nat, len: nat, imageEnd: nat, w: Job, p: nat)
    requires Sane(b, e, ram, len, imageEnd) && Shuffled(w) && w.es == Ends(e, imageEnd) && p in w.e && p < U64_MAX
    ensures p % PAGE_SIZE == 0
  {
    assert p in multiset(w.e);
    assert p in multiset(w.es);
    var i :| 0 <= i < |w.es| && w.es[i] == p;
    RoundFacts(if i < |e| then e[i] else imageEnd);
  }

  /** With a reserved range below the RAM, memory below the RAM is reported available. */
  lemma SegmentBelowRam(w: Job, segs: seq<Segment>)
    requires Result([0], [4096], 8192, 8192, 12288, w, segs)
    ensures InSegs(segs, 4096) && 4096 < w.ram && !NoHoleBelow([0], [4096], 8192, 12288)
  {
    var b, e := [0], [4096];
    assert Down(b[0]) <= 0 < Up(e[0]);
    assert Reserved(b, e, 8192, 12288, 0);
    AvailableBelow(b, e, 8192, 8192, 12288, w, segs, 4096);
  }
}
