/** How one page free and one block allocation change the maximal blocks. */
module BuddySteps {
  import opened Blocks

  /** The free list of order `o` holds exactly the maximal blocks of that order. */
  ghost predicate ListOk(m: seq<bool>, o: nat, listed: set<nat>) {
    forall p :: p in listed <==> Maximal(m, o, p)
  }

  ghost predicate PairBit(m: seq<bool>, o: nat, j: nat) {
    Maximal(m, o, PairBase(o, j)) != Maximal(m, o, PairBase(o, j) + Pow2(o))
  }

  /** Each pair bit is the exclusive or of "left buddy listed" and "right buddy listed". */
  ghost predicate PairsOk(m: seq<bool>, o: nat, pairs: seq<bool>) {
    forall j :: 0 <= j < |pairs| ==> pairs[j] == PairBit(m, o, j)
  }

  ghost predicate OrderOk(m: seq<bool>, o: nat, listed: set<nat>, pairs: seq<bool>) {
    ListOk(m, o, listed) && PairsOk(m, o, pairs)
  }

  /** Lists and pair bits are a function of the memory map alone. */
  lemma MapDetermines(m: seq<bool>, o: nat, l1: set<nat>, b1: seq<bool>, l2: set<nat>, b2: seq<bool>)
    requires ListOk(m, o, l1) && PairsOk(m, o, b1)
    requires ListOk(m, o, l2) && PairsOk(m, o, b2)
    requires |b1| == |b2|
    ensures l1 == l2 && b1 == b2
  {
    forall p ensures p in l1 <==> p in l2 {
      assert p in l1 <==> Maximal(m, o, p);
    }
  }

  lemma SamePair(o: nat, p: nat, j: nat)
    requires p == PairBase(o, j) || p == PairBase(o, j) + Pow2(o)
    ensures Shr(p, o + 1) == j
  {
    PairIndex(o, j);
    if p == PairBase(o, j) + Pow2(o) {
      AlignedDown(o, PairBase(o, j));
      ShrBase(o + 1, p);
    }
  }

  lemma {:induction false} ShrBase(n: nat, p: nat)
    ensures Shr(Base(n, p), n) == Shr(p, n)
  {
    if n > 0 {
      ShrBase(n - 1, p / 2);
    }
  }

  /** Listing or unlisting one block flips the bit of its pair and no other. */
  lemma TogglePair(m: seq<bool>, m': seq<bool>, o: nat, pairs: seq<bool>, x: nat)
    requires PairsOk(m, o, pairs) && Aligned(o, x) && Shr(x, o + 1) < |pairs|
    requires Maximal(m', o, x) != Maximal(m, o, x)
    requires forall p :: p != x ==> Maximal(m', o, p) == Maximal(m, o, p)
    ensures PairsOk(m', o, pairs[Shr(x, o + 1) := !pairs[Shr(x, o + 1)]])
  {
    var k := Shr(x, o + 1);
    PairOf(o, x);
    ParentOf(o, x);
    forall j | 0 <= j < |pairs| ensures pairs[k := !pairs[k]][j] == PairBit(m', o, j) {
      if j == k {
        assert x == PairBase(o, k) || x == PairBase(o, k) + Pow2(o);
      } else {
        if x == PairBase(o, j) || x == PairBase(o, j) + Pow2(o) {
          SamePair(o, x, j);
        }
      }
    }
  }

  // ------------------------------------------------------------------ freeing one page

  lemma RunElsewhere(m: seq<bool>, pn: nat, o: nat, p: nat)
    requires pn < |m| && m[pn]
    ensures p <= pn < p + Pow2(o) ==> !FreeRun(m, o, p)
    ensures !(p <= pn < p + Pow2(o)) ==> FreeRun(m[pn := false], o, p) == FreeRun(m, o, p)
  {
    assert forall q :: 0 <= q < |m| && q != pn ==> m[pn := false][q] == m[q];
  }

  lemma MaximalElsewhere(m: seq<bool>, pn: nat, o: nat, p: nat)
    requires pn < |m| && m[pn] && Aligned(o, p)
    requires Base(o + 1, p) != Base(o + 1, pn)
    ensures Maximal(m[pn := false], o, p) == Maximal(m, o, p)
  {
    var par := Base(o + 1, p);
    BaseBounds(o + 1, p);
    if par <= pn < par + Pow2(o + 1) {
      BaseUnique(o + 1, pn, par);
    }
    ParentOf(o, p);
    RunElsewhere(m, pn, o, p);
    RunElsewhere(m, pn, o + 1, par);
  }

  /** The two blocks of the pair around the freed page. */
  lemma OwnPair(pn: nat, o: nat, p: nat)
    requires Aligned(o, p) && Base(o + 1, p) == Base(o + 1, pn)
    ensures p == Base(o, pn) || p == Flip(o, Base(o, pn))
  {
    BaseBounds(o, pn);
    BaseUp(o, pn);
    ParentOf(o, p);
    ParentOf(o, Base(o, pn));
  }

  /** The buddy is free: the two halves merge and the buddy leaves its list. */
  lemma FreeMerge(m: seq<bool>, pn: nat, o: nat)
    requires pn < |m| && m[pn] && o < TOP
    requires FreeRun(m[pn := false], o, Base(o, pn))
    requires Maximal(m, o, Flip(o, Base(o, pn)))
    ensures forall p :: Maximal(m[pn := false], o, p) <==> Maximal(m, o, p) && p != Flip(o, Base(o, pn))
    ensures FreeRun(m[pn := false], o + 1, Base(o + 1, pn))
  {
    var m', cur := m[pn := false], Base(o, pn);
    var bud := Flip(o, cur);
    BaseBounds(o, pn);
    BaseUp(o, pn);
    ParentOf(o, cur);
    RunElsewhere(m, pn, o, bud);
    RunElsewhere(m, pn, o, cur);
    Halves(m', o, Base(o + 1, pn));
    forall p ensures Maximal(m', o, p) <==> Maximal(m, o, p) && p != bud {
      if Aligned(o, p) {
        if Base(o + 1, p) == Base(o + 1, pn) {
          OwnPair(pn, o, p);
        } else {
          MaximalElsewhere(m, pn, o, p);
        }
      }
    }
  }

  /** The buddy is in use (or the order is the top one): the block is listed here. */
  lemma FreeStop(m: seq<bool>, pn: nat, o: nat)
    requires pn < |m| && m[pn] && o <= TOP
    requires FreeRun(m[pn := false], o, Base(o, pn))
    requires o < TOP ==> !Maximal(m, o, Flip(o, Base(o, pn)))
    ensures forall p :: Maximal(m[pn := false], o, p) <==> Maximal(m, o, p) || p == Base(o, pn)
    ensures !Maximal(m, o, Base(o, pn))
  {
    var m', cur := m[pn := false], Base(o, pn);
    var bud := Flip(o, cur);
    BaseBounds(o, pn);
    BaseUp(o, pn);
    BaseBounds(o + 1, pn);
    ParentOf(o, cur);
    RunElsewhere(m, pn, o, bud);
    RunElsewhere(m, pn, o, cur);
    RunElsewhere(m, pn, o + 1, Base(o + 1, pn));
    Halves(m', o, Base(o + 1, pn));
    forall p ensures Maximal(m', o, p) <==> Maximal(m, o, p) || p == cur {
      if Aligned(o, p) {
        if Base(o + 1, p) == Base(o + 1, pn) {
          OwnPair(pn, o, p);
        } else {
          MaximalElsewhere(m, pn, o, p);
        }
      }
    }
  }

  /** Above the order where the merging stops nothing changes. */
  lemma FreeAbove(m: seq<bool>, pn: nat, o: nat, o': nat, p: nat)
    requires pn < |m| && m[pn] && o < TOP && o < o' <= TOP
    requires !FreeRun(m[pn := false], o + 1, Base(o + 1, pn))
    ensures Maximal(m[pn := false], o', p) == Maximal(m, o', p)
  {
    var m' := m[pn := false];
    if Aligned(o', p) {
      RunElsewhere(m, pn, o', p);
      RunElsewhere(m, pn, o' + 1, Base(o' + 1, p));
      if p <= pn < p + Pow2(o') {
        BaseUnique(o', pn, p);
        if FreeRun(m', o', p) {
          FreeInside(m', o + 1, o', pn);
        }
      }
      if Base(o' + 1, p) <= pn < Base(o' + 1, p) + Pow2(o' + 1) {
        BaseBounds(o' + 1, p);
        BaseUnique(o' + 1, pn, Base(o' + 1, p));
        if FreeRun(m', o' + 1, Base(o' + 1, p)) {
          FreeInside(m', o + 1, o' + 1, pn);
        }
      }
    }
  }

  // ------------------------------------------------------------------ taking one block

  /** The map after the pages `[t, t + 2^order)` have been marked in use. */
  function Taken(m: seq<bool>, t: nat, order: nat): (r: seq<bool>)
    ensures |r| == |m|
  {
    seq(|m|, i requires 0 <= i < |m| => m[i] || t <= i < t + Pow2(order))
  }

  lemma {:induction false} Pow2Mono(a: nat, b: nat)
    requires a <= b
    ensures Pow2(a) <= Pow2(b)
  {
    if a < b {
      Pow2Mono(a, b - 1);
    }
  }

  lemma {:induction false} AlignedBelow(o: nat, o': nat, p: nat)
    requires o <= o' && Aligned(o', p)
    ensures Aligned(o, p)
  {
    if o < o' {
      AlignedDown(o' - 1, p);
      AlignedBelow(o, o' - 1, p);
    }
  }

  lemma RunAfterTake(m: seq<bool>, t: nat, order: nat, o: nat, p: nat)
    ensures FreeRun(Taken(m, t, order), o, p) <==>
            FreeRun(m, o, p) && (p + Pow2(o) <= t || t + Pow2(order) <= p)
  {
    var m' := Taken(m, t, order);
    if FreeRun(m, o, p) && !(p + Pow2(o) <= t || t + Pow2(order) <= p) {
      var q := if p <= t then t else p;
      assert p + Pow2(o) <= |m| ==> m'[q];
    }
    if FreeRun(m', o, p) {
      forall q | p <= q < p + Pow2(o) ensures !m[q] { assert !m'[q]; }
    }
  }

  /** Aligned blocks of order at least `order` meet the taken block only if they contain it. */
  lemma MeetsAbove(t: nat, order: nat, o: nat, p: nat)
    requires order <= o && Aligned(order, t) && Aligned(o, p)
    ensures p + Pow2(o) <= t || t + Pow2(order) <= p || Base(o, t) == p
  {
    if !(p + Pow2(o) <= t || t + Pow2(order) <= p) {
      var q := if p <= t then t else p;
      BaseUnique(o, q, p);
      BaseUnique(order, q, t);
      Nested(order, o, q);
    }
  }

  lemma TakeAbove(m: seq<bool>, t: nat, order: nat, co: nat, o: nat, p: nat)
    requires order <= co <= TOP && Maximal(m, co, t) && co < o <= TOP
    ensures Maximal(Taken(m, t, order), o, p) == Maximal(m, o, p)
  {
    if Aligned(o, p) {
      AlignedBelow(order, co, t);
      RunStill(m, t, order, co, o, p);
      BaseBounds(o + 1, p);
      RunStill(m, t, order, co, o + 1, Base(o + 1, p));
    }
  }

  lemma RunStill(m: seq<bool>, t: nat, order: nat, co: nat, o: nat, p: nat)
    requires order <= co <= TOP && Maximal(m, co, t) && co < o && (o <= TOP || co < TOP)
    requires Aligned(order, t) && Aligned(o, p)
    ensures FreeRun(Taken(m, t, order), o, p) == FreeRun(m, o, p)
  {
    RunAfterTake(m, t, order, o, p);
    MeetsAbove(t, order, o, p);
    if FreeRun(m, o, p) && Base(o, t) == p {
      FreeInside(m, co + 1, o, t);
    }
  }

  lemma TakeAt(m: seq<bool>, t: nat, order: nat, co: nat, p: nat)
    requires order <= co <= TOP && Maximal(m, co, t)
    ensures Maximal(Taken(m, t, order), co, p) <==> Maximal(m, co, p) && p != t
  {
    if Aligned(co, p) {
      AlignedBelow(order, co, t);
      Pow2Mono(order, co);
      RunAfterTake(m, t, order, co, p);
      MeetsAbove(t, order, co, p);
      if co < TOP {
        BaseBounds(co + 1, p);
        RunStill(m, t, order, co, co + 1, Base(co + 1, p));
      }
    }
  }

  /** Between the two orders exactly the right halves split off become listed. */
  lemma TakeBetween(m: seq<bool>, t: nat, order: nat, co: nat, o: nat, p: nat)
    requires order <= o < co <= TOP && Maximal(m, co, t)
    ensures Maximal(Taken(m, t, order), o, p) <==> Maximal(m, o, p) || p == t + Pow2(o)
    ensures !Maximal(m, o, t + Pow2(o)) && Aligned(o, t + Pow2(o))
  {
    AlignedBelow(o + 1, co, t);
    AlignedDown(o, t);
    AlignedBelow(order, co, t);
    Pow2Mono(order, o);
    Pow2Mono(o + 1, co);
    assert FreeRun(m, o + 1, t);
    if p == t + Pow2(o) {
      Halves(m, o, t);
      RunAfterTake(m, t, order, o, p);
      RunAfterTake(m, t, order, o + 1, t);
    } else if Aligned(o, p) {
      var par := Base(o + 1, p);
      ParentOf(o, p);
      BaseBounds(o + 1, p);
      RunAfterTake(m, t, order, o, p);
      RunAfterTake(m, t, order, o + 1, par);
      MeetsAbove(t, order, o, p);
      MeetsAbove(t, order, o + 1, par);
    }
  }

  lemma TakeBelow(m: seq<bool>, t: nat, order: nat, co: nat, o: nat, p: nat)
    requires o < order <= co <= TOP && Maximal(m, co, t)
    ensures Maximal(Taken(m, t, order), o, p) == Maximal(m, o, p)
  {
    AlignedBelow(order, co, t);
    Pow2Mono(order, co);
    if Aligned(o, p) {
      var par := Base(o + 1, p);
      BaseBounds(o + 1, p);
      ParentOf(o, p);
      RunAfterTake(m, t, order, o, p);
      RunAfterTake(m, t, order, o + 1, par);
      if Base(order, par) == t {
        Nested(o + 1, order, par);
        assert t <= par && par + Pow2(o + 1) <= t + Pow2(order);
        assert FreeRun(m, o + 1, par);
      } else {
        MeetsAbove(par, o + 1, order, t);
      }
    }
  }
}
