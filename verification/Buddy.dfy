/** The buddy page manager of kernel/memory/buddy.c. */
module Buddy {
  import opened Blocks
  import opened BuddySteps
  import Bitmap
  import Links
  import opened Addr
  import opened Arith

  datatype AllocResult = Panic | Null | Page(addr: nat)
  datatype FreeResult = Freed | FreePanic

  /** `free_area_map_size` as kmem_page_manager_init computes it. */
  function AreaBytes(n: nat, o: nat): nat {
    (Shr(n, o + 1) + 7) / 8
  }

  /** The pair bits of order `o` reach every order-`o` block inside `n` pages. */
  ghost predicate Covers(n: nat, o: nat, bits: nat) {
    forall p: nat :: Aligned(o, p) && p + Pow2(o) <= n ==> Shr(p, o + 1) < bits
  }

  /** What `n` has to satisfy for the rounded-down map of order `o` to be large enough. */
  predicate AreaFits(n: nat, o: nat) {
    Shr(n, o) % 2 == 1 ==> Shr(n, o + 1) % 8 != 0
  }

  /** The pair map of order `o` is large enough exactly under `AreaFits`. */
  lemma AreaCovers(n: nat, o: nat)
    ensures Covers(n, o, 8 * AreaBytes(n, o)) <==> AreaFits(n, o)
  {
    ShrHalf(n, o);
    if AreaFits(n, o) {
      forall p: nat | Aligned(o, p) && p + Pow2(o) <= n ensures Shr(p, o + 1) < 8 * AreaBytes(n, o) {
        ShrMono(p + Pow2(o), n, o);
        ShrNext(p, o);
        ShrHalf(p, o);
      }
    } else {
      var p := Base(o, n) - Pow2(o);
      LastBlock(n, o);
      ShrHalf(p, o);
    }
  }

  /** It is not always: of 17 pages, the last one is a block of order 0 whose pair has index 8, in a
      map of 8 bits. */
  lemma AreaTooSmall()
    ensures AreaBytes(17, 0) == 1 && Aligned(0, 16) && 16 + Pow2(0) <= 17 && Shr(16, 1) == 8 * AreaBytes(17, 0)
    ensures !Covers(17, 0, 8 * AreaBytes(17, 0)) && !AreaFits(17, 0)
  {
    assert Shr(17, 1) == 8 && Shr(8, 0) == 8 && Shr(17, 0) == 17;
    AreaCovers(17, 0);
  }

  lemma {:induction false} ShrHalf(p: nat, n: nat)
    ensures Shr(p, n + 1) == Shr(p, n) / 2
  {
    if n > 0 {
      ShrHalf(p / 2, n - 1);
    }
  }

  lemma {:induction false} ShrMono(p: nat, q: nat, n: nat)
    requires p <= q
    ensures Shr(p, n) <= Shr(q, n)
  {
    if n > 0 {
      ShrMono(p / 2, q / 2, n - 1);
    }
  }

  lemma {:induction false} ShrNext(p: nat, n: nat)
    requires Aligned(n, p)
    ensures Shr(p + Pow2(n), n) == Shr(p, n) + 1
  {
    if n > 0 {
      ShrNext(p / 2, n - 1);
    }
  }

  /** The last whole block of order `o` below `n`, when there is one. */
  lemma {:induction false} LastBlock(n: nat, o: nat)
    requires Shr(n, o) > 0
    ensures Base(o, n) >= Pow2(o) && Base(o, n) <= n
    ensures Aligned(o, Base(o, n) - Pow2(o)) && Shr(Base(o, n) - Pow2(o), o) == Shr(n, o) - 1
  {
    if o > 0 {
      LastBlock(n / 2, o - 1);
    }
  }

  /** Orders below `dep` are already right for `m'`, the others still for `m`. */
  ghost predicate Mixed(m: seq<bool>, m': seq<bool>, dep: nat, lists: seq<set<nat>>, pairs: seq<seq<bool>>) {
    && |lists| == |pairs| == MAX_ORDER
    && (forall o | 0 <= o < dep && o < MAX_ORDER :: OrderOk(m', o, lists[o], pairs[o]))
    && (forall o | dep <= o < MAX_ORDER :: OrderOk(m, o, lists[o], pairs[o]))
  }

  ghost function Toggled(pairs: seq<bool>, i: nat): seq<bool>
    requires i < |pairs|
  {
    pairs[i := !pairs[i]]
  }

  /** The block around page `pn`, its buddy, and the pair the two make. */
  lemma PairFacts(o: nat, pn: nat)
    ensures Base(o, pn) <= pn < Base(o, pn) + Pow2(o)
    ensures Aligned(o, Base(o, pn)) && Aligned(o, Blocks.Flip(o, Base(o, pn)))
    ensures Shr(Base(o, pn), o + 1) == Shr(Blocks.Flip(o, Base(o, pn)), o + 1) == Shr(pn, o + 1)
    ensures var b := PairBase(o, Shr(pn, o + 1));
            || (Base(o, pn) == b && Blocks.Flip(o, Base(o, pn)) == b + Pow2(o))
            || (Base(o, pn) == b + Pow2(o) && Blocks.Flip(o, Base(o, pn)) == b)
  {
    var cur := Base(o, pn);
    BaseBounds(o, pn);
    BaseUp(o, pn);
    ParentOf(o, cur);
    PairOf(o, pn);
    SamePair(o, cur, Shr(pn, o + 1));
    SamePair(o, Blocks.Flip(o, cur), Shr(pn, o + 1));
  }

  /** The pair bit tells whether the buddy is free. */
  lemma PairBitMeaning(m: seq<bool>, pn: nat, o: nat, pairs: seq<bool>)
    requires pn < |m| && m[pn] && o <= TOP && PairsOk(m, o, pairs) && Covers(|m|, o, |pairs|)
    requires FreeRun(m[pn := false], o, Base(o, pn))
    ensures Shr(Base(o, pn), o + 1) == Shr(pn, o + 1) < |pairs|
    ensures pairs[Shr(pn, o + 1)] == Maximal(m, o, Blocks.Flip(o, Base(o, pn)))
  {
    PairFacts(o, pn);
    RunElsewhere(m, pn, o, Base(o, pn));
    assert pairs[Shr(pn, o + 1)] == PairBit(m, o, Shr(pn, o + 1));
  }

  lemma MergeKeeps(m: seq<bool>, pn: nat, o: nat, lists: seq<set<nat>>, pairs: seq<seq<bool>>)
    requires pn < |m| && m[pn] && o < TOP && Mixed(m, m[pn := false], o, lists, pairs) && Covers(|m|, o, |pairs[o]|)
    requires FreeRun(m[pn := false], o, Base(o, pn))
    requires Shr(pn, o + 1) < |pairs[o]| && pairs[o][Shr(pn, o + 1)]
    ensures Blocks.Flip(o, Base(o, pn)) in lists[o]
    ensures FreeRun(m[pn := false], o + 1, Base(o + 1, pn))
    ensures Mixed(m, m[pn := false], o + 1, lists[o := lists[o] - {Blocks.Flip(o, Base(o, pn))}],
                  pairs[o := Toggled(pairs[o], Shr(pn, o + 1))])
  {
    PairBitMeaning(m, pn, o, pairs[o]);
    FreeMerge(m, pn, o);
    PairFacts(o, pn);
    TogglePair(m, m[pn := false], o, pairs[o], Blocks.Flip(o, Base(o, pn)));
  }

  lemma StopKeeps(m: seq<bool>, pn: nat, o: nat, lists: seq<set<nat>>, pairs: seq<seq<bool>>)
    requires pn < |m| && m[pn] && o <= TOP && Mixed(m, m[pn := false], o, lists, pairs) && Covers(|m|, o, |pairs[o]|)
    requires FreeRun(m[pn := false], o, Base(o, pn))
    requires Shr(pn, o + 1) < |pairs[o]| && (o < TOP ==> !pairs[o][Shr(pn, o + 1)])
    ensures Mixed(m, m[pn := false], MAX_ORDER, lists[o := lists[o] + {Base(o, pn)}],
                  pairs[o := Toggled(pairs[o], Shr(pn, o + 1))])
  {
    var m', cur := m[pn := false], Base(o, pn);
    PairBitMeaning(m, pn, o, pairs[o]);
    FreeStop(m, pn, o);
    PairFacts(o, pn);
    TogglePair(m, m', o, pairs[o], cur);
    forall d, p: nat | o < d < MAX_ORDER ensures Maximal(m', d, p) == Maximal(m, d, p) {
      StopBelowParent(m, pn, o);
      FreeAbove(m, pn, o, d, p);
    }
  }

  lemma StopBelowParent(m: seq<bool>, pn: nat, o: nat)
    requires pn < |m| && m[pn] && o < TOP
    requires FreeRun(m[pn := false], o, Base(o, pn)) && !Maximal(m, o, Blocks.Flip(o, Base(o, pn)))
    ensures !FreeRun(m[pn := false], o + 1, Base(o + 1, pn))
  {
    var m', cur := m[pn := false], Base(o, pn);
    BaseBounds(o, pn);
    BaseBounds(o + 1, pn);
    BaseUp(o, pn);
    ParentOf(o, cur);
    Halves(m', o, Base(o + 1, pn));
    RunElsewhere(m, pn, o, Blocks.Flip(o, cur));
    RunElsewhere(m, pn, o + 1, Base(o + 1, pn));
  }

  /** The block to be listed is in no list yet. */
  lemma Unlisted(m: seq<bool>, pn: nat, o: nat, lists: seq<set<nat>>, pairs: seq<seq<bool>>)
    requires pn < |m| && m[pn] && o <= TOP && Mixed(m, m[pn := false], o, lists, pairs)
    requires FreeRun(m[pn := false], o, Base(o, pn))
    ensures Absent(lists, Base(o, pn))
  {
    var m', cur := m[pn := false], Base(o, pn);
    BaseBounds(o, pn);
    var top := MaximalAround(m', o, pn);
    Nested(o, top, pn);
    forall d | 0 <= d < |lists| ensures cur !in lists[d] {
      if d < o {
        if Maximal(m', d, cur) {
          MaximalDisjoint(m', d, cur, top, Base(top, pn), cur);
        }
      } else {
        Pow2Mono(o, d);
        RunElsewhere(m, pn, d, cur);
      }
    }
  }

  ghost predicate AllOk(m: seq<bool>, lists: seq<set<nat>>, pairs: seq<seq<bool>>) {
    && |lists| == |pairs| == MAX_ORDER
    && forall o | 0 <= o < MAX_ORDER :: OrderOk(m, o, lists[o], pairs[o])
  }

  /** Half way through splitting the maximal block at `t` (of order `co`) for a request of
      order `order`: orders above `ord` are final, orders below untouched, and order `ord`
      still lists the part starting at `t`, which will be split further or handed out. */
  ghost predicate Splitting(m: seq<bool>, t: nat, order: nat, ord: nat, lists: seq<set<nat>>, pairs: seq<seq<bool>>) {
    var m' := Taken(m, t, order);
    && |lists| == |pairs| == MAX_ORDER && ord < MAX_ORDER
    && (forall o | ord < o < MAX_ORDER :: OrderOk(m', o, lists[o], pairs[o]))
    && (forall o | 0 <= o < ord :: OrderOk(m, o, lists[o], pairs[o]))
    && t in lists[ord] && ListOk(m', ord, lists[ord] - {t}) && PairsOk(m, ord, pairs[ord])
  }

  lemma SplitStart(m: seq<bool>, t: nat, order: nat, co: nat, lists: seq<set<nat>>, pairs: seq<seq<bool>>)
    requires AllOk(m, lists, pairs) && order <= co <= TOP && Maximal(m, co, t)
    ensures Splitting(m, t, order, co, lists, pairs)
  {
    forall p: nat { TakeAt(m, t, order, co, p); }
    forall o, p: nat | co < o < MAX_ORDER { TakeAbove(m, t, order, co, o, p); }
  }

  /** Unlisting the part at `t` flips its pair bit. */
  lemma SplitToggle(m: seq<bool>, t: nat, order: nat, co: nat, ord: nat, pairs: seq<bool>)
    requires order <= ord <= co <= TOP && Maximal(m, co, t) && |m| > 0
    requires PairsOk(m, ord, pairs) && Covers(|m|, ord, |pairs|)
    ensures Shr(t, ord + 1) < |pairs| && PairsOk(Taken(m, t, order), ord, Toggled(pairs, Shr(t, ord + 1)))
  {
    AlignedBelow(ord, co, t);
    Pow2Mono(ord, co);
    if ord == co {
      forall p: nat { TakeAt(m, t, order, co, p); }
      TogglePair(m, Taken(m, t, order), ord, pairs, t);
    } else {
      forall p: nat { TakeBetween(m, t, order, co, ord, p); }
      AlignedBelow(ord + 1, co, t);
      AlignedDown(ord, t);
      ShrBase(ord + 1, t + Pow2(ord));
      TogglePair(m, Taken(m, t, order), ord, pairs, t + Pow2(ord));
    }
  }

  /** The list one order below, once it holds the right half. */
  lemma SplitNewList(m: seq<bool>, t: nat, order: nat, co: nat, o: nat, listed: set<nat>)
    requires order <= o < co <= TOP && Maximal(m, co, t) && ListOk(m, o, listed)
    ensures t !in listed && ListOk(Taken(m, t, order), o, listed + {t + Pow2(o)})
  {
    NotListedBelow(m, t, co, o);
    forall p: nat { TakeBetween(m, t, order, co, o, p); }
  }

  lemma SplitStep(m: seq<bool>, t: nat, order: nat, co: nat, ord: nat, lists: seq<set<nat>>, pairs: seq<seq<bool>>)
    requires order < ord <= co <= TOP && Maximal(m, co, t)
    requires Splitting(m, t, order, ord, lists, pairs) && Covers(|m|, ord, |pairs[ord]|)
    ensures Shr(t, ord + 1) < |pairs[ord]|
    ensures Splitting(m, t, order, ord - 1,
                      SplitLists(lists, ord, t, t + Pow2(ord - 1)),
                      pairs[ord := Toggled(pairs[ord], Shr(t, ord + 1))])
  {
    SplitToggle(m, t, order, co, ord, pairs[ord]);
    assert OrderOk(m, ord - 1, lists[ord - 1], pairs[ord - 1]);
    SplitNewList(m, t, order, co, ord - 1, lists[ord - 1]);
    var pair := Toggled(pairs[ord], Shr(t, ord + 1));
    var ls, ps := SplitLists(lists, ord, t, t + Pow2(ord - 1)), pairs[ord := pair];
    SplitListsBelow(lists, ord, t);
    forall o | ord - 1 < o < MAX_ORDER ensures OrderOk(Taken(m, t, order), o, ls[o], ps[o]) {
      assert o == ord || OrderOk(Taken(m, t, order), o, lists[o], pairs[o]);
    }
    forall o | 0 <= o < ord - 1 ensures OrderOk(m, o, ls[o], ps[o]) {
      assert OrderOk(m, o, lists[o], pairs[o]);
    }
  }

  lemma HalfInside(m: seq<bool>, t: nat, co: nat, ord: nat)
    requires 0 < ord <= co && FreeRun(m, co, t)
    ensures t + Pow2(ord - 1) < |m|
  {
    Pow2Mono(ord, co);
  }

  lemma SplitListsBelow(lists: seq<set<nat>>, ord: nat, t: nat)
    requires 0 < ord < |lists| && t !in lists[ord - 1]
    ensures SplitLists(lists, ord, t, t + Pow2(ord - 1))[ord - 1] - {t} == lists[ord - 1] + {t + Pow2(ord - 1)}
    ensures t in SplitLists(lists, ord, t, t + Pow2(ord - 1))[ord - 1]
  {
  }

  lemma NotListedBelow(m: seq<bool>, t: nat, co: nat, o: nat)
    requires o < co <= TOP && Maximal(m, co, t)
    ensures !Maximal(m, o, t)
  {
    if Maximal(m, o, t) {
      MaximalDisjoint(m, o, t, co, t, t);
    }
  }

  lemma SplitEnd(m: seq<bool>, t: nat, order: nat, co: nat, lists: seq<set<nat>>, pairs: seq<seq<bool>>)
    requires order <= co <= TOP && Maximal(m, co, t)
    requires Splitting(m, t, order, order, lists, pairs) && Covers(|m|, order, |pairs[order]|)
    ensures Shr(t, order + 1) < |pairs[order]|
    ensures AllOk(Taken(m, t, order), lists[order := lists[order] - {t}],
                  pairs[order := Toggled(pairs[order], Shr(t, order + 1))])
  {
    SplitToggle(m, t, order, co, order, pairs[order]);
    forall o, p: nat | 0 <= o < order { TakeBelow(m, t, order, co, o, p); }
  }

  /** The right half about to be listed is in no list yet. */
  lemma RightUnlisted(m: seq<bool>, t: nat, order: nat, co: nat, ord: nat, lists: seq<set<nat>>, pairs: seq<seq<bool>>)
    requires order < ord <= co <= TOP && Maximal(m, co, t)
    requires Splitting(m, t, order, ord, lists, pairs)
    ensures AbsentBut(lists, t, t + Pow2(ord - 1))
  {
    var m', r := Taken(m, t, order), t + Pow2(ord - 1);
    Pow2Mono(ord, co);
    TakeBetween(m, t, order, co, ord - 1, r);
    forall d | 0 <= d < |lists| ensures r !in lists[d] - {t} {
      if d < ord {
        if Maximal(m, d, r) {
          MaximalDisjoint(m, d, r, co, t, r);
        }
      } else if r in lists[d] {
        assert Maximal(m', d, r);
        MaximalDisjoint(m', ord - 1, r, d, r, r);
      }
    }
  }

  lemma SplitTurn(m: seq<bool>, t: nat, order: nat, co: nat, ord: nat, right: nat, lists: seq<set<nat>>,
                  pairs: seq<seq<bool>>)
    requires order < ord <= co <= TOP && Maximal(m, co, t) && right == t + Pow2(ord - 1)
    requires Splitting(m, t, order, ord, lists, pairs) && Covers(|m|, ord, |pairs[ord]|)
    ensures Shr(t, ord + 1) < |pairs[ord]| && t in lists[ord] && t < right < |m| && AbsentBut(lists, t, right)
    ensures Splitting(m, t, order, ord - 1, SplitLists(lists, ord, t, right),
                      pairs[ord := Toggled(pairs[ord], Shr(t, ord + 1))])
  {
    SplitStep(m, t, order, co, ord, lists, pairs);
    RightUnlisted(m, t, order, co, ord, lists, pairs);
    HalfInside(m, t, co, ord);
  }

  /** Page `p` is the first node behind the head of list `c`. */
  ghost predicate HeadOf(chains: seq<seq<nat>>, c: nat, p: int) {
    c < |chains| && |chains[c]| > 1 && chains[c][1] == p
  }

  /** The maximal block around `pn` stands first in the list of its order. */
  ghost predicate InFront(m: seq<bool>, chains: seq<seq<nat>>, o: nat, pn: nat) {
    o < MAX_ORDER && Maximal(m, o, Base(o, pn)) && HeadOf(chains, o, Base(o, pn))
  }

  ghost predicate MergedInFront(m: seq<bool>, chains: seq<seq<nat>>, pn: nat) {
    exists o: nat :: InFront(m, chains, o, pn)
  }

  lemma LinkedInFront(m: seq<bool>, chains: seq<seq<nat>>, o: nat, pn: nat, lists: seq<set<nat>>, pairs: seq<seq<bool>>)
    requires AllOk(m, lists, pairs) && o < MAX_ORDER && Base(o, pn) in lists[o] && HeadOf(chains, o, Base(o, pn))
    ensures MergedInFront(m, chains, pn)
  {
    assert OrderOk(m, o, lists[o], pairs[o]);
    assert InFront(m, chains, o, pn);
  }

  /** The block handed out for `order` is the first one listed of the smallest order that has any. */
  ghost predicate TakenFirst(m: seq<bool>, chains: seq<seq<nat>>, order: nat, p: nat) {
    exists c: nat :: BestFit(m, order, c, p) && HeadOf(chains, c, p)
  }

  /** The first list from `order` up that is not empty holds the best fit. */
  lemma FirstListed(m: seq<bool>, order: nat, c: nat, page: nat, lists: seq<set<nat>>, pairs: seq<seq<bool>>)
    requires AllOk(m, lists, pairs) && order <= c < MAX_ORDER && page in lists[c]
    requires forall o | order <= o < c :: lists[o] == {}
    ensures BestFit(m, order, c, page)
  {
    assert OrderOk(m, c, lists[c], pairs[c]);
    forall o, p: nat | order <= o < c ensures !Maximal(m, o, p) {
      assert OrderOk(m, o, lists[o], pairs[o]);
    }
  }

  /** Empty lists from `order` up mean that no aligned run of that order is free. */
  lemma NoRun(m: seq<bool>, order: nat, lists: seq<set<nat>>, pairs: seq<seq<bool>>)
    requires AllOk(m, lists, pairs) && order <= TOP
    requires forall o | order <= o < MAX_ORDER :: lists[o] == {}
    ensures forall p: nat | Aligned(order, p) :: !FreeRun(m, order, p)
  {
    forall o, p: nat | order <= o < MAX_ORDER ensures !Maximal(m, o, p) {
      assert OrderOk(m, o, lists[o], pairs[o]);
    }
    forall p: nat | Aligned(order, p) ensures !FreeRun(m, order, p) {
      if FreeRun(m, order, p) {
        var _ := MaximalAround(m, order, p);
      }
    }
  }

  lemma RunWithin(m: seq<bool>, o: nat, o': nat, p: nat)
    requires o <= o' && FreeRun(m, o', p)
    ensures FreeRun(m, o, p)
  {
    Pow2Mono(o, o');
  }

  /** The free lists after the block at `page` moved from list `ord` to the list below, as two halves. */
  ghost function SplitLists(lists: seq<set<nat>>, ord: nat, page: nat, right: nat): seq<set<nat>>
    requires 0 < ord < |lists|
  {
    lists[ord := lists[ord] - {page}][ord - 1 := lists[ord - 1] + {page} + {right}]
  }

  lemma SplitInSteps(ls: seq<set<nat>>, ord: nat, page: nat, right: nat, l1: seq<set<nat>>, l2: seq<set<nat>>,
                     l3: seq<set<nat>>)
    requires 0 < ord < |ls|
    requires l1 == ls[ord := ls[ord] - {page}]
    requires l2 == l1[ord - 1 := l1[ord - 1] + {page}]
    requires l3 == l2[ord - 1 := l2[ord - 1] + {right}]
    ensures l3 == SplitLists(ls, ord, page, right)
  {
    assert l2[ord - 1] == ls[ord - 1] + {page};
    assert l3[ord - 1] == SplitLists(ls, ord, page, right)[ord - 1];
  }

  /** No list holds page `x`. */
  ghost predicate Absent(lists: seq<set<nat>>, x: nat) {
    forall d | 0 <= d < |lists| :: x !in lists[d]
  }

  ghost predicate AbsentBut(lists: seq<set<nat>>, page: nat, x: nat) {
    forall d | 0 <= d < |lists| :: x !in lists[d] - {page}
  }

  lemma AbsentAfterSplit(l0: seq<set<nat>>, l1: seq<set<nat>>, l2: seq<set<nat>>, ord: nat, page: nat, x: nat)
    requires 0 < ord < |l0| && x != page && AbsentBut(l0, page, x)
    requires l1 == l0[ord := l0[ord] - {page}] && l2 == l1[ord - 1 := l1[ord - 1] + {page}]
    ensures Absent(l2, x)
  {
  }

  ghost function Nodes(chain: seq<nat>): set<nat>
    requires |chain| > 0
  {
    set x | x in chain[1..]
  }

  lemma NodesAfterInsert(chain: seq<nat>, x: nat)
    requires |chain| > 0
    ensures Nodes(Links.InsertAt(chain, 1, x)) == Nodes(chain) + {x}
  {
    assert Links.InsertAt(chain, 1, x)[1..] == [x] + chain[1..];
  }

  lemma NodesAfterRemove(chain: seq<nat>, i: nat)
    requires Links.Distinct(chain) && 0 < i < |chain|
    ensures Nodes(Links.RemoveAt(chain, i)) == Nodes(chain) - {chain[i]}
  {
    assert Links.RemoveAt(chain, i)[1..] == chain[1..i] + chain[i + 1..];
    assert chain[1..] == chain[1..i] + [chain[i]] + chain[i + 1..];
  }

  /** The map after the pages `[p, p + count)` have been released. */
  function Released(m: seq<bool>, p: int, count: nat): (r: seq<bool>)
    ensures |r| == |m|
  {
    seq(|m|, i requires 0 <= i < |m| => m[i] && !(p <= i < p + count))
  }

  ghost predicate InUse(m: seq<bool>, p: nat, count: nat) {
    p + count <= |m| && forall q :: p <= q < p + count ==> m[q]
  }

  lemma ReleaseStep(m: seq<bool>, p: nat, i: nat)
    requires p + i < |m|
    ensures Released(m, p, i)[p + i] == m[p + i]
    ensures Released(m, p, i)[p + i := false] == Released(m, p, i + 1)
    ensures InUse(m, p, i + 1) <==> (i > 0 ==> InUse(m, p, i)) && m[p + i]
  {
    if (i > 0 ==> InUse(m, p, i)) && m[p + i] {
      forall q | p <= q < p + i + 1 ensures m[q] {}
    }
  }

  lemma AddrStep(addr: nat, i: nat)
    requires addr % PAGE_SIZE == 0 && Va2Pa(addr) + i * PAGE_SIZE < PMA_LIMIT
    ensures (addr + i * PAGE_SIZE) % PAGE_SIZE == 0
    ensures PpnOf(addr + i * PAGE_SIZE) == PpnOf(addr) + i
  {
    var q, b := addr / PMA_LIMIT, addr % PMA_LIMIT;
    var k := b / PAGE_SIZE;
    DivModIs(addr + i * PAGE_SIZE, PMA_LIMIT, q, b + i * PAGE_SIZE);
    DivModIs(addr + i * PAGE_SIZE, PAGE_SIZE, addr / PAGE_SIZE + i, 0);
    AlignedPart(addr, q, b);
    DivModIs(b + i * PAGE_SIZE, PAGE_SIZE, k + i, 0);
  }

  lemma AlignedPart(addr: nat, q: nat, b: nat)
    requires addr == q * PMA_LIMIT + b && addr % PAGE_SIZE == 0
    ensures b % PAGE_SIZE == 0
  {
    DivModIs(addr, PAGE_SIZE, q * 0x400_0000 + b / PAGE_SIZE, b % PAGE_SIZE);
  }

  /** Only the pages below `k` count; the rest is still to be handed over. */
  ghost function Upto(m: seq<bool>, k: nat): (r: seq<bool>)
    ensures |r| == |m|
  {
    seq(|m|, i requires 0 <= i < |m| => i >= k || m[i])
  }

  lemma UptoStep(m: seq<bool>, k: nat)
    requires k < |m|
    ensures Upto(m, k)[k] && Upto(m, k + 1) == Upto(m, k)[k := m[k]]
    ensures m[k] ==> Upto(m, k + 1) == Upto(m, k)
    ensures !m[k] ==> m[k := true][k := false] == m
  {
  }

  ghost predicate Blank(lists: seq<set<nat>>, pairs: seq<seq<bool>>) {
    && |lists| == |pairs| == MAX_ORDER
    && forall o | 0 <= o < MAX_ORDER :: lists[o] == {} && pairs[o] == ZeroBits(|pairs[o]|)
  }

  lemma NothingListed(m: seq<bool>, lists: seq<set<nat>>, pairs: seq<seq<bool>>)
    requires Blank(lists, pairs)
    ensures AllOk(Upto(m, 0), lists, pairs)
  {
    forall o: nat, p: nat ensures !FreeRun(Upto(m, 0), o, p) {
      assert p < |m| ==> Upto(m, 0)[p];
    }
  }

  /** Zero-filled pair maps, one for each order. */
  method NewAreaMaps(n: nat) returns (maps: seq<Bitmap.Map>, ghost data: set<object>)
    ensures |maps| == MAX_ORDER && fresh(data)
    ensures forall o | 0 <= o < MAX_ORDER :: maps[o].data in data
    ensures forall i, j | 0 <= i < j < MAX_ORDER :: maps[i].data != maps[j].data
    ensures forall o | 0 <= o < MAX_ORDER :: maps[o].Bits() == ZeroBits(8 * AreaBytes(n, o))
  {
    maps, data := [], {};
    var o := 0;
    while o < MAX_ORDER
      invariant 0 <= o == |maps| <= MAX_ORDER
      invariant fresh(data) && forall i | 0 <= i < o :: maps[i].data in data
      invariant forall i, j | 0 <= i < j < o :: maps[i].data != maps[j].data
      invariant forall i | 0 <= i < o :: maps[i].Bits() == ZeroBits(8 * AreaBytes(n, i))
    {
      var a := new Bitmap.Map(AreaBytes(n, o), 0);
      maps, data, o := maps + [a], data + {a.data}, o + 1;
    }
  }

  ghost function ZeroBits(n: nat): seq<bool> {
    seq(n, _ => false)
  }

  class PageManager {
    const beginPpn: nat
    const numPpn: nat
    const memMap: Bitmap.Map
    const areaMaps: seq<Bitmap.Map>
    const lists: Links.Nodes

    // What the three representations hold: the managed part of `mem_map`, the pages in
    // each free list, and the pair bits of each order.
    ghost var mem: seq<bool>
    ghost var listed: seq<set<nat>>
    ghost var pairs: seq<seq<bool>>

    ghost const areaData: set<object>
    ghost const Repr: set<object>

    ghost predicate Objects()
    {
      && |areaMaps| == MAX_ORDER
      && (forall o | 0 <= o < MAX_ORDER :: areaMaps[o].data in areaData)
      && areaData !! {this, memMap.data, lists.nxt, lists.prv, lists}
      && memMap.data as object !in {lists.nxt as object, lists.prv}
      && (forall i, j | 0 <= i < j < MAX_ORDER :: areaMaps[i].data != areaMaps[j].data)
      && Repr == {this, lists, lists.nxt, lists.prv, memMap.data} + areaData
    }

    ghost predicate Shape()
      reads Repr
    {
      && Objects()
      && (beginPpn + numPpn) * PAGE_SIZE <= PMA_LIMIT
      && |mem| == numPpn && mem <= memMap.Bits()
      && |pairs| == |listed| == |lists.chains| == MAX_ORDER
      && (forall o | 0 <= o < MAX_ORDER :: pairs[o] == areaMaps[o].Bits() && Covers(numPpn, o, |pairs[o]|))
      && lists.Valid()
      && lists.nxt.Length == numPpn + MAX_ORDER
      && (forall o | 0 <= o < MAX_ORDER :: lists.chains[o][0] == numPpn + o && listed[o] == Nodes(lists.chains[o]))
    }

    ghost predicate Valid()
      reads this, Repr
    {
      Shape() && AllOk(mem, listed, pairs)
    }

    method Link(o: nat, page: nat)
      requires Shape() && o < MAX_ORDER && page < numPpn
      requires Absent(listed, page)
      modifies this`listed, lists, lists.nxt, lists.prv
      ensures Shape() && HeadOf(lists.chains, o, page)
      ensures listed == old(listed)[o := old(listed[o]) + {page}]
    {
      NodesAfterInsert(lists.chains[o], page);
      lists.Insert(numPpn + o, page, o);
      listed := listed[o := listed[o] + {page}];
    }

    method Unlink(o: nat, page: nat)
      requires Shape() && o < MAX_ORDER && page in listed[o]
      modifies this`listed, lists, lists.nxt, lists.prv
      ensures Shape()
      ensures listed == old(listed)[o := old(listed[o]) - {page}]
      ensures Absent(listed, page)
    {
      ghost var chain := lists.chains[o];
      ghost var i :| 0 < i < |chain| && chain[i] == page;
      NodesAfterRemove(chain, i);
      lists.Detach(page, o, i);
      listed := listed[o := listed[o] - {page}];
    }

    method Flip(o: nat, idx: nat) returns (bit: bool)
      requires Shape() && o < MAX_ORDER && idx < |pairs[o]|
      modifies this`pairs, areaMaps[o].data
      ensures Shape()
      ensures pairs == old(pairs)[o := Toggled(old(pairs[o]), idx)]
      ensures bit == !old(pairs[o][idx])
    {
      bit := areaMaps[o].Toggle(idx);
      pairs := pairs[o := Toggled(pairs[o], idx)];
    }

    /** The coalescing loop of kmem_free_page. */
    method Coalesce(pn: nat, ghost m: seq<bool>)
      requires Shape() && AllOk(m, listed, pairs) && |m| == numPpn && pn < numPpn && m[pn]
      modifies this`listed, this`pairs, lists, lists.nxt, lists.prv, areaData
      ensures Shape() && AllOk(m[pn := false], listed, pairs)
      ensures MergedInFront(m[pn := false], lists.chains, pn)
    {
      ghost var m' := m[pn := false];
      assert FreeRun(m', 0, pn);
      var dep := 0;
      while dep < MAX_ORDER
        invariant 0 <= dep < MAX_ORDER
        invariant Shape()
        invariant FreeRun(m', dep, Base(dep, pn))
        invariant Mixed(m, m', dep, listed, pairs)
      {
        var current := Base(dep, pn);
        var buddy := Blocks.Flip(dep, current);
        ghost var ls, ps := listed, pairs;
        assert Covers(|m|, dep, |ps[dep]|);
        PairBitMeaning(m, pn, dep, ps[dep]);
        var bit := Flip(dep, Shr(current, dep + 1));
        if !bit && dep != MAX_ORDER - 1 {
          MergeKeeps(m, pn, dep, ls, ps);
          Unlink(dep, buddy);
          dep := dep + 1;
        } else {
          StopKeeps(m, pn, dep, ls, ps);
          Unlisted(m, pn, dep, ls, ps);
          BaseBounds(dep, pn);
          Link(dep, current);
          LinkedInFront(m', lists.chains, dep, pn, listed, pairs);
          return;
        }
      }
    }

    /** One turn of the splitting loop: the block leaves list `ord`, its halves enter the list below. */
    method SplitOnce(page: nat, ord: nat, right: nat)
      requires Shape() && 0 < ord < MAX_ORDER && page in listed[ord] && page < right < numPpn
      requires Shr(page, ord + 1) < |pairs[ord]|
      requires AbsentBut(listed, page, right)
      modifies this`listed, this`pairs, lists, lists.nxt, lists.prv, areaMaps[ord].data
      ensures Shape()
      ensures listed == SplitLists(old(listed), ord, page, right)
      ensures pairs == old(pairs)[ord := Toggled(old(pairs[ord]), Shr(page, ord + 1))]
    {
      ghost var l0 := listed;
      Unlink(ord, page);
      ghost var l1 := listed;
      var _ := Flip(ord, Shr(page, ord + 1));
      Link(ord - 1, page);
      ghost var l2 := listed;
      AbsentAfterSplit(l0, l1, l2, ord, page, right);
      Link(ord - 1, right);
      SplitInSteps(l0, ord, page, right, l1, l2, listed);
    }

    /** The splitting loop of kmem_alloc_pages. */
    method SplitDown(page: nat, current: nat, order: nat, ghost m: seq<bool>)
      requires Valid() && m == mem && order <= current < MAX_ORDER && Maximal(m, current, page)
      modifies this`listed, this`pairs, lists, lists.nxt, lists.prv, areaData
      ensures Shape() && Splitting(m, page, order, order, listed, pairs)
    {
      SplitStart(m, page, order, current, listed, pairs);
      for ord := current downto order
        invariant Shape() && Splitting(m, page, order, ord, listed, pairs)
      {
        SplitNext(page, current, order, ord + 1, m);
      }
    }

    /** One turn of it. */
    method SplitNext(page: nat, ghost current: nat, ghost order: nat, ord: nat, ghost m: seq<bool>)
      requires Shape() && Maximal(m, current, page) && order < ord <= current < MAX_ORDER && m == mem
      requires Splitting(m, page, order, ord, listed, pairs)
      modifies this`listed, this`pairs, lists, lists.nxt, lists.prv, areaData
      ensures Shape() && Splitting(m, page, order, ord - 1, listed, pairs)
    {
      var right := page + Pow2(ord - 1);
      assert Covers(numPpn, ord, |pairs[ord]|);
      SplitTurn(m, page, order, current, ord, right, listed, pairs);
      SplitOnce(page, ord, right);
    }

    /** Splits a listed block down to the requested order and unlists the part handed out. */
    method Carve(page: nat, current: nat, order: nat)
      requires Valid() && order <= current < MAX_ORDER && Maximal(mem, current, page)
      modifies this`listed, this`pairs, lists, lists.nxt, lists.prv, areaData
      ensures Shape() && AllOk(Taken(mem, page, order), listed, pairs)
    {
      SplitDown(page, current, order, mem);
      assert Covers(numPpn, order, |pairs[order]|);
      SplitEnd(mem, page, order, current, listed, pairs);
      Unlink(order, page);
      var _ := Flip(order, Shr(page, order + 1));
    }

    /** Index of the managed page at a kernel address. */
    function IndexOf(addr: nat): int {
      PpnOf(addr) - beginPpn
    }

    /** `free_page_list.nxt` of an order. */
    method First(o: nat) returns (p: int)
      requires Shape() && o < MAX_ORDER
      ensures p == Links.NULL <==> listed[o] == {}
      ensures p != Links.NULL ==> p >= 0 && p in listed[o] && HeadOf(lists.chains, o, p)
    {
      ghost var chain := lists.chains[o];
      assert Links.Linked(lists.nxt[..], lists.prv[..], chain);
      assert lists.nxt[..][numPpn + o] == if |chain| > 1 then chain[1] else Links.NULL;
      assert if |chain| > 1 then chain[1] in chain[1..] && chain[1] in listed[o] else listed[o] == {};
      p := lists.nxt[numPpn + o];
    }

    method Mark(pn: nat) returns (was: bool)
      requires Shape() && pn < numPpn
      modifies this`mem, memMap.data
      ensures Shape() && mem == old(mem)[pn := true] && was == old(mem[pn])
    {
      was := memMap.TestAndSet(pn);
      mem := mem[pn := true];
    }

    method Clear(pn: nat) returns (was: bool)
      requires Shape() && pn < numPpn
      modifies this`mem, memMap.data
      ensures Shape() && mem == old(mem)[pn := false] && was == old(mem[pn])
    {
      was := memMap.TestAndClear(pn);
      mem := mem[pn := false];
    }

    /** kmem_alloc_pages. */
    method AllocPages(order: nat) returns (r: AllocResult)
      requires Valid()
      modifies Repr
      ensures Valid()
      ensures r.Panic? <==> order >= MAX_ORDER
      ensures !r.Page? ==> mem == old(mem)
      ensures r.Null? ==> forall p: nat | Aligned(order, p) :: !FreeRun(mem, order, p)
      ensures r.Page? ==>
                && r.addr % PAGE_SIZE == 0 && r.addr == VA_KERNEL_BEGIN + (beginPpn + IndexOf(r.addr)) * PAGE_SIZE
                && IndexOf(r.addr) >= 0
                && Aligned(order, IndexOf(r.addr))
                && FreeRun(old(mem), order, IndexOf(r.addr))
                && mem == Taken(old(mem), IndexOf(r.addr), order)
      ensures r.Page? ==> TakenFirst(old(mem), old(lists.chains), order, IndexOf(r.addr))
    {
      if order >= MAX_ORDER {
        return Panic;
      }
      var current := order;
      while current < MAX_ORDER
        invariant order <= current <= MAX_ORDER
        invariant Valid() && mem == old(mem) && lists.chains == old(lists.chains)
        invariant forall o | order <= o < current :: listed[o] == {}
      {
        var page := First(current);
        if page != Links.NULL {
          FirstListed(mem, order, current, page, listed, pairs);
          r := Take(page, current, order);
          return;
        }
        current := current + 1;
      }
      NoRun(mem, order, listed, pairs);
      return Null;
    }

    /** Carving a block out of a listed one and marking its pages. */
    method Take(page: nat, current: nat, order: nat) returns (r: AllocResult)
      requires Valid() && order <= current < MAX_ORDER && page in listed[current]
      modifies Repr
      ensures Valid() && r.Page?
      ensures Aligned(order, page) && FreeRun(old(mem), order, page)
      ensures r.addr % PAGE_SIZE == 0 && IndexOf(r.addr) == page
      ensures r.addr == VA_KERNEL_BEGIN + (beginPpn + page) * PAGE_SIZE
      ensures mem == Taken(old(mem), page, order)
    {
      assert OrderOk(mem, current, listed[current], pairs[current]);
      AlignedBelow(order, current, page);
      RunWithin(mem, order, current, page);
      Carve(page, current, order);
      var clash := MarkAll(page, order);
      if clash {
        return Panic;
      }
      PageVaRoundTrip(page + beginPpn);
      return Page(PageVa(page + beginPpn));
    }

    /** The marking loop of kmem_alloc_pages: stops at the first page already in use. */
    method MarkAll(page: nat, order: nat) returns (clash: bool)
      requires Shape() && FreeRun(mem, order, page)
      modifies this`mem, memMap.data
      ensures Shape() && !clash && mem == Taken(old(mem), page, order)
    {
      ghost var m := mem;
      var pn := page;
      while pn != page + Pow2(order)
        invariant page <= pn <= page + Pow2(order)
        invariant Shape()
        invariant mem == seq(|m|, i requires 0 <= i < |m| => m[i] || page <= i < pn)
      {
        var was := Mark(pn);
        if was {
          return true;
        }
        pn := pn + 1;
      }
      return false;
    }

    /** kmem_free_page, on a manager whose lists answer to `m`; `m` is `mem` except while
        kmem_page_manager_init is still handing over the free pages. */
    method FreeInto(addr: nat, ghost m: seq<bool>) returns (r: FreeResult)
      requires Shape() && |m| == numPpn && AllOk(m, listed, pairs)
      requires addr % PAGE_SIZE == 0 ==> 0 <= IndexOf(addr) < numPpn && m[IndexOf(addr)] == mem[IndexOf(addr)]
      modifies Repr
      ensures Shape()
      ensures r.Freed? <==> addr % PAGE_SIZE == 0 && old(mem[IndexOf(addr)])
      ensures r.FreePanic? ==> mem == old(mem) && listed == old(listed) && pairs == old(pairs)
      ensures r.Freed? ==> mem == old(mem)[IndexOf(addr) := false] && AllOk(m[IndexOf(addr) := false], listed, pairs)
      ensures r.Freed? ==> MergedInFront(m[IndexOf(addr) := false], lists.chains, IndexOf(addr))
    {
      if addr % PAGE_SIZE != 0 {
        return FreePanic;
      }
      var pn := IndexOf(addr);
      var was := Clear(pn);
      if !was {
        return FreePanic;
      }
      Coalesce(pn, m);
      return Freed;
    }

    /** kmem_free_page: panics exactly on a misaligned address or a page that is not in use. */
    method FreePage(addr: nat) returns (r: FreeResult)
      requires Valid()
      requires addr % PAGE_SIZE == 0 ==> 0 <= IndexOf(addr) < numPpn
      modifies Repr
      ensures Valid()
      ensures r.Freed? <==> addr % PAGE_SIZE == 0 && old(mem[IndexOf(addr)])
      ensures mem == if r.Freed? then old(mem)[IndexOf(addr) := false] else old(mem)
      ensures r.Freed? ==> MergedInFront(mem, lists.chains, IndexOf(addr))
    {
      r := FreeInto(addr, mem);
    }

    /** kmem_free_pages: one page after the other. */
    method FreePages(addr: nat, count: nat) returns (r: FreeResult)
      requires Valid()
      requires addr % PAGE_SIZE == 0 && count > 0 ==> 0 <= IndexOf(addr) && IndexOf(addr) + count <= numPpn
      modifies Repr
      ensures Valid()
      ensures r.Freed? <==> addr % PAGE_SIZE == 0 && (count > 0 ==> InUse(old(mem), IndexOf(addr), count))
      ensures r.Freed? ==> mem == Released(old(mem), IndexOf(addr), count)
    {
      if addr % PAGE_SIZE != 0 {
        return FreePanic;
      }
      ghost var m, p := mem, IndexOf(addr);
      assert mem == Released(m, p, 0);
      r := Freed;
      var i := 0;
      while i < count && r.Freed?
        invariant 0 <= i <= count && Valid()
        invariant if r.Freed? then mem == Released(m, p, i) && (i > 0 ==> InUse(m, p, i))
                  else count > 0 && !InUse(m, p, count)
        decreases r.Freed?, count - i
      {
        r := FreeNext(addr, i, m, p, count);
        i := i + 1;
      }
    }

    /** One turn of it. */
    method FreeNext(addr: nat, i: nat, ghost m: seq<bool>, ghost p: nat, ghost count: nat) returns (r: FreeResult)
      requires Valid() && addr % PAGE_SIZE == 0 && p == IndexOf(addr) && i < count && p + count <= numPpn == |m|
      requires mem == Released(m, p, i) && (i > 0 ==> InUse(m, p, i))
      modifies Repr
      ensures Valid()
      ensures if r.Freed? then mem == Released(m, p, i + 1) && InUse(m, p, i + 1) else !InUse(m, p, count)
    {
      AddrStep(addr, i);
      r := FreePage(addr + i * PAGE_SIZE);
      ReleaseStep(m, p, i);
      if r.FreePanic? {
        assert !m[p + i];
      }
    }

    /** kmem_page_manager_init: lists every page that the boot allocator left clear. */
    constructor (beginPpn: nat, numPpn: nat, memMap: Bitmap.Map)
      requires numPpn <= |memMap.Bits()| && (beginPpn + numPpn) * PAGE_SIZE <= PMA_LIMIT
      requires forall o | 0 <= o < MAX_ORDER :: AreaFits(numPpn, o)
      modifies memMap.data
      ensures Valid() && fresh(Repr - {memMap.data})
      ensures this.beginPpn == beginPpn && this.numPpn == numPpn && this.memMap == memMap
      ensures mem == old(memMap.Bits()[..numPpn])
    {
      var maps, data := NewAreaMaps(numPpn);
      this.beginPpn, this.numPpn, this.memMap, this.areaMaps := beginPpn, numPpn, memMap, maps;
      var l := new Links.Nodes(numPpn, MAX_ORDER);
      this.lists := l;
      mem := memMap.Bits()[..numPpn];
      listed := seq(MAX_ORDER, _ => {});
      pairs := seq(MAX_ORDER, i requires 0 <= i < MAX_ORDER => ZeroBits(8 * AreaBytes(numPpn, i)));
      areaData := data;
      Repr := {this, l, l.nxt, l.prv, memMap.data} + data;
      new;
      forall i | 0 <= i < MAX_ORDER { AreaCovers(numPpn, i); }
      HandOver(mem);
    }

    /** One turn of the loop of kmem_page_manager_init. */
    method HandOne(pn: nat, ghost m: seq<bool>)
      requires Shape() && mem == m && pn < numPpn && AllOk(Upto(m, pn), listed, pairs)
      modifies Repr
      ensures Shape() && mem == m && AllOk(Upto(m, pn + 1), listed, pairs)
    {
      UptoStep(m, pn);
      var used := memMap.Test(pn);
      if !used {
        var _ := Mark(pn);
        PageVaRoundTrip(pn + beginPpn);
        var _ := FreeInto(PageVa(pn + beginPpn), Upto(m, pn));
      }
    }

    /** The loop of kmem_page_manager_init that frees the unreserved pages one by one. */
    method HandOver(ghost m: seq<bool>)
      requires Shape() && mem == m
      requires Blank(listed, pairs)
      modifies Repr
      ensures Valid() && mem == m
    {
      NothingListed(m, listed, pairs);
      HandAll(m);
      assert Upto(m, numPpn) == m;
    }

    method HandAll(ghost m: seq<bool>)
      requires Shape() && mem == m && AllOk(Upto(m, 0), listed, pairs)
      modifies Repr
      ensures Shape() && mem == m && AllOk(Upto(m, numPpn), listed, pairs)
    {
      for pn := 0 to numPpn
        invariant Shape() && mem == m && AllOk(Upto(m, pn), listed, pairs)
      {
        HandOne(pn, m);
      }
    }
  }
}
