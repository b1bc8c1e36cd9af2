/** What the buddy system guarantees over whole runs. */
module BuddyRuns {
  import opened Addr
  import opened Blocks
  import opened BuddySteps
  import opened Buddy

  ghost predicate Covering(lists: seq<set<nat>>, o: nat, p: nat, q: nat) {
    o < |lists| && p in lists[o] && p <= q < p + Pow2(o)
  }

  /** The free lists split exactly the clear pages: a page is clear if and only if some
      listed block covers it, and that block is the only one; every listed block is aligned. */
  lemma ListsPartitionFreePages(m: seq<bool>, lists: seq<set<nat>>, pairs: seq<seq<bool>>, q: nat)
    requires AllOk(m, lists, pairs) && q < |m|
    ensures !m[q] <==> exists o: nat, p: nat :: Covering(lists, o, p, q)
    ensures forall o: nat, p: nat, o': nat, p': nat ::
              Covering(lists, o, p, q) && Covering(lists, o', p', q) ==> o == o' && p == p'
    ensures forall o: nat, p: nat :: Covering(lists, o, p, q) ==> Aligned(o, p)
  {
    forall o: nat, p: nat | Covering(lists, o, p, q) ensures Maximal(m, o, p) {
      assert OrderOk(m, o, lists[o], pairs[o]);
    }
    if !m[q] {
      assert FreeRun(m, 0, q);
      var o := MaximalAround(m, 0, q);
      BaseBounds(o, q);
      assert OrderOk(m, o, lists[o], pairs[o]);
      assert Covering(lists, o, Base(o, q), q);
    }
    forall o: nat, p: nat, o': nat, p': nat | Covering(lists, o, p, q) && Covering(lists, o', p', q)
      ensures o == o' && p == p'
    {
      if o <= o' {
        MaximalDisjoint(m, o, p, o', p', q);
      } else {
        MaximalDisjoint(m, o', p', o, p, q);
      }
    }
  }

  /** Below the top order two buddies are never both listed. */
  lemma NoTwoBuddiesListed(m: seq<bool>, lists: seq<set<nat>>, pairs: seq<seq<bool>>, o: nat, p: nat)
    requires AllOk(m, lists, pairs) && o < TOP && p in lists[o]
    ensures Flip(o, p) !in lists[o]
  {
    assert OrderOk(m, o, lists[o], pairs[o]);
    ParentOf(o, p);
    Halves(m, o, Base(o + 1, p));
  }

  /** Free lists and pair bits are a function of the memory map. */
  lemma StateFollowsMap(m: seq<bool>, l1: seq<set<nat>>, b1: seq<seq<bool>>, l2: seq<set<nat>>, b2: seq<seq<bool>>)
    requires AllOk(m, l1, b1) && AllOk(m, l2, b2)
    requires forall o | 0 <= o < MAX_ORDER :: |b1[o]| == |b2[o]|
    ensures l1 == l2 && b1 == b2
  {
    forall o | 0 <= o < MAX_ORDER ensures l1[o] == l2[o] && b1[o] == b2[o] {
      assert OrderOk(m, o, l1[o], b1[o]) && OrderOk(m, o, l2[o], b2[o]);
      MapDetermines(m, o, l1[o], b1[o], l2[o], b2[o]);
    }
  }

  // ------------------------------------------------------------------ conservation

  function FreeCount(m: seq<bool>): nat {
    if m == [] then 0 else (if m[0] then 0 else 1) + FreeCount(m[1..])
  }

  lemma {:induction false} FreeCountConcat(a: seq<bool>, b: seq<bool>)
    ensures FreeCount(a + b) == FreeCount(a) + FreeCount(b)
  {
    if a == [] {
      assert a + b == b;
    } else {
      assert (a + b)[1..] == a[1..] + b;
      FreeCountConcat(a[1..], b);
    }
  }

  lemma {:induction false} FreeCountUniform(s: seq<bool>, used: bool)
    requires forall i | 0 <= i < |s| :: s[i] == used
    ensures FreeCount(s) == if used then 0 else |s|
  {
    if s != [] {
      FreeCountUniform(s[1..], used);
    }
  }

  /** Handing out a block of order `o` lowers the number of free pages by exactly 2^o. */
  lemma AllocationCount(m: seq<bool>, t: nat, o: nat)
    requires FreeRun(m, o, t)
    ensures FreeCount(Taken(m, t, o)) == FreeCount(m) - Pow2(o)
  {
    var n := t + Pow2(o);
    var a, b, c := m[..t], m[t..n], m[n..];
    var b' := Taken(m, t, o)[t..n];
    assert m == a + b + c;
    assert Taken(m, t, o) == a + b' + c;
    FreeCountConcat(a + b, c);
    FreeCountConcat(a, b);
    FreeCountConcat(a + b', c);
    FreeCountConcat(a, b');
    FreeCountUniform(b, false);
    FreeCountUniform(b', true);
  }

  // ------------------------------------------------------------------ runs

  /** What a call that returned did: a block handed out, no block found, or a page freed. */
  datatype Op = Alloc(order: nat, page: nat) | NoBlock(order: nat) | Free(page: nat)

  ghost predicate FitsBest(m: seq<bool>, order: nat, p: nat) {
    exists c: nat :: BestFit(m, order, c, p)
  }

  ghost predicate Step(m: seq<bool>, op: Op, m': seq<bool>) {
    match op
    case Alloc(o, p) => Aligned(o, p) && FreeRun(m, o, p) && m' == Taken(m, p, o) && FitsBest(m, o, p)
    case NoBlock(o) => (forall p: nat | Aligned(o, p) :: !FreeRun(m, o, p)) && m' == m
    case Free(p) => p < |m| && m[p] && m' == m[p := false]
  }

  /** The calls of a run and the memory maps between them. */
  ghost predicate Run(ms: seq<seq<bool>>, ops: seq<Op>) {
    |ms| == |ops| + 1 && forall i | 0 <= i < |ops| :: Step(ms[i], ops[i], ms[i + 1])
  }

  ghost predicate InBlock(op: Op, q: nat) {
    op.Alloc? && op.page <= q < op.page + Pow2(op.order)
  }

  /** Blocks never overlap while in use: a page handed out twice was freed in between. */
  lemma LiveBlocksDisjoint(ms: seq<seq<bool>>, ops: seq<Op>, i: nat, j: nat, q: nat)
    requires Run(ms, ops) && i < j < |ops| && InBlock(ops[i], q) && InBlock(ops[j], q)
    ensures FreedAgain(ops, i, j, q)
  {
    assert Step(ms[i], ops[i], ms[i + 1]);
    assert Step(ms[j], ops[j], ms[j + 1]);
    var _ := FreedBetween(ms, ops, i + 1, j, q);
  }

  /** A request breaks up a block only if no smaller one will do: wherever a run hands out a block, it
      begins a maximal one that is no larger than any maximal block of at least the order asked for,
      and all other maximal blocks of at least that order are maximal still. */
  lemma BreaksSmallest(ms: seq<seq<bool>>, ops: seq<Op>, i: nat, d: nat, q: nat) returns (c: nat)
    requires Run(ms, ops) && i < |ops| && ops[i].Alloc? && ops[i].order <= d < MAX_ORDER && Maximal(ms[i], d, q)
    ensures ops[i].order <= c <= d && Maximal(ms[i], c, ops[i].page)
    ensures q != ops[i].page ==> Maximal(ms[i + 1], d, q)
  {
    var m, order, t := ms[i], ops[i].order, ops[i].page;
    assert Step(m, ops[i], ms[i + 1]);
    c :| BestFit(m, order, c, t);
    assert d < c ==> NoMaximal(m, d);
    if d == c {
      TakeAt(m, t, order, c, q);
    } else {
      TakeAbove(m, t, order, c, d, q);
    }
  }

  /** So a free run of a larger order is still there whenever a smaller block will do. */
  lemma LargerRunKept(ms: seq<seq<bool>>, ops: seq<Op>, i: nat, o: nat, p: nat, d: nat, q: nat)
    requires Run(ms, ops) && i < |ops| && ops[i].Alloc? && ops[i].order <= o < d < MAX_ORDER
    requires Maximal(ms[i], o, p) && Aligned(d, q) && FreeRun(ms[i], d, q)
    ensures FreeRun(ms[i + 1], d, q)
  {
    var m, t := ms[i], ops[i].page;
    var c := BreaksSmallest(ms, ops, i, o, p);
    assert Step(m, ops[i], ms[i + 1]);
    var e := MaximalAround(m, d, q);
    var b := Base(e, q);
    BaseBounds(e, q);
    Nested(d, e, q);
    if b == t {
      Pow2Mono(c, e);
      MaximalDisjoint(m, c, t, e, b, t);
    }
    var _ := BreaksSmallest(ms, ops, i, e, b);
    assert Maximal(ms[i + 1], e, b);
  }

  /** 2048 pages, of which page 1 and the upper half are clear. */
  ghost function Sparse(): (m: seq<bool>)
    ensures |m| == 2048
  {
    seq(2048, i requires 0 <= i < 2048 => !(i == 1 || i >= 1024))
  }

  lemma SparsePair(p: nat)
    requires 1024 <= p < 2048
    ensures FreeRun(Sparse(), 1, Base(1, p))
  {
    BaseBounds(1, p);
    assert Base(1, p) == 2 * (p / 2) && Pow2(1) == 2;
  }

  lemma SparseBlocks()
    ensures Maximal(Sparse(), 0, 1) && Aligned(10, 1024) && FreeRun(Sparse(), 10, 1024)
    ensures forall p: nat | Maximal(Sparse(), 0, p) :: p == 1
  {
    var m := Sparse();
    assert Pow2(1) == 2 && Base(1, 1) == 0 && m[0];
    Pow2Ten();
    forall p: nat | Maximal(m, 0, p) ensures p == 1 {
      assert !m[p];
      if p >= 1024 {
        SparsePair(p);
      }
    }
  }

  lemma Pow2Ten()
    ensures Pow2(10) == 1024 && Aligned(10, 1024)
    ensures forall p: nat | Aligned(10, p) && p < 2048 :: p == 0 || p == 1024
  {
    assert Pow2(2) == 4 && Pow2(4) == 16 && Pow2(6) == 64 && Pow2(8) == 256;
    ShlShr(1, 10);
    assert Shl(1, 2) == 4 && Shl(1, 4) == 16 && Shl(1, 6) == 64 && Shl(1, 8) == 256;
    assert Shl(1, 10) == 1024;
    forall p: nat | Aligned(10, p) && p < 2048 ensures p == 0 || p == 1024 {
      ShrShl(p, 10);
      assert 1024 <= p ==> Base(10, p) == 1024 by {
        if 1024 <= p {
          BaseUnique(10, p, 1024);
        }
      }
      assert p < 1024 ==> Base(10, p) == 0 by {
        if p < 1024 {
          ShlShr(0, 10);
          BaseUnique(10, p, 0);
        }
      }
    }
  }

  /** There, one page and then 1024 pages can both be had, in this order. */
  lemma PageThenBlock(ms: seq<seq<bool>>, ops: seq<Op>)
    requires Run(ms, ops) && |ops| == 2 && ms[0] == Sparse()
    requires ops[0] == NoBlock(0) || (ops[0].Alloc? && ops[0].order == 0)
    requires ops[1] == NoBlock(10) || (ops[1].Alloc? && ops[1].order == 10)
    ensures ops == [Alloc(0, 1), Alloc(10, 1024)]
  {
    var m := ms[0];
    assert Step(ms[0], ops[0], ms[1]) && Step(ms[1], ops[1], ms[2]);
    SparseBlocks();
    var c := BreaksSmallest(ms, ops, 0, 0, 1);
    assert ops[0] == Alloc(0, 1);
    LargerRunKept(ms, ops, 0, 0, 1, 10, 1024);
    Pow2Ten();
    assert m[0] && ms[1][0];
    assert ops[1] == Alloc(10, 1024);
  }

  /** What was freed last is handed out first: freeing a page and asking for the order of the block it
      ends up in gives back exactly this block. */
  method FreeThenAlloc(pm: PageManager, addr: nat, order: nat) returns (f: FreeResult, r: AllocResult)
    requires pm.Valid() && (addr % PAGE_SIZE == 0 ==> 0 <= pm.IndexOf(addr) < pm.numPpn) && order < MAX_ORDER
    modifies pm.Repr
    ensures pm.Valid() && (f.Freed? <==> addr % PAGE_SIZE == 0 && old(pm.mem)[pm.IndexOf(addr)])
    ensures f.Freed? && Maximal(old(pm.mem)[pm.IndexOf(addr) := false], order, Base(order, pm.IndexOf(addr))) ==>
              r.Page? && pm.IndexOf(r.addr) == Base(order, pm.IndexOf(addr))
  {
    f := pm.FreePage(addr);
    r := AllocResult.Null;
    if f.Freed? {
      ghost var m, chains, pn := pm.mem, pm.lists.chains, pm.IndexOf(addr);
      r := pm.AllocPages(order);
      if Maximal(m, order, Base(order, pn)) {
        SameAgain(m, chains, order, pn, if r.Page? then pm.IndexOf(r.addr) else -1);
      }
    }
  }

  lemma SameAgain(m: seq<bool>, chains: seq<seq<nat>>, order: nat, pn: nat, p: int)
    requires MergedInFront(m, chains, pn) && Maximal(m, order, Base(order, pn)) && order < MAX_ORDER
    requires p >= 0 ==> TakenFirst(m, chains, order, p)
    ensures p >= 0 ==> p == Base(order, pn)
  {
    var o: nat :| InFront(m, chains, o, pn);
    BaseBounds(o, pn);
    BaseBounds(order, pn);
    if o <= order {
      MaximalDisjoint(m, o, Base(o, pn), order, Base(order, pn), pn);
    } else {
      MaximalDisjoint(m, order, Base(order, pn), o, Base(o, pn), pn);
    }
    if p >= 0 {
      var c: nat :| BestFit(m, order, c, p) && HeadOf(chains, c, p);
      assert c > order ==> NoMaximal(m, order);
    }
  }

  ghost predicate FreedAgain(ops: seq<Op>, i: nat, j: nat, q: nat)
    requires j <= |ops|
  {
    exists k :: i < k < j && ops[k] == Free(q)
  }

  /** No page is handed out twice without being freed in between. */
  ghost predicate NeverTwice(ops: seq<Op>) {
    forall i: nat, j: nat, q: nat | i < j < |ops| && InBlock(ops[i], q) && InBlock(ops[j], q) ::
      FreedAgain(ops, i, j, q)
  }

  lemma RunIsSafe(ms: seq<seq<bool>>, ops: seq<Op>)
    requires Run(ms, ops)
    ensures NeverTwice(ops)
  {
    forall i: nat, j: nat, q: nat | i < j < |ops| && InBlock(ops[i], q) && InBlock(ops[j], q)
      ensures FreedAgain(ops, i, j, q)
    {
      LiveBlocksDisjoint(ms, ops, i, j, q);
    }
  }

  lemma {:induction false} FreedBetween(ms: seq<seq<bool>>, ops: seq<Op>, a: nat, b: nat, q: nat) returns (k: nat)
    requires Run(ms, ops) && a <= b <= |ops|
    requires q < |ms[a]| && ms[a][q] && q < |ms[b]| && !ms[b][q]
    ensures a <= k < b && ops[k] == Free(q)
    decreases b - a
  {
    assert Step(ms[a], ops[a], ms[a + 1]);
    if ms[a + 1][q] {
      k := FreedBetween(ms, ops, a + 1, b, q);
    } else {
      k := a;
    }
  }

  // ------------------------------------------------------------------ executing a run

  /** kmem_alloc_pages and kmem_free_page, with any arguments. */
  datatype Call = AllocCall(order: nat) | FreeCall(addr: nat)

  /** The operation is what the call asked for. */
  ghost predicate Does(pm: PageManager, call: Call, op: Op) {
    match call
    case AllocCall(o) => op == NoBlock(o) || (op.Alloc? && op.order == o)
    case FreeCall(a) => op.Free? && a % PAGE_SIZE == 0 && pm.IndexOf(a) == op.page
  }

  /** The call panics: the order is too large, the address is not aligned or its page is not in use. */
  ghost predicate Panics(pm: PageManager, call: Call, m: seq<bool>) {
    match call
    case AllocCall(o) => o >= MAX_ORDER
    case FreeCall(a) => a % PAGE_SIZE != 0 || !(0 <= pm.IndexOf(a) < |m|) || !m[pm.IndexOf(a)]
  }

  /** Frees are for pages that the manager manages. */
  ghost predicate Known(pm: PageManager, call: Call) {
    call.FreeCall? && call.addr % PAGE_SIZE == 0 ==> 0 <= pm.IndexOf(call.addr) < pm.numPpn
  }

  method ExecuteOne(pm: PageManager, call: Call) returns (ok: bool, ghost op: Op)
    requires pm.Valid() && Known(pm, call)
    modifies pm.Repr
    ensures pm.Valid() && (ok <==> !Panics(pm, call, old(pm.mem)))
    ensures ok ==> Does(pm, call, op) && Step(old(pm.mem), op, pm.mem)
    ensures !ok ==> pm.mem == old(pm.mem)
  {
    op := NoBlock(0);
    match call {
      case AllocCall(o) =>
        var r := pm.AllocPages(o);
        ok := !r.Panic?;
        op := if r.Page? then Alloc(o, pm.IndexOf(r.addr)) else NoBlock(o);
      case FreeCall(a) =>
        var r := pm.FreePage(a);
        ok := r.Freed?;
        if ok {
          op := Free(pm.IndexOf(a));
        }
    }
  }

  /** Any list of calls, up to the first that panics, is a run of the page manager; so a page that
      was handed out is not handed out again before a call frees it. */
  method Execute(pm: PageManager, calls: seq<Call>) returns (done: nat, ghost ops: seq<Op>, ghost ms: seq<seq<bool>>)
    requires pm.Valid() && forall i | 0 <= i < |calls| :: Known(pm, calls[i])
    modifies pm.Repr
    ensures pm.Valid() && done == |ops| <= |calls| && (done < |calls| ==> Panics(pm, calls[done], pm.mem))
    ensures Run(ms, ops) && ms[0] == old(pm.mem) && ms[done] == pm.mem
    ensures forall i | 0 <= i < done :: Does(pm, calls[i], ops[i]) && !Panics(pm, calls[i], ms[i])
    ensures NeverTwice(ops)
  {
    done, ops, ms := 0, [], [pm.mem];
    var ok := true;
    while ok && done < |calls|
      invariant pm.Valid() && done == |ops| <= |calls| && Run(ms, ops) && ms[0] == old(pm.mem) && ms[done] == pm.mem
      invariant ok || (done < |calls| && Panics(pm, calls[done], pm.mem))
      invariant forall i | 0 <= i < done :: Does(pm, calls[i], ops[i]) && !Panics(pm, calls[i], ms[i])
      decreases ok, |calls| - done
    {
      ghost var op;
      ok, op := ExecuteOne(pm, calls[done]);
      if ok {
        RunNext(ms, ops, op, pm.mem);
        done, ops, ms := done + 1, ops + [op], ms + [pm.mem];
      }
    }
    RunIsSafe(ms, ops);
  }

  lemma RunNext(ms: seq<seq<bool>>, ops: seq<Op>, op: Op, m: seq<bool>)
    requires Run(ms, ops) && Step(ms[|ops|], op, m)
    ensures Run(ms + [m], ops + [op])
  {
    var ms', ops' := ms + [m], ops + [op];
    forall i | 0 <= i < |ops'| ensures Step(ms'[i], ops'[i], ms'[i + 1]) {
      if i < |ops| {
        assert Step(ms[i], ops[i], ms[i + 1]);
      }
    }
  }

  // ------------------------------------------------------------------ a client

  ghost predicate Permutation(order: seq<nat>, n: nat) {
    && (forall i | 0 <= i < |order| :: order[i] < n)
    && (forall k | 0 <= k < n :: k in order)
    && (forall i, j | 0 <= i < j < |order| :: order[i] != order[j])
  }

  /** The map while a block at `t` is being given back: the offsets in `done` are free again. */
  ghost function Partly(m: seq<bool>, t: nat, o: nat, done: seq<nat>): (r: seq<bool>)
    ensures |r| == |m|
  {
    seq(|m|, i requires 0 <= i < |m| => m[i] || (t <= i < t + Pow2(o) && i - t !in done))
  }

  lemma PartlyStep(m: seq<bool>, t: nat, o: nat, perm: seq<nat>, i: nat)
    requires FreeRun(m, o, t) && Permutation(perm, Pow2(o)) && i < |perm|
    ensures Partly(m, t, o, perm[..i])[t + perm[i]]
    ensures Partly(m, t, o, perm[..i])[t + perm[i] := false] == Partly(m, t, o, perm[..i + 1])
  {
    assert perm[..i + 1] == perm[..i] + [perm[i]];
  }

  /** One of the pages. */
  method GiveBack(pm: PageManager, addr: nat, ghost order: nat, perm: seq<nat>, i: nat, ghost m: seq<bool>)
    requires pm.Valid() && Permutation(perm, Pow2(order)) && i < |perm| && addr % PAGE_SIZE == 0
    requires pm.IndexOf(addr) >= 0 && addr == VA_KERNEL_BEGIN + (pm.beginPpn + pm.IndexOf(addr)) * PAGE_SIZE
    requires FreeRun(m, order, pm.IndexOf(addr)) && pm.mem == Partly(m, pm.IndexOf(addr), order, perm[..i])
    modifies pm.Repr
    ensures pm.Valid() && pm.mem == Partly(m, pm.IndexOf(addr), order, perm[..i + 1])
  {
    PartlyStep(m, pm.IndexOf(addr), order, perm, i);
    AddrStep(addr, perm[i]);
    var s := pm.FreePage(addr + perm[i] * PAGE_SIZE);
    assert s.Freed?;
  }

  /** Allocating a block and freeing its pages one at a time, in any order, restores the
      memory map, every free list and every pair bit. */
  method AllocateAndFree(pm: PageManager, order: nat, perm: seq<nat>) returns (r: AllocResult)
    requires pm.Valid() && order < MAX_ORDER && Permutation(perm, Pow2(order))
    modifies pm.Repr
    ensures pm.Valid()
    ensures pm.mem == old(pm.mem) && pm.listed == old(pm.listed) && pm.pairs == old(pm.pairs)
  {
    ghost var m := pm.mem;
    r := pm.AllocPages(order);
    if r.Page? {
      var t := pm.IndexOf(r.addr);
      assert Taken(m, t, order) == Partly(m, t, order, perm[..0]);
      for i := 0 to |perm|
        invariant pm.Valid() && pm.mem == Partly(m, t, order, perm[..i])
      {
        GiveBack(pm, r.addr, order, perm, i, m);
      }
      assert perm[..|perm|] == perm;
      assert Partly(m, t, order, perm) == m;
    }
    StateFollowsMap(m, old(pm.listed), old(pm.pairs), pm.listed, pm.pairs);
  }
}
