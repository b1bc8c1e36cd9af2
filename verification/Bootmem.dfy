/** The boot allocator of kernel/memory/bootmem.c: a first-fit scan over a page map, with small
    requests appended to the page used last. */
module Bootmem {
  import opened Addr
  import opened Arith
  import opened Bitmap
  import opened Blocks
  import opened Types

  // ------------------------------------------------------------ regions and pages

  /** Bytes handed out, counted from the first page of the node. */
  datatype Region = Region(pos: nat, len: nat)

  ghost predicate Touches(r: Region, p: nat) {
    r.pos < (p + 1) * PAGE_SIZE && p * PAGE_SIZE < r.pos + r.len
  }

  ghost predicate Separate(r: Region, q: Region) {
    r.pos + r.len <= q.pos || q.pos + q.len <= r.pos
  }

  /** Page `p` was free after initialisation and has been taken since. */
  ghost predicate Taken(bits: seq<bool>, init: seq<bool>, num: nat, p: nat) {
    p < num && p < |bits| && p < |init| && bits[p] && !init[p]
  }

  ghost predicate InTaken(bits: seq<bool>, init: seq<bool>, num: nat, r: Region) {
    r.len > 0 && forall p: nat | Touches(r, p) :: Taken(bits, init, num, p)
  }

  /** No region reaches into the unused tail of page `page` behind `off`. */
  ghost predicate TailFree(r: Region, page: nat, off: nat) {
    r.pos + r.len <= page * PAGE_SIZE + off || (page + 1) * PAGE_SIZE <= r.pos
  }

  /** Region `r` holds the first byte of page `page`. */
  ghost predicate Holds(r: Region, page: nat) {
    r.pos <= page * PAGE_SIZE < r.pos + r.len
  }

  ghost predicate Started(rs: seq<Region>, page: nat) {
    exists i | 0 <= i < |rs| :: Holds(rs[i], page)
  }

  /** What every call keeps: regions lie in pages taken since initialisation, and the page used
      last is one of them if its tail may still be used. */
  ghost predicate Inv(bits: seq<bool>, init: seq<bool>, num: nat, rs: seq<Region>, page: nat, off: nat) {
    && num <= |bits| == |init| && (forall p | 0 <= p < |bits| :: init[p] ==> bits[p])
    && (forall i | 0 <= i < |rs| :: InTaken(bits, init, num, rs[i]))
    && off < PAGE_SIZE && (off > 0 ==> Taken(bits, init, num, page) && Started(rs, page))
  }

  ghost predicate TouchedBy(rs: seq<Region>, p: nat) {
    exists i | 0 <= i < |rs| :: Touches(rs[i], p)
  }

  /** No page is taken without need: every one holds a byte of some region. */
  ghost predicate NoneLost(bits: seq<bool>, init: seq<bool>, num: nat, rs: seq<Region>) {
    forall p: nat | Taken(bits, init, num, p) :: TouchedBy(rs, p)
  }

  ghost predicate Apart(rs: seq<Region>) {
    forall i, j | 0 <= i < j < |rs| :: Separate(rs[i], rs[j])
  }

  /** What every call keeps unless it appends with alignment 0. */
  ghost predicate Tidy(rs: seq<Region>, page: nat, off: nat) {
    Apart(rs) && (off > 0 ==> forall i | 0 <= i < |rs| :: TailFree(rs[i], page, off))
  }

  /** The bits after `n` pages from `i` on have been set. */
  ghost predicate Marked(bits: seq<bool>, bits': seq<bool>, i: nat, n: nat) {
    |bits'| == |bits| && i + n <= |bits| && forall p | 0 <= p < |bits| :: bits'[p] == (bits[p] || i <= p < i + n)
  }

  /** `n` free pages from `i` on. */
  ghost predicate RunAt(bits: seq<bool>, num: nat, i: nat, n: nat) {
    i + n <= num <= |bits| && forall p | i <= p < i + n :: !bits[p]
  }

  /** A region in taken pages keeps clear of free ones. */
  lemma ClearOfRun(bits: seq<bool>, init: seq<bool>, num: nat, r: Region, i: nat, n: nat)
    requires InTaken(bits, init, num, r) && RunAt(bits, num, i, n)
    ensures r.pos + r.len <= i * PAGE_SIZE || (i + n) * PAGE_SIZE <= r.pos || n == 0
  {
    if n > 0 && r.pos < (i + n) * PAGE_SIZE && i * PAGE_SIZE < r.pos + r.len {
      var p := if r.pos < i * PAGE_SIZE then i else r.pos / PAGE_SIZE;
      assert Touches(r, p);
    }
  }

  lemma StillTaken(bits: seq<bool>, bits': seq<bool>, init: seq<bool>, num: nat, r: Region, i: nat, n: nat)
    requires InTaken(bits, init, num, r) && Marked(bits, bits', i, n)
    ensures InTaken(bits', init, num, r)
  {
    forall p: nat | Touches(r, p) ensures Taken(bits', init, num, p) {
      assert Taken(bits, init, num, p);
    }
  }

  /** One more region in taken pages. */
  lemma AddRegion(bits: seq<bool>, bits': seq<bool>, init: seq<bool>, num: nat, rs: seq<Region>, page: nat, off: nat,
                  i: nat, n: nat, r: Region, page': nat, off': nat)
    requires Inv(bits, init, num, rs, page, off) && Marked(bits, bits', i, n)
    requires InTaken(bits', init, num, r) && off' < PAGE_SIZE
    requires off' > 0 ==> Taken(bits', init, num, page') && (Holds(r, page') || Started(rs, page'))
    ensures Inv(bits', init, num, rs + [r], page', off')
  {
    var t := rs + [r];
    forall k | 0 <= k < |t| ensures InTaken(bits', init, num, t[k]) {
      if k < |rs| {
        StillTaken(bits, bits', init, num, rs[k], i, n);
      }
    }
    if off' > 0 {
      var k := if Holds(r, page') then |rs| else var k :| 0 <= k < |rs| && Holds(rs[k], page'); k;
      assert Holds(t[k], page');
    }
  }

  /** ... and apart from all others. */
  lemma AddApart(rs: seq<Region>, page: nat, off: nat, r: Region, page': nat, off': nat)
    requires Tidy(rs, page, off) && (forall k | 0 <= k < |rs| :: Separate(rs[k], r))
    requires off' > 0 ==> TailFree(r, page', off') && forall k | 0 <= k < |rs| :: TailFree(rs[k], page', off')
    ensures Tidy(rs + [r], page', off')
  {
  }

  // ------------------------------------------------------------ arithmetic of sizes

  /** Pages for `size` bytes, and what the last of them holds. */
  lemma Pages(size: nat)
    requires size > 0
    ensures var n := (size + PAGE_SIZE - 1) / PAGE_SIZE;
            && n > 0 && (n - 1) * PAGE_SIZE < size <= n * PAGE_SIZE
            && size % PAGE_SIZE == (if size == n * PAGE_SIZE then 0 else size - (n - 1) * PAGE_SIZE)
  {
  }

  /** A power of two. */
  predicate PowerOfTwo(a: nat) {
    a == 1 || (a > 0 && a % 2 == 0 && PowerOfTwo(a / 2))
  }

  /** `a & (a - 1)` is not 0. */
  predicate Malformed(a: nat) {
    a != 0 && !PowerOfTwo(a)
  }

  function PagesFor(size: nat): nat {
    (size + PAGE_SIZE - 1) / PAGE_SIZE
  }

  /** `(x + a - 1) & ~(a - 1)` for a power of two `a`; with `a == 0` the mask is empty. */
  function RoundUp(x: nat, a: nat): nat {
    if a == 0 then 0 else (x + a - 1) / a * a
  }

  lemma RoundUpFacts(x: nat, a: nat)
    requires a > 0
    ensures x <= RoundUp(x, a) < x + a && RoundUp(x, a) % a == 0
  {
    var q, r := (x + a - 1) / a, (x + a - 1) % a;
    assert x + a - 1 == q * a + r;
    DivModIs(q * a, a, q, 0);
  }

  /** Rounding never leads back into the used part of a page exactly when the alignment is not 0. */
  lemma RoundUpForward(x: nat, a: nat)
    requires x > 0
    ensures RoundUp(x, a) >= x <==> a != 0
  {
    if a != 0 {
      RoundUpFacts(x, a);
    }
  }

  /** A smaller power of two divides the page size. */
  lemma PageAligned(a: nat)
    requires PowerOfTwo(a) && a <= PAGE_SIZE
    ensures PAGE_SIZE % a == 0
  {
    var p := PageMultiple(a);
    Multiple(p, a);
  }

  lemma PageMultiple(a: nat) returns (p: nat)
    requires PowerOfTwo(a) && a <= PAGE_SIZE
    ensures PAGE_SIZE == p * a && a > 0
  {
    assert Pow2(12) == PAGE_SIZE && Pow2(13) == 2 * PAGE_SIZE;
    PowerIs(a, 13);
    var i: nat :| i < 13 && a == Pow2(i);
    PowerSplit(i, 12);
    p := Pow2(12 - i);
  }

  lemma Multiple(q: nat, a: nat)
    requires a > 0
    ensures q * a % a == 0
  {
    DivModIs(q * a, a, q, 0);
  }

  lemma {:induction false} PowerSplit(i: nat, k: nat)
    requires i <= k
    ensures Pow2(k) == Pow2(k - i) * Pow2(i) && Pow2(i) > 0
  {
    if i > 0 {
      PowerSplit(i - 1, k - 1);
      assert Pow2(k - i) * Pow2(i) == 2 * (Pow2(k - i) * Pow2(i - 1));
    }
  }

  lemma {:induction false} PowerIs(a: nat, k: nat)
    requires PowerOfTwo(a) && a < Pow2(k)
    ensures exists i: nat :: i < k && a == Pow2(i)
    decreases k
  {
    if a == 1 {
      assert a == Pow2(0);
    } else {
      PowerIs(a / 2, k - 1);
      var i: nat :| i < k - 1 && a / 2 == Pow2(i);
      assert a == Pow2(i + 1);
    }
  }

  lemma ModSum(x: nat, y: nat, a: nat)
    requires a > 0 && x % a == 0 && y % a == 0
    ensures (x + y) % a == 0
  {
    assert x + y == (x / a + y / a) * a;
    Multiple(x / a + y / a, a);
  }

  lemma ModTimes(k: nat, y: nat, a: nat)
    requires a > 0 && y % a == 0
    ensures k * y % a == 0
  {
    assert k * y == k * (y / a) * a;
    Multiple(k * (y / a), a);
  }

  /** A byte of the node at an aligned offset in some page has an aligned address. */
  lemma AddressAligned(page: nat, offset: nat, a: nat)
    requires PowerOfTwo(a) && a <= PAGE_SIZE && offset % a == 0 && page * PAGE_SIZE + offset < PMA_LIMIT
    ensures Pa2Va(page * PAGE_SIZE + offset) % a == 0
  {
    PageAligned(a);
    ModTimes(page, PAGE_SIZE, a);
    ModTimes(VA_KERNEL_BEGIN / PAGE_SIZE, PAGE_SIZE, a);
    ModSum(page * PAGE_SIZE, offset, a);
    ModSum(VA_KERNEL_BEGIN, page * PAGE_SIZE + offset, a);
  }

  lemma Limit()
    ensures Pow2(12) == PAGE_SIZE && Pow2(13) == 2 * PAGE_SIZE && Pow2(38) == PMA_LIMIT && Pow2(39) == 2 * PMA_LIMIT
  {
    assert Pow2(12) == PAGE_SIZE && Pow2(13) == 2 * PAGE_SIZE && Pow2(14) == 4 * PAGE_SIZE;
    PowerSplit(12, 24);
    PowerSplit(24, 38);
  }

  lemma Exponent(a: nat) returns (i: nat)
    requires PowerOfTwo(a) && PAGE_SIZE < a <= PMA_LIMIT
    ensures 12 <= i <= 38 && a == Pow2(i)
  {
    Limit();
    PowerIs(a, 39);
    i :| i < 39 && a == Pow2(i);
    if i < 12 {
      PowerSplit(i, 12);
      MulMono(1, Pow2(12 - i), a);
    }
  }

  /** Above a page, an alignment is a number of pages and divides the base of the kernel addresses. */
  lemma InPages(a: nat) returns (k: nat, c: nat)
    requires PowerOfTwo(a) && PAGE_SIZE < a <= PMA_LIMIT
    ensures k > 0 && a == k * PAGE_SIZE && VA_KERNEL_BEGIN == c * a
  {
    var i := Exponent(a);
    Limit();
    PowerSplit(12, i);
    PowerSplit(i, 38);
    k := Pow2(i - 12);
    c := Above(Pow2(38 - i), a);
  }

  lemma Above(d: nat, a: nat) returns (c: nat)
    requires d * a == PMA_LIMIT
    ensures VA_KERNEL_BEGIN == c * a
  {
    c := 0x3ff_ffff * d;
    assert c * a == 0x3ff_ffff * (d * a);
  }

  lemma PagesOf(page: nat, base: nat, a: nat, k: nat, c: nat)
    requires k > 0 && a == k * PAGE_SIZE && base == c * a
    ensures (base + page * PAGE_SIZE) % a == 0 <==> page % k == 0
  {
    var q, r := page / k, page % k;
    assert page == q * k + r;
    assert page * PAGE_SIZE == q * a + r * PAGE_SIZE;
    MulMono(r + 1, k, PAGE_SIZE);
    assert base + page * PAGE_SIZE == (c + q) * a + r * PAGE_SIZE;
    DivModIs(base + page * PAGE_SIZE, a, c + q, r * PAGE_SIZE);
  }

  /** A page has an address aligned to more than a page exactly if its number is a multiple. */
  lemma AlignedAbovePage(page: nat, a: nat)
    requires PowerOfTwo(a) && PAGE_SIZE < a <= PMA_LIMIT && page * PAGE_SIZE < PMA_LIMIT
    ensures a / PAGE_SIZE > 0 && (Pa2Va(page * PAGE_SIZE) % a == 0 <==> page % (a / PAGE_SIZE) == 0)
  {
    var k, c := InPages(a);
    DivModIs(a, PAGE_SIZE, k, 0);
    PagesOf(page, VA_KERNEL_BEGIN, a, k, c);
  }

  // ------------------------------------------------------------ the two ways to allocate

  /** Fresh pages: `n` pages from `i` on for `size` bytes. */
  lemma FreshInv(bits: seq<bool>, bits': seq<bool>, init: seq<bool>, num: nat, rs: seq<Region>, page: nat, off: nat,
                 i: nat, n: nat, size: nat)
    requires Inv(bits, init, num, rs, page, off) && size > 0 && n == (size + PAGE_SIZE - 1) / PAGE_SIZE
    requires RunAt(bits, num, i, n) && Marked(bits, bits', i, n)
    ensures Inv(bits', init, num, rs + [Region(i * PAGE_SIZE, size)], i + n - 1, size % PAGE_SIZE)
  {
    Pages(size);
    var r := Region(i * PAGE_SIZE, size);
    forall p: nat | Touches(r, p) ensures Taken(bits', init, num, p) {
      assert i <= p < i + n;
    }
    AddRegion(bits, bits', init, num, rs, page, off, i, n, r, i + n - 1, size % PAGE_SIZE);
  }

  lemma FreshApart(bits: seq<bool>, init: seq<bool>, num: nat, rs: seq<Region>, page: nat, off: nat, i: nat, n: nat,
                   size: nat)
    requires Inv(bits, init, num, rs, page, off) && Tidy(rs, page, off) && size > 0
    requires n == (size + PAGE_SIZE - 1) / PAGE_SIZE && RunAt(bits, num, i, n)
    ensures Tidy(rs + [Region(i * PAGE_SIZE, size)], i + n - 1, size % PAGE_SIZE)
  {
    Pages(size);
    var r := Region(i * PAGE_SIZE, size);
    forall k | 0 <= k < |rs| ensures Separate(rs[k], r) && TailFree(rs[k], i + n - 1, size % PAGE_SIZE) {
      ClearOfRun(bits, init, num, rs[k], i, n);
    }
    AddApart(rs, page, off, r, i + n - 1, size % PAGE_SIZE);
  }

  /** Appended: the bytes from `start` on in the page used last, and `n` pages behind it. */
  ghost predicate Fits(page: nat, off: nat, start: nat, n: nat, size: nat, page': nat, off': nat) {
    && 0 < off && start <= PAGE_SIZE && size > 0 && start + size <= (n + 1) * PAGE_SIZE
    && page' == page + n && off' < PAGE_SIZE && (off' > 0 ==> start + size == n * PAGE_SIZE + off')
    && (n > 0 ==> n * PAGE_SIZE < start + size)
  }

  lemma AppendedInv(bits: seq<bool>, bits': seq<bool>, init: seq<bool>, num: nat, rs: seq<Region>, page: nat, off: nat,
                    start: nat, n: nat, size: nat, page': nat, off': nat)
    requires Inv(bits, init, num, rs, page, off) && Fits(page, off, start, n, size, page', off')
    requires RunAt(bits, num, page + 1, n) && Marked(bits, bits', page + 1, n)
    ensures Inv(bits', init, num, rs + [Region(page * PAGE_SIZE + start, size)], page', off')
  {
    var r := Region(page * PAGE_SIZE + start, size);
    forall p: nat | Touches(r, p) ensures Taken(bits', init, num, p) {
      assert page <= p < page + 1 + n;
    }
    AddRegion(bits, bits', init, num, rs, page, off, page + 1, n, r, page', off');
  }

  lemma AppendedApart(bits: seq<bool>, init: seq<bool>, num: nat, rs: seq<Region>, page: nat, off: nat,
                      start: nat, n: nat, size: nat, page': nat, off': nat)
    requires Inv(bits, init, num, rs, page, off) && Tidy(rs, page, off) && RunAt(bits, num, page + 1, n)
    requires Fits(page, off, start, n, size, page', off') && off <= start
    ensures Tidy(rs + [Region(page * PAGE_SIZE + start, size)], page', off')
  {
    var r := Region(page * PAGE_SIZE + start, size);
    forall k | 0 <= k < |rs| ensures Separate(rs[k], r) && (off' > 0 ==> TailFree(rs[k], page', off')) {
      assert TailFree(rs[k], page, off);
      ClearOfRun(bits, init, num, rs[k], page + 1, n);
    }
    AddApart(rs, page, off, r, page', off');
  }

  /** Put at the first byte of the page used last, a region lies over an earlier one. */
  lemma OverlapsAtStart(rs: seq<Region>, page: nat, size: nat)
    requires Started(rs, page) && size > 0
    ensures !Apart(rs + [Region(page * PAGE_SIZE, size)])
  {
    var t := rs + [Region(page * PAGE_SIZE, size)];
    var k :| 0 <= k < |rs| && Holds(rs[k], page);
    assert !Separate(t[k], t[|rs|]);
  }

  /** Pages for the part of a request that does not fit behind `start` in the last page. */
  lemma BackPages(start: nat, size: nat)
    requires start <= PAGE_SIZE && PAGE_SIZE - start <= size && size > 0
    ensures var back := size - (PAGE_SIZE - start);
            var n := (back + PAGE_SIZE - 1) / PAGE_SIZE;
            && n <= (size + PAGE_SIZE - 1) / PAGE_SIZE && start + size <= (n + 1) * PAGE_SIZE
            && (back % PAGE_SIZE > 0 ==> start + size == n * PAGE_SIZE + back % PAGE_SIZE)
            && (n > 0 ==> n * PAGE_SIZE < start + size)
  {
    var back := size - (PAGE_SIZE - start);
    if back > 0 {
      Pages(back);
    }
  }

  /** Where the scan may begin at all, in pages. */
  function PpnOffset(beginPpn: nat, a: nat): nat {
    if a == 0 then 0 else (a - beginPpn * PAGE_SIZE % a) % a / PAGE_SIZE
  }

  /** Where the scan begins first. */
  function Preferred(beginPpn: nat, numPpn: nat, a: nat, goal: nat): nat {
    var page := goal / PAGE_SIZE;
    var p := if goal > 0 && beginPpn <= page < beginPpn + numPpn then goal - beginPpn * PAGE_SIZE else 0;
    RoundUp(p, a) / PAGE_SIZE + PpnOffset(beginPpn, a)
  }

  lemma NoOffset(beginPpn: nat, a: nat)
    requires PowerOfTwo(a) && a <= PAGE_SIZE
    ensures PpnOffset(beginPpn, a) == 0
  {
    PageAligned(a);
    ModTimes(beginPpn, PAGE_SIZE, a);
    Multiple(1, a);
  }

  /** With a page of the node as goal, the scan begins exactly there. */
  lemma GoalHonoured(beginPpn: nat, numPpn: nat, a: nat, page: nat)
    requires PowerOfTwo(a) && a <= PAGE_SIZE && page < numPpn && beginPpn + page > 0
    ensures Preferred(beginPpn, numPpn, a, (beginPpn + page) * PAGE_SIZE) == page
  {
    NoOffset(beginPpn, a);
    DivModIs((beginPpn + page) * PAGE_SIZE, PAGE_SIZE, beginPpn + page, 0);
    PageAligned(a);
    ModTimes(page, PAGE_SIZE, a);
    RoundedAlready(page * PAGE_SIZE, a);
    DivModIs(page * PAGE_SIZE, PAGE_SIZE, page, 0);
  }

  lemma RoundedAlready(x: nat, a: nat)
    requires a > 0 && x % a == 0
    ensures RoundUp(x, a) == x
  {
    DivModIs(x + a - 1, a, x / a, a - 1);
  }

  // ------------------------------------------------------------ initialisation

  /** Pages `from..to`, as the available segments are rounded. */
  datatype PageRange = PageRange(from: nat, to: nat)

  ghost predicate InRange(segs: seq<PageRange>, beginPpn: nat, numPpn: nat) {
    forall i | 0 <= i < |segs| :: beginPpn <= segs[i].from <= segs[i].to <= beginPpn + numPpn
  }

  ghost predicate Disjoint(segs: seq<PageRange>) {
    forall i, j | 0 <= i < j < |segs| :: segs[i].to <= segs[j].from || segs[j].to <= segs[i].from
  }

  ghost predicate InSeg(g: PageRange, beginPpn: nat, p: nat) {
    g.from <= beginPpn + p < g.to
  }

  ghost predicate InSegs(segs: seq<PageRange>, beginPpn: nat, p: nat, k: nat)
    requires k <= |segs|
  {
    exists i | 0 <= i < k :: InSeg(segs[i], beginPpn, p)
  }

  /** Pages that the map itself takes, at the beginning of the node. */
  function MapPages(numPpn: nat): nat {
    ((numPpn + 7) / 8 + PAGE_SIZE - 1) / PAGE_SIZE
  }

  ghost predicate MapFits(segs: seq<PageRange>, beginPpn: nat, numPpn: nat) {
    MapPages(numPpn) <= numPpn && forall p | 0 <= p < MapPages(numPpn) :: InSegs(segs, beginPpn, p, |segs|)
  }

  ghost predicate FreeAfter(segs: seq<PageRange>, beginPpn: nat, numPpn: nat, bits: seq<bool>) {
    numPpn <= |bits| && forall p | 0 <= p < numPpn ::
      !bits[p] <==> InSegs(segs, beginPpn, p, |segs|) && p >= MapPages(numPpn)
  }

  /** The map after initialisation, with `len` bits. */
  ghost function FreeBits(segs: seq<PageRange>, beginPpn: nat, numPpn: nat, len: nat): (r: seq<bool>)
    ensures |r| == len
  {
    seq(len, p requires 0 <= p < len => !(p < numPpn && InSegs(segs, beginPpn, p, |segs|) && p >= MapPages(numPpn)))
  }

  ghost predicate Set(bits: seq<bool>, bits': seq<bool>, from: nat, to: nat, v: bool) {
    |bits'| == |bits| && to <= |bits| && forall p | 0 <= p < |bits| :: bits'[p] == if from <= p < to then v else bits[p]
  }

  ghost predicate FreedUpTo(segs: seq<PageRange>, beginPpn: nat, numPpn: nat, k: nat, bits: seq<bool>)
    requires k <= |segs|
  {
    numPpn <= |bits| && forall p | 0 <= p < |bits| :: !bits[p] <==> p < numPpn && InSegs(segs, beginPpn, p, k)
  }

  /** A segment apart from the others has not been freed before. */
  lemma StillSet(segs: seq<PageRange>, beginPpn: nat, numPpn: nat, k: nat, bits: seq<bool>)
    requires k < |segs| && InRange(segs, beginPpn, numPpn) && Disjoint(segs)
    requires FreedUpTo(segs, beginPpn, numPpn, k, bits)
    ensures forall p | segs[k].from - beginPpn <= p < segs[k].to - beginPpn :: bits[p]
  {
    forall p | segs[k].from - beginPpn <= p < segs[k].to - beginPpn ensures bits[p] {
      assert !InSegs(segs, beginPpn, p, k);
    }
  }

  lemma FreedOne(segs: seq<PageRange>, beginPpn: nat, numPpn: nat, k: nat, bits: seq<bool>, bits': seq<bool>)
    requires k < |segs| && InRange(segs, beginPpn, numPpn) && FreedUpTo(segs, beginPpn, numPpn, k, bits)
    requires Set(bits, bits', segs[k].from - beginPpn, segs[k].to - beginPpn, false)
    ensures FreedUpTo(segs, beginPpn, numPpn, k + 1, bits')
  {
    forall p | 0 <= p < |bits| ensures !bits'[p] <==> p < numPpn && InSegs(segs, beginPpn, p, k + 1) {
      InOneMore(segs, beginPpn, p, k);
    }
  }

  lemma InOneMore(segs: seq<PageRange>, beginPpn: nat, p: nat, k: nat)
    requires k < |segs|
    ensures InSegs(segs, beginPpn, p, k + 1) <==> InSegs(segs, beginPpn, p, k) || InSeg(segs[k], beginPpn, p)
  {
    if InSegs(segs, beginPpn, p, k) {
      var i :| 0 <= i < k && InSeg(segs[i], beginPpn, p);
      assert InSeg(segs[i], beginPpn, p);
    }
  }

  lemma RoundedOrder(paddr: nat, size: nat)
    ensures paddr / PAGE_SIZE <= (paddr + size + PAGE_SIZE - 1) / PAGE_SIZE
  {
  }

  /** A range of whole pages is rounded to itself. */
  lemma WholePages(from: nat, to: nat)
    requires from <= to
    ensures from * PAGE_SIZE / PAGE_SIZE == from
    ensures (from * PAGE_SIZE + (to - from) * PAGE_SIZE + PAGE_SIZE - 1) / PAGE_SIZE == to
  {
    DivModIs(from * PAGE_SIZE, PAGE_SIZE, from, 0);
    DivModIs(from * PAGE_SIZE + (to - from) * PAGE_SIZE + PAGE_SIZE - 1, PAGE_SIZE, to, PAGE_SIZE - 1);
  }

  /** The map lies at the beginning of the node. */
  lemma MapRange(beginPpn: nat, numPpn: nat)
    ensures beginPpn * PAGE_SIZE / PAGE_SIZE == beginPpn
    ensures (beginPpn * PAGE_SIZE + (numPpn + 7) / 8 + PAGE_SIZE - 1) / PAGE_SIZE == beginPpn + MapPages(numPpn)
  {
    DivModIs(beginPpn * PAGE_SIZE, PAGE_SIZE, beginPpn, 0);
    var x := (numPpn + 7) / 8 + PAGE_SIZE - 1;
    DivModIs(beginPpn * PAGE_SIZE + x, PAGE_SIZE, beginPpn + x / PAGE_SIZE, x % PAGE_SIZE);
  }

  // ------------------------------------------------------------ what a request does to the map

  lemma RoundsInPage(off: nat, a: nat)
    requires off < PAGE_SIZE && PowerOfTwo(a) && a <= PAGE_SIZE
    ensures off <= RoundUp(off, a) <= PAGE_SIZE && RoundUp(off, a) % a == 0
  {
    var p := PageMultiple(a);
    RoundUpFacts(off, a);
    RoundsBelow(off, a, p);
  }

  lemma RoundsBelow(off: nat, a: nat, p: nat)
    requires a > 0 && off < p * a
    ensures RoundUp(off, a) <= p * a
  {
    QuotientAtMost(off + a - 1, a, p);
    MulMono((off + a - 1) / a, p, a);
  }

  lemma QuotientAtMost(x: nat, d: nat, k: nat)
    requires d > 0 && x < k * d + d
    ensures x / d <= k
  {
    var q := x / d;
    assert q * d <= x;
    if q > k {
      MulMono(k + 1, q, d);
    }
  }

  lemma WithinPage(off: nat, a: nat)
    requires off < PAGE_SIZE && !Malformed(a) && a <= PAGE_SIZE
    ensures RoundUp(off, a) <= PAGE_SIZE
    ensures if a == 0 then RoundUp(off, a) == 0 else off <= RoundUp(off, a) && RoundUp(off, a) % a == 0
  {
    if a > 0 {
      RoundsInPage(off, a);
    }
  }

  /** The first run of `n` free pages at or after `preferred` or, if there is none, at or after `from`. */
  ghost predicate FirstFit(bits: seq<bool>, num: nat, preferred: nat, from: nat, n: nat, spot: nat) {
    && RunAt(bits, num, spot, n)
    && ((preferred <= spot && NoRunBefore(bits, num, preferred, spot, n)) ||
        (NoRun(bits, num, preferred, n) && from <= spot && NoRunBefore(bits, num, from, spot, n)))
  }

  ghost predicate NoRunBefore(bits: seq<bool>, num: nat, from: nat, to: nat, n: nat) {
    forall i | from <= i < to :: !RunAt(bits, num, i, n)
  }

  /** Whether a request goes behind the bytes used last: the run found is right behind their page. */
  predicate Appends(lastPage: nat, lastOff: nat, spot: nat, a: nat) {
    a <= PAGE_SIZE && lastOff != 0 && lastPage + 1 == spot
  }

  /** Where a request goes, how many pages it marks, and what becomes the page used last. */
  datatype Place = Place(pos: nat, area: nat, page: nat, off: nat)

  function PlaceOf(lastPage: nat, lastOff: nat, spot: nat, size: nat, a: nat): Place
    requires size > 0 && lastOff < PAGE_SIZE && !Malformed(a)
  {
    Pages(size);
    if Appends(lastPage, lastOff, spot, a) then
      WithinPage(lastOff, a);
      var offset := RoundUp(lastOff, a);
      var rem := PAGE_SIZE - offset;
      if size < rem then
        Place(lastPage * PAGE_SIZE + offset, 0, lastPage, (offset + size) % PAGE_SIZE)
      else
        var area := PagesFor(size - rem);
        Place(lastPage * PAGE_SIZE + offset, area, spot + area - 1, (size - rem) % PAGE_SIZE)
    else
      Place(spot * PAGE_SIZE, PagesFor(size), spot + PagesFor(size) - 1, size % PAGE_SIZE)
  }

  ghost predicate NoRun(bits: seq<bool>, num: nat, from: nat, n: nat) {
    forall i: nat | from <= i :: !RunAt(bits, num, i, n)
  }

  /** The first run of `n` free pages at or after `from`. */
  ghost function FirstRun(bits: seq<bool>, num: nat, from: nat, n: nat): Option<nat>
    decreases num - from
  {
    if from >= num then None else if RunAt(bits, num, from, n) then Some(from) else FirstRun(bits, num, from + 1, n)
  }

  lemma {:induction false} FirstRunFound(bits: seq<bool>, num: nat, from: nat, n: nat, spot: nat)
    requires from <= spot && n > 0 && RunAt(bits, num, spot, n) && NoRunBefore(bits, num, from, spot, n)
    ensures FirstRun(bits, num, from, n) == Some(spot)
    decreases spot - from
  {
    if from < spot {
      FirstRunFound(bits, num, from + 1, n, spot);
    }
  }

  lemma {:induction false} FirstRunNone(bits: seq<bool>, num: nat, from: nat, n: nat)
    requires n > 0
    ensures FirstRun(bits, num, from, n) == None <==> NoRun(bits, num, from, n)
    decreases num - from
  {
    if from < num && !RunAt(bits, num, from, n) {
      FirstRunNone(bits, num, from + 1, n);
      assert NoRun(bits, num, from + 1, n) ==> forall i: nat | from <= i :: i == from || !RunAt(bits, num, i, n);
    }
  }

  datatype Request = Request(size: nat, alignment: nat, goal: nat)

  /** What the node remembers: the map, the page used last and how far. */
  datatype Use = Use(bits: seq<bool>, page: nat, off: nat)

  /** The page at which the two scans find room for a request, if they do. */
  ghost function Fit(bits: seq<bool>, beginPpn: nat, num: nat, q: Request): Option<nat> {
    if q.size == 0 || Malformed(q.alignment) then None
    else
      match FirstRun(bits, num, Preferred(beginPpn, num, q.alignment, q.goal), PagesFor(q.size))
      case Some(spot) => Some(spot)
      case None => FirstRun(bits, num, PpnOffset(beginPpn, q.alignment), PagesFor(q.size))
  }

  /** There is none exactly if the request is malformed or no run is free from the first admissible page on. */
  lemma FitNone(bits: seq<bool>, beginPpn: nat, num: nat, q: Request)
    ensures Fit(bits, beginPpn, num, q) == None <==>
            q.size == 0 || Malformed(q.alignment) ||
            NoRun(bits, num, PpnOffset(beginPpn, q.alignment), PagesFor(q.size))
  {
    if q.size > 0 {
      Pages(q.size);
      FirstRunNone(bits, num, Preferred(beginPpn, num, q.alignment, q.goal), PagesFor(q.size));
      FirstRunNone(bits, num, PpnOffset(beginPpn, q.alignment), PagesFor(q.size));
    }
  }

  lemma FitFound(bits: seq<bool>, beginPpn: nat, num: nat, q: Request, spot: nat)
    requires q.size > 0 && !Malformed(q.alignment)
    requires FirstFit(bits, num, Preferred(beginPpn, num, q.alignment, q.goal), PpnOffset(beginPpn, q.alignment),
                      PagesFor(q.size), spot)
    ensures Fit(bits, beginPpn, num, q) == Some(spot)
  {
    Pages(q.size);
    var preferred, from := Preferred(beginPpn, num, q.alignment, q.goal), PpnOffset(beginPpn, q.alignment);
    var n := PagesFor(q.size);
    if preferred <= spot && NoRunBefore(bits, num, preferred, spot, n) {
      FirstRunFound(bits, num, preferred, n, spot);
    } else {
      FirstRunNone(bits, num, preferred, n);
      FirstRunFound(bits, num, from, n, spot);
    }
  }

  /** The page found for a request aligned to more than a page is a multiple of the alignment. */
  ghost predicate FitsAligned(bits: seq<bool>, beginPpn: nat, num: nat, q: Request) {
    q.alignment >= PAGE_SIZE &&
    match Fit(bits, beginPpn, num, q)
    case Some(spot) => (beginPpn + spot) % (q.alignment / PAGE_SIZE) == 0
    case None => false
  }

  /** The map with `n` pages from `i` on set. */
  ghost function WithMarks(bits: seq<bool>, i: nat, n: nat): (r: seq<bool>)
    ensures |r| == |bits|
  {
    seq(|bits|, p requires 0 <= p < |bits| => bits[p] || i <= p < i + n)
  }

  /** The node after a request. */
  ghost function After(u: Use, beginPpn: nat, num: nat, q: Request): (u': Use)
    requires u.off < PAGE_SIZE
    ensures u'.off < PAGE_SIZE && |u'.bits| == |u.bits|
  {
    match Fit(u.bits, beginPpn, num, q)
    case None => u
    case Some(spot) =>
      var place := PlaceOf(u.page, u.off, spot, q.size, q.alignment);
      Use(WithMarks(u.bits, spot, place.area), place.page, place.off)
  }

  /** The node after a run of requests. */
  ghost function AfterAll(u: Use, beginPpn: nat, num: nat, reqs: seq<Request>): (u': Use)
    requires u.off < PAGE_SIZE
    ensures u'.off < PAGE_SIZE && |u'.bits| == |u.bits|
  {
    if reqs == [] then u
    else After(AfterAll(u, beginPpn, num, reqs[..|reqs| - 1]), beginPpn, num, reqs[|reqs| - 1])
  }

  /** Whether request `i` of a run is answered with an address. */
  ghost predicate Granted(u: Use, beginPpn: nat, num: nat, reqs: seq<Request>, i: nat)
    requires u.off < PAGE_SIZE && i < |reqs|
  {
    Fit(AfterAll(u, beginPpn, num, reqs[..i]).bits, beginPpn, num, reqs[i]).Some?
  }

  // ------------------------------------------------------------ the allocator

  datatype Result = Null | Addr(va: nat)

  class Node {
    const beginPpn: nat
    const numPpn: nat
    const pages: Map
    var lastPage: nat
    var lastOff: nat
    ghost var init: seq<bool>
    ghost var regions: seq<Region>

    ghost predicate Valid()
      reads this, pages.data
    {
      && (beginPpn + numPpn) * PAGE_SIZE <= PMA_LIMIT
      && Inv(pages.Bits(), init, numPpn, regions, lastPage, lastOff) && NoneLost(pages.Bits(), init, numPpn, regions)
    }

    /** The node of bootmem_init_uma_node, all pages reserved. */
    constructor (beginPpn: nat, numPpn: nat)
      requires (beginPpn + numPpn) * PAGE_SIZE <= PMA_LIMIT
      ensures this.beginPpn == beginPpn && this.numPpn == numPpn && fresh(pages.data) && fresh(pages) && Valid()
      ensures regions == []
      ensures |pages.Bits()| == 8 * ((numPpn + 7) / 8) && forall p | 0 <= p < |pages.Bits()| :: pages.Bits()[p]
    {
      this.beginPpn, this.numPpn, lastPage, lastOff, regions := beginPpn, numPpn, 0, 0, [];
      pages := new Map((numPpn + 7) / 8, 0xff);
      new;
      init := pages.Bits();
    }

    /** The loop of bootmem_free. */
    method Clear(from: nat, to: nat) returns (ok: bool)
      requires from <= to <= |pages.Bits()|
      modifies pages.data
      ensures ok <==> forall p | from <= p < to :: old(pages.Bits())[p]
      ensures ok ==> Set(old(pages.Bits()), pages.Bits(), from, to, false)
    {
      ok := true;
      var i := from;
      while i != to && ok
        invariant from <= i <= to
        invariant if ok then && Set(old(pages.Bits()), pages.Bits(), from, i, false)
                             && forall p | from <= p < i :: old(pages.Bits())[p]
                  else exists p :: from <= p < to && !old(pages.Bits())[p]
        decreases ok, to - i
      {
        ok := pages.TestAndClear(i);
        i := i + 1;
      }
    }

    /** bootmem_free: false if it panics, because the pages are not all in the node or one of them is free. */
    method Free(paddr: nat, size: nat) returns (ok: bool)
      requires numPpn <= |pages.Bits()|
      modifies pages.data
      ensures ok <==> Inside(paddr, size) && forall p | First(paddr) <= p < Behind(paddr, size) :: old(pages.Bits())[p]
      ensures ok ==> Set(old(pages.Bits()), pages.Bits(), First(paddr), Behind(paddr, size), false)
    {
      var beg, end := paddr / PAGE_SIZE, (paddr + size + PAGE_SIZE - 1) / PAGE_SIZE;
      ok := false;
      if beginPpn <= beg && end <= beginPpn + numPpn {
        RoundedOrder(paddr, size);
        ok := Clear(beg - beginPpn, end - beginPpn);
      }
    }

    /** bootmem_reserve: false if it panics, because the pages are not all in the node or one of them is reserved. */
    method Reserve(paddr: nat, size: nat) returns (ok: bool)
      requires numPpn <= |pages.Bits()|
      modifies pages.data
      ensures ok <==> Inside(paddr, size) && forall p | First(paddr) <= p < Behind(paddr, size) :: !old(pages.Bits())[p]
      ensures ok ==> Set(old(pages.Bits()), pages.Bits(), First(paddr), Behind(paddr, size), true)
    {
      var beg, end := paddr / PAGE_SIZE, (paddr + size + PAGE_SIZE - 1) / PAGE_SIZE;
      ok := false;
      if beginPpn <= beg && end <= beginPpn + numPpn {
        RoundedOrder(paddr, size);
        ok := Occupy(beg - beginPpn, end - beginPpn);
      }
    }

    /** First page of a byte range, counted in the node. */
    function First(paddr: nat): int {
      paddr / PAGE_SIZE - beginPpn
    }

    /** The page behind its last one. */
    function Behind(paddr: nat, size: nat): int {
      (paddr + size + PAGE_SIZE - 1) / PAGE_SIZE - beginPpn
    }

    predicate Inside(paddr: nat, size: nat) {
      0 <= First(paddr) <= Behind(paddr, size) <= numPpn
    }

    /** The loop of bootmem_reserve. */
    method Occupy(from: nat, to: nat) returns (ok: bool)
      requires from <= to <= |pages.Bits()|
      modifies pages.data
      ensures ok <==> forall p | from <= p < to :: !old(pages.Bits())[p]
      ensures ok ==> Set(old(pages.Bits()), pages.Bits(), from, to, true)
    {
      ok := true;
      var i := from;
      while i != to && ok
        invariant from <= i <= to
        invariant if ok then && Set(old(pages.Bits()), pages.Bits(), from, i, true)
                             && forall p | from <= p < i :: !old(pages.Bits())[p]
                  else exists p :: from <= p < to && old(pages.Bits())[p]
        decreases ok, to - i
      {
        var was := pages.TestAndSet(i);
        ok := !was;
        i := i + 1;
      }
    }

    /** bootmem_free_available_segments and the reservation of the map: after initialisation
        exactly the pages of the segments behind the map are free. */
    method Init(segs: seq<PageRange>) returns (ok: bool)
      requires Valid() && regions == [] && numPpn <= |pages.Bits()|
      requires forall p | 0 <= p < |pages.Bits()| :: pages.Bits()[p]
      requires InRange(segs, beginPpn, numPpn) && Disjoint(segs)
      modifies this, pages.data
      ensures ok <==> MapFits(segs, beginPpn, numPpn)
      ensures ok ==> Valid() && regions == [] && init == pages.Bits() && FreeAfter(segs, beginPpn, numPpn, init)
      ensures ok ==> State() == Use(FreeBits(segs, beginPpn, numPpn, |old(pages.Bits())|), 0, 0) && TidyNode()
    {
      FreeAll(segs);
      MapRange(beginPpn, numPpn);
      ok := Reserve(beginPpn * PAGE_SIZE, (numPpn + 7) / 8);
      init, lastPage, lastOff := pages.Bits(), 0, 0;
    }

    /** bootmem_free_available_segments: no free panics. */
    method FreeAll(segs: seq<PageRange>)
      requires numPpn <= |pages.Bits()| && (forall p | 0 <= p < |pages.Bits()| :: pages.Bits()[p])
      requires InRange(segs, beginPpn, numPpn) && Disjoint(segs)
      modifies pages.data
      ensures FreedUpTo(segs, beginPpn, numPpn, |segs|, pages.Bits()) && |pages.Bits()| == |old(pages.Bits())|
    {
      var k, ok := 0, true;
      while k < |segs|
        invariant 0 <= k <= |segs| && ok && FreedUpTo(segs, beginPpn, numPpn, k, pages.Bits())
      {
        ghost var bits := pages.Bits();
        StillSet(segs, beginPpn, numPpn, k, bits);
        WholePages(segs[k].from, segs[k].to);
        ok := Free(segs[k].from * PAGE_SIZE, (segs[k].to - segs[k].from) * PAGE_SIZE);
        FreedOne(segs, beginPpn, numPpn, k, bits, pages.Bits());
        k := k + 1;
      }
    }

    /** The inner loop of the scan, behind a first free page `i`. */
    method RunFree(i: nat, n: nat) returns (found: bool)
      requires numPpn <= |pages.Bits()| && i < numPpn && n > 0 && !pages.Bits()[i]
      ensures found <==> RunAt(pages.Bits(), numPpn, i, n)
    {
      var j := i + 1;
      while j < i + n
        invariant i < j <= i + n && RunAt(pages.Bits(), numPpn, i, j - i)
      {
        if j >= numPpn {
          return false;
        }
        var set_ := pages.Test(j);
        if set_ {
          return false;
        }
        j := j + 1;
      }
      return true;
    }

    /** The scan: the first run of `n` free pages at or after `from`. */
    method Scan(from: nat, n: nat) returns (found: bool, spot: nat)
      requires numPpn <= |pages.Bits()| && n > 0
      ensures found ==> from <= spot && RunAt(pages.Bits(), numPpn, spot, n)
      ensures found ==> NoRunBefore(pages.Bits(), numPpn, from, spot, n)
      ensures !found ==> NoRun(pages.Bits(), numPpn, from, n)
    {
      found, spot := false, from;
      while spot < numPpn
        invariant from <= spot && forall i | from <= i < spot :: !RunAt(pages.Bits(), numPpn, i, n)
      {
        var set_ := pages.Test(spot);
        if !set_ {
          found := RunFree(spot, n);
          if found {
            return;
          }
        }
        spot := spot + 1;
      }
    }

    /** The marking loop at the end of bootmem_alloc; it never meets a page already marked. */
    method Mark(i: nat, n: nat) returns (panicked: bool)
      requires RunAt(pages.Bits(), numPpn, i, n)
      modifies pages.data
      ensures !panicked && Marked(old(pages.Bits()), pages.Bits(), i, n)
    {
      panicked := false;
      var k := i;
      while k != i + n && !panicked
        invariant i <= k <= i + n && !panicked && Marked(old(pages.Bits()), pages.Bits(), i, k - i)
        decreases i + n - k
      {
        panicked := pages.TestAndSet(k);
        k := k + 1;
      }
    }

    /** bootmem_alloc: nothing exactly when the request is malformed or there is no run of free
        pages for it; otherwise a region that is apart from all regions returned before, unless the
        request has alignment 0 and is appended to the page used last. */
    method Alloc(size: nat, alignment: nat, goal: nat) returns (r: Result, ghost spot: nat)
      requires Valid()
      modifies this, pages.data
      ensures Valid() && init == old(init)
      ensures r.Null? <==> size == 0 || Malformed(alignment) ||
                           NoRun(old(pages.Bits()), numPpn, PpnOffset(beginPpn, alignment), PagesFor(size))
      ensures r.Null? ==> Kept(old(regions), old(pages.Bits()), old(lastPage), old(lastOff))
      ensures Fit(old(pages.Bits()), beginPpn, numPpn, Request(size, alignment, goal)) ==
              if r.Null? then None else Some(spot)
      ensures r.Addr? ==> FirstFit(old(pages.Bits()), numPpn, Preferred(beginPpn, numPpn, alignment, goal),
                                   PpnOffset(beginPpn, alignment), PagesFor(size), spot)
      ensures r.Addr? ==> var place := PlaceOf(old(lastPage), old(lastOff), spot, size, alignment);
                          && Given(old(regions), regions, beginPpn, place.pos, size, r.va)
                          && Marked(old(pages.Bits()), pages.Bits(), spot, place.area)
                          && lastPage == place.page && lastOff == place.off
      ensures r.Addr? && old(TidyNode()) ==>
                if alignment == 0 && Appends(old(lastPage), old(lastOff), spot, 0) then !Apart(regions) else TidyNode()
      ensures r.Addr? && 0 < alignment <= PAGE_SIZE ==> r.va % alignment == 0
      ensures r.Addr? && PAGE_SIZE < alignment <= PMA_LIMIT ==>
                (r.va % alignment == 0 <==>
                 FitsAligned(old(pages.Bits()), beginPpn, numPpn, Request(size, alignment, goal)))
    {
      FitNone(pages.Bits(), beginPpn, numPpn, Request(size, alignment, goal));
      r, spot := Null, 0;
      if size > 0 && !Malformed(alignment) {
        var found, at := Find(size, alignment, goal);
        if found {
          r := Grant(at, size, alignment);
          spot := at;
        }
      }
    }

    /** The two scans. */
    method Find(size: nat, alignment: nat, goal: nat) returns (found: bool, at: nat)
      requires numPpn <= |pages.Bits()| && size > 0 && !Malformed(alignment)
      ensures found ==> FirstFit(pages.Bits(), numPpn, Preferred(beginPpn, numPpn, alignment, goal),
                                 PpnOffset(beginPpn, alignment), PagesFor(size), at)
      ensures Fit(pages.Bits(), beginPpn, numPpn, Request(size, alignment, goal)) == if found then Some(at) else None
    {
      Pages(size);
      found, at := Scan(Preferred(beginPpn, numPpn, alignment, goal), PagesFor(size));
      if !found {
        found, at := Scan(PpnOffset(beginPpn, alignment), PagesFor(size));
      }
      FitNone(pages.Bits(), beginPpn, numPpn, Request(size, alignment, goal));
      if found {
        FitFound(pages.Bits(), beginPpn, numPpn, Request(size, alignment, goal), at);
      }
    }

    /** What the node remembers. */
    ghost function State(): Use
      reads this, pages.data
    {
      Use(pages.Bits(), lastPage, lastOff)
    }

    ghost predicate Kept(regions0: seq<Region>, bits0: seq<bool>, page0: nat, off0: nat)
      reads this, pages.data
    {
      regions == regions0 && pages.Bits() == bits0 && lastPage == page0 && lastOff == off0
    }

    /** The regions handed out are apart, and so is the tail of the page used last. */
    ghost predicate TidyNode()
      reads this
    {
      Tidy(regions, lastPage, lastOff)
    }

    /** The second half of bootmem_alloc. */
    method Grant(spot: nat, size: nat, a: nat) returns (r: Result)
      requires Valid() && size > 0 && !Malformed(a) && RunAt(pages.Bits(), numPpn, spot, PagesFor(size))
      modifies this, pages.data
      ensures Valid() && init == old(init) && r.Addr?
      ensures var place := PlaceOf(old(lastPage), old(lastOff), spot, size, a);
              && Given(old(regions), regions, beginPpn, place.pos, size, r.va)
              && Marked(old(pages.Bits()), pages.Bits(), spot, place.area)
              && lastPage == place.page && lastOff == place.off
      ensures old(TidyNode()) ==>
                if a == 0 && Appends(old(lastPage), old(lastOff), spot, 0) then !Apart(regions) else TidyNode()
      ensures 0 < a <= PAGE_SIZE ==> r.va % a == 0
      ensures PAGE_SIZE < a <= PMA_LIMIT ==> (r.va % a == 0 <==> (beginPpn + spot) % (a / PAGE_SIZE) == 0)
    {
      var place := PlaceOf(lastPage, lastOff, spot, size, a);
      ghost var bits := pages.Bits();
      ghost var rs := regions + [Region(place.pos, size)];
      PlaceFacts(lastPage, lastOff, spot, size, a);
      var panicked := Mark(spot, place.area);
      PlaceKeeps(bits, pages.Bits(), init, numPpn, regions, lastPage, lastOff, spot, size, a, place);
      PlaceTouches(bits, pages.Bits(), init, numPpn, regions, lastPage, lastOff, spot, size, a, place);
      PlaceApart(bits, init, numPpn, regions, lastPage, lastOff, spot, size, a, place);
      InNode(pages.Bits(), init, numPpn, rs);
      assert rs[|rs| - 1] == Region(place.pos, size);
      if 0 < a <= PAGE_SIZE {
        PlaceAligned(beginPpn, lastPage, lastOff, spot, size, a);
      } else if PAGE_SIZE < a <= PMA_LIMIT {
        AlignedAbovePage(beginPpn + spot, a);
      }
      lastPage, lastOff, regions := place.page, place.off, rs;
      return Addr(Pa2Va(beginPpn * PAGE_SIZE + place.pos));
    }
  }

  /** The region at `pos` has been added and `va` is its address. */
  ghost predicate Given(rs: seq<Region>, rs': seq<Region>, beginPpn: nat, pos: nat, size: nat, va: nat) {
    beginPpn * PAGE_SIZE + pos < PMA_LIMIT && va == Pa2Va(beginPpn * PAGE_SIZE + pos) && rs' == rs + [Region(pos, size)]
  }

  /** The pages a request marks are free ones of the run found for it. */
  lemma PlaceFacts(lastPage: nat, lastOff: nat, spot: nat, size: nat, a: nat)
    requires size > 0 && lastOff < PAGE_SIZE && !Malformed(a)
    ensures PlaceOf(lastPage, lastOff, spot, size, a).area <= PagesFor(size)
    ensures Appends(lastPage, lastOff, spot, a) ==>
              var place, start := PlaceOf(lastPage, lastOff, spot, size, a), RoundUp(lastOff, a);
              && place.pos == lastPage * PAGE_SIZE + start
              && Fits(lastPage, lastOff, start, place.area, size, place.page, place.off)
  {
    if Appends(lastPage, lastOff, spot, a) {
      WithinPage(lastOff, a);
      var start := RoundUp(lastOff, a);
      if PAGE_SIZE - start <= size {
        BackPages(start, size);
      }
    }
  }

  lemma PlaceKeeps(bits: seq<bool>, bits': seq<bool>, init: seq<bool>, num: nat, rs: seq<Region>, lastPage: nat,
                   lastOff: nat, spot: nat, size: nat, a: nat, place: Place)
    requires Inv(bits, init, num, rs, lastPage, lastOff) && size > 0 && !Malformed(a)
    requires RunAt(bits, num, spot, PagesFor(size)) && place == PlaceOf(lastPage, lastOff, spot, size, a)
    requires Marked(bits, bits', spot, place.area)
    ensures Inv(bits', init, num, rs + [Region(place.pos, size)], place.page, place.off)
  {
    PlaceFacts(lastPage, lastOff, spot, size, a);
    if Appends(lastPage, lastOff, spot, a) {
      AppendedInv(bits, bits', init, num, rs, lastPage, lastOff, RoundUp(lastOff, a), place.area, size, place.page,
                  place.off);
    } else {
      FreshInv(bits, bits', init, num, rs, lastPage, lastOff, spot, place.area, size);
    }
  }

  /** The pages a request marks are needed for it. */
  lemma PlaceTouches(bits: seq<bool>, bits': seq<bool>, init: seq<bool>, num: nat, rs: seq<Region>, lastPage: nat,
                     lastOff: nat, spot: nat, size: nat, a: nat, place: Place)
    requires NoneLost(bits, init, num, rs) && size > 0 && lastOff < PAGE_SIZE && !Malformed(a)
    requires place == PlaceOf(lastPage, lastOff, spot, size, a) && Marked(bits, bits', spot, place.area)
    ensures NoneLost(bits', init, num, rs + [Region(place.pos, size)])
  {
    var r := Region(place.pos, size);
    var t := rs + [r];
    forall p: nat | Taken(bits', init, num, p) ensures TouchedBy(t, p) {
      if bits[p] {
        assert Taken(bits, init, num, p);
        var i :| 0 <= i < |rs| && Touches(rs[i], p);
        assert Touches(t[i], p);
      } else {
        MarkedTouched(lastPage, lastOff, spot, size, a, p);
        assert Touches(t[|rs|], p);
      }
    }
  }

  lemma MarkedTouched(lastPage: nat, lastOff: nat, spot: nat, size: nat, a: nat, p: nat)
    requires size > 0 && lastOff < PAGE_SIZE && !Malformed(a)
    requires spot <= p < spot + PlaceOf(lastPage, lastOff, spot, size, a).area
    ensures Touches(Region(PlaceOf(lastPage, lastOff, spot, size, a).pos, size), p)
  {
    PlaceFacts(lastPage, lastOff, spot, size, a);
    Pages(size);
    if Appends(lastPage, lastOff, spot, a) {
      var place := PlaceOf(lastPage, lastOff, spot, size, a);
      MulMono(p, lastPage + place.area, PAGE_SIZE);
    } else {
      MulMono(p, spot + PagesFor(size) - 1, PAGE_SIZE);
    }
  }

  /** Regions stay apart exactly off the path that appends with alignment 0. */
  lemma PlaceApart(bits: seq<bool>, init: seq<bool>, num: nat, rs: seq<Region>, lastPage: nat, lastOff: nat,
                   spot: nat, size: nat, a: nat, place: Place)
    requires Inv(bits, init, num, rs, lastPage, lastOff) && size > 0 && !Malformed(a)
    requires RunAt(bits, num, spot, PagesFor(size)) && place == PlaceOf(lastPage, lastOff, spot, size, a)
    ensures Tidy(rs, lastPage, lastOff) ==>
              if a == 0 && Appends(lastPage, lastOff, spot, 0) then !Apart(rs + [Region(place.pos, size)])
              else Tidy(rs + [Region(place.pos, size)], place.page, place.off)
  {
    if Tidy(rs, lastPage, lastOff) {
      PlaceFacts(lastPage, lastOff, spot, size, a);
      if !Appends(lastPage, lastOff, spot, a) {
        FreshApart(bits, init, num, rs, lastPage, lastOff, spot, place.area, size);
      } else if a > 0 {
        WithinPage(lastOff, a);
        AppendedApart(bits, init, num, rs, lastPage, lastOff, RoundUp(lastOff, a), place.area, size, place.page,
                      place.off);
      } else {
        OverlapsAtStart(rs, lastPage, size);
      }
    }
  }

  /** Regions end inside the node. */
  lemma InNode(bits: seq<bool>, init: seq<bool>, num: nat, rs: seq<Region>)
    requires forall i | 0 <= i < |rs| :: InTaken(bits, init, num, rs[i])
    ensures forall i | 0 <= i < |rs| :: rs[i].pos + rs[i].len <= num * PAGE_SIZE
  {
    forall i | 0 <= i < |rs| ensures rs[i].pos + rs[i].len <= num * PAGE_SIZE {
      var p := (rs[i].pos + rs[i].len - 1) / PAGE_SIZE;
      assert Touches(rs[i], p);
    }
  }

  lemma PlaceAligned(beginPpn: nat, lastPage: nat, lastOff: nat, spot: nat, size: nat, a: nat)
    requires PowerOfTwo(a) && a <= PAGE_SIZE && size > 0 && lastOff < PAGE_SIZE
    requires beginPpn * PAGE_SIZE + PlaceOf(lastPage, lastOff, spot, size, a).pos < PMA_LIMIT
    ensures Pa2Va(beginPpn * PAGE_SIZE + PlaceOf(lastPage, lastOff, spot, size, a).pos) % a == 0
  {
    if Appends(lastPage, lastOff, spot, a) {
      WithinPage(lastOff, a);
      AddressAligned(beginPpn + lastPage, RoundUp(lastOff, a), a);
    } else {
      DivModIs(0, a, 0, 0);
      AddressAligned(beginPpn + spot, 0, a);
    }
  }

  // ------------------------------------------------------------ two alignments that are not honoured

  /** A node of three pages, the first of them with the map. */
  method SmallNode() returns (node: Node)
    ensures fresh(node) && fresh(node.pages.data) && node.Valid() && node.TidyNode()
    ensures node.beginPpn == 1 && node.numPpn == 3 && node.lastOff == 0
    ensures |node.pages.Bits()| == 8 && node.pages.Bits()[0] && !node.pages.Bits()[1] && !node.pages.Bits()[2]
  {
    node := new Node(1, 3);
    var segs := [PageRange(1, 4)];
    assert forall p | 0 <= p < 3 :: InSeg(segs[0], 1, p);
    var ok := node.Init(segs);
  }

  /** The first fit of one page among three is the first free page. */
  lemma FirstFree(bits: seq<bool>, k: nat, preferred: nat, from: nat)
    requires |bits| == 8 && k < 3 && !bits[k] && (forall p | 0 <= p < k :: bits[p]) && preferred <= k && from <= k
    ensures !NoRun(bits, 3, from, 1)
    ensures forall spot: nat | FirstFit(bits, 3, preferred, from, 1, spot) :: spot == k
  {
    assert RunAt(bits, 3, k, 1);
    forall p: nat | p < k ensures !RunAt(bits, 3, p, 1) {
      assert p <= p < p + 1 && bits[p];
    }
  }

  /** Where the scan begins when there is no goal. */
  lemma NoGoal(a: nat)
    requires a == 0 || a == 1 || a == 2 * PAGE_SIZE
    ensures PpnOffset(1, a) == (if a > PAGE_SIZE then 1 else 0) && Preferred(1, 3, a, 0) == PpnOffset(1, a)
  {
    if a == 2 * PAGE_SIZE {
      assert PpnOffset(1, 0x2000) == 1 && RoundUp(0, 0x2000) == 0;
    }
  }

  lemma WellFormed(a: nat)
    requires a == 0 || a == 1 || a == 2 * PAGE_SIZE
    ensures !Malformed(a)
  {
    if a == 2 * PAGE_SIZE {
      Limit();
      PowersAre(13);
    }
  }

  lemma {:induction false} PowersAre(k: nat)
    ensures PowerOfTwo(Pow2(k))
  {
    if k > 0 {
      PowersAre(k - 1);
    }
  }

  /** A request of 8 bytes on that node, when page `k` is the first free one. */
  method Ask(node: Node, a: nat, ghost k: nat) returns (r: Result)
    requires node.Valid() && node.beginPpn == 1 && node.numPpn == 3 && |node.pages.Bits()| == 8
    requires 1 <= k < 3 && !node.pages.Bits()[k] && forall p | 0 <= p < k :: node.pages.Bits()[p]
    requires a == 0 || a == 1 || a == 2 * PAGE_SIZE
    modifies node, node.pages.data
    ensures node.Valid() && r.Addr?
    ensures !Malformed(a)
    ensures var place := PlaceOf(old(node.lastPage), old(node.lastOff), k, 8, a);
            && r.va == VA_KERNEL_BEGIN + PAGE_SIZE + place.pos
            && node.lastPage == place.page && node.lastOff == place.off
            && Marked(old(node.pages.Bits()), node.pages.Bits(), k, place.area)
  {
    NoGoal(a);
    WellFormed(a);
    assert PagesFor(8) == 1;
    FirstFree(node.pages.Bits(), k, PpnOffset(1, a), PpnOffset(1, a));
    ghost var spot;
    r, spot := node.Alloc(8, a, 0);
  }

  /** With alignment 0 the second of two requests is given the bytes of the first. */
  method ZeroAlignmentOverlaps() returns (first: Result, second: Result)
    ensures first.Addr? && second == first
  {
    var node := SmallNode();
    first := Ask(node, 1, 1);
    second := Ask(node, 0, 2);
  }

  /** Aligned to two pages, the second of two requests is given an address that is not. */
  method LargeAlignmentIgnored() returns (first: Result, second: Result)
    ensures first.Addr? && first.va % (2 * PAGE_SIZE) == 0
    ensures second.Addr? && second.va % (2 * PAGE_SIZE) != 0
  {
    var node := SmallNode();
    first := Ask(node, 2 * PAGE_SIZE, 1);
    second := Ask(node, 2 * PAGE_SIZE, 2);
  }

  // ------------------------------------------------------------ runs

  /** Bytes `va..va + size` of `r` and `va'..va' + size'` of `r'` have none in common. */
  ghost predicate NoOverlap(r: Result, size: nat, r': Result, size': nat) {
    r.Addr? && r'.Addr? ==> r.va + size <= r'.va || r'.va + size' <= r.va
  }

  /** What `r` answers to `q` is the region `rs[k]`. */
  ghost predicate Answers(r: Result, q: Request, rs: seq<Region>, beginPpn: nat, k: nat) {
    k < |rs| && r == Addr(VA_KERNEL_BEGIN + beginPpn * PAGE_SIZE + rs[k].pos) && q.size == rs[k].len
  }

  ghost predicate Answered(r: Result, q: Request, rs: seq<Region>, beginPpn: nat) {
    && (r.Addr? ==> exists k: nat :: Answers(r, q, rs, beginPpn, k))
    && (r.Addr? && 0 < q.alignment <= PAGE_SIZE ==> r.va % q.alignment == 0)
  }

  /** An address stands for one region more, a null for none. */
  ghost predicate Added(r: Result, q: Request, rs: seq<Region>, rs': seq<Region>, beginPpn: nat) {
    && (if r.Null? then rs' == rs
        else |rs'| == |rs| + 1 && rs <= rs' && Answers(r, q, rs', beginPpn, |rs|))
    && (r.Addr? && 0 < q.alignment <= PAGE_SIZE ==> r.va % q.alignment == 0)
  }

  /** One more request of a run. */
  lemma AfterNext(u: Use, beginPpn: nat, num: nat, reqs: seq<Request>, k: nat)
    requires u.off < PAGE_SIZE && k < |reqs|
    ensures AfterAll(u, beginPpn, num, reqs[..k + 1]) ==
            After(AfterAll(u, beginPpn, num, reqs[..k]), beginPpn, num, reqs[k])
  {
    assert reqs[..k + 1][..k] == reqs[..k];
  }

  /** The state of the node after request `q`, as bootmem_alloc leaves it. */
  lemma AfterIs(u: Use, beginPpn: nat, num: nat, q: Request, spot: nat, u': Use)
    requires u.off < PAGE_SIZE && Fit(u.bits, beginPpn, num, q) == Some(spot)
    requires var place := PlaceOf(u.page, u.off, spot, q.size, q.alignment);
             Marked(u.bits, u'.bits, spot, place.area) && u'.page == place.page && u'.off == place.off
    ensures u' == After(u, beginPpn, num, q)
  {
    var place := PlaceOf(u.page, u.off, spot, q.size, q.alignment);
    assert u'.bits == WithMarks(u.bits, spot, place.area);
  }

  /** One request of a run. */
  method ServeOne(node: Node, q: Request) returns (r: Result)
    requires node.Valid() && node.TidyNode() && q.alignment > 0
    modifies node, node.pages.data
    ensures node.Valid() && node.TidyNode() && node.init == old(node.init)
    ensures node.State() == After(old(node.State()), node.beginPpn, node.numPpn, q)
    ensures r.Addr? <==> Fit(old(node.pages.Bits()), node.beginPpn, node.numPpn, q).Some?
    ensures Added(r, q, old(node.regions), node.regions, node.beginPpn)
  {
    ghost var u := node.State();
    ghost var spot;
    r, spot := node.Alloc(q.size, q.alignment, q.goal);
    if r.Addr? {
      AfterIs(u, node.beginPpn, node.numPpn, q, spot, node.State());
    }
  }

  /** What a run of requests is to answer: an address exactly where there is room, aligned up to a page, and no
      two ranges that overlap. */
  ghost predicate Served(u: Use, beginPpn: nat, num: nat, reqs: seq<Request>, rs: seq<Result>, regions: seq<Region>)
    requires u.off < PAGE_SIZE && |rs| <= |reqs|
  {
    && (forall i | 0 <= i < |rs| :: rs[i].Addr? <==> Granted(u, beginPpn, num, reqs, i))
    && (forall i | 0 <= i < |rs| :: Answered(rs[i], reqs[i], regions, beginPpn))
    && (forall i, j | 0 <= i < j < |rs| :: NoOverlap(rs[i], reqs[i].size, rs[j], reqs[j].size))
  }

  lemma ServedNext(u: Use, beginPpn: nat, num: nat, reqs: seq<Request>, rs: seq<Result>, regions: seq<Region>,
                   regions': seq<Region>, r: Result)
    requires u.off < PAGE_SIZE && |rs| < |reqs| && Served(u, beginPpn, num, reqs, rs, regions) && Apart(regions')
    requires Added(r, reqs[|rs|], regions, regions', beginPpn)
    requires r.Addr? <==> Granted(u, beginPpn, num, reqs, |rs|)
    ensures Served(u, beginPpn, num, reqs, rs + [r], regions')
  {
    OneMore(rs, reqs, regions, regions', beginPpn, r);
    var t := rs + [r];
    forall i | 0 <= i < |t| ensures t[i].Addr? <==> Granted(u, beginPpn, num, reqs, i) {
      assert i < |rs| ==> t[i] == rs[i];
    }
  }

  /** A page marked stays marked. */
  lemma {:induction false} AfterKeeps(u: Use, beginPpn: nat, num: nat, reqs: seq<Request>)
    requires u.off < PAGE_SIZE
    ensures forall p | 0 <= p < |u.bits| :: u.bits[p] ==> AfterAll(u, beginPpn, num, reqs).bits[p]
  {
    if reqs != [] {
      AfterKeeps(u, beginPpn, num, reqs[..|reqs| - 1]);
    }
  }

  /** Any run of requests with alignments other than 0: the node is as the requests leave it one by
      one, what is returned is aligned as asked for, up to a page, and no two ranges overlap. */
  method Serve(node: Node, reqs: seq<Request>) returns (rs: seq<Result>)
    requires node.Valid() && node.TidyNode() && forall i | 0 <= i < |reqs| :: reqs[i].alignment > 0
    modifies node, node.pages.data
    ensures node.Valid() && node.TidyNode() && node.init == old(node.init) && |rs| == |reqs|
    ensures node.State() == AfterAll(old(node.State()), node.beginPpn, node.numPpn, reqs)
    ensures Served(old(node.State()), node.beginPpn, node.numPpn, reqs, rs, node.regions)
    ensures forall p | 0 <= p < |node.pages.Bits()| == |old(node.pages.Bits())| ::
              old(node.pages.Bits())[p] ==> node.pages.Bits()[p]
  {
    ghost var u := node.State();
    rs := [];
    assert reqs[..0] == [];
    while |rs| < |reqs|
      invariant |rs| <= |reqs| && node.Valid() && node.TidyNode() && node.init == old(node.init)
      invariant node.State() == AfterAll(u, node.beginPpn, node.numPpn, reqs[..|rs|])
      invariant Served(u, node.beginPpn, node.numPpn, reqs, rs, node.regions)
    {
      ghost var regions := node.regions;
      AfterNext(u, node.beginPpn, node.numPpn, reqs, |rs|);
      var r := ServeOne(node, reqs[|rs|]);
      ServedNext(u, node.beginPpn, node.numPpn, reqs, rs, regions, node.regions, r);
      rs := rs + [r];
    }
    assert reqs[..|rs|] == reqs;
    AfterKeeps(u, node.beginPpn, node.numPpn, reqs);
  }

  lemma OneMore(rs: seq<Result>, reqs: seq<Request>, regions: seq<Region>, regions': seq<Region>, beginPpn: nat,
                r: Result)
    requires |rs| < |reqs| && forall i | 0 <= i < |rs| :: Answered(rs[i], reqs[i], regions, beginPpn)
    requires Added(r, reqs[|rs|], regions, regions', beginPpn)
    requires Apart(regions')
    ensures forall i | 0 <= i < |rs| :: Answered(rs[i], reqs[i], regions', beginPpn)
    ensures Answered(r, reqs[|rs|], regions', beginPpn)
    ensures forall i | 0 <= i < |rs| :: NoOverlap(rs[i], reqs[i].size, r, reqs[|rs|].size)
  {
    forall i | 0 <= i < |rs|
      ensures Answered(rs[i], reqs[i], regions', beginPpn) && NoOverlap(rs[i], reqs[i].size, r, reqs[|rs|].size)
    {
      if rs[i].Addr? {
        var k: nat :| Answers(rs[i], reqs[i], regions, beginPpn, k);
        assert Answers(rs[i], reqs[i], regions', beginPpn, k);
        if r.Addr? {
          assert Separate(regions'[k], regions'[|regions|]);
        }
      }
    }
  }
}
