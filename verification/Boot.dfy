/** From the memory ranges of the device tree to the free lists: device_calc_available_ram,
    bootmem_init, the requests served while booting, and kmem_page_manager_init. */
module Boot {
  import opened Addr
  import opened Arith
  import opened Blocks
  import opened Buddy
  import opened BuddyRuns
  import Bootmem
  import Sweep

  // ------------------------------------------------------------ segments in pages

  /** `PAGE_ROUND_UP(begin) >> PAGE_SHIFT` */
  function FirstPage(g: Sweep.Segment): nat {
    (g.begin + PAGE_SIZE - 1) / PAGE_SIZE
  }

  /** `PAGE_ROUND_DOWN(end) >> PAGE_SHIFT` */
  function EndPage(g: Sweep.Segment): nat {
    (g.begin + g.len) / PAGE_SIZE
  }

  ghost predicate WholePages(g: Sweep.Segment) {
    g.len > 0 && g.begin % PAGE_SIZE == 0 && g.len % PAGE_SIZE == 0
  }

  /** Segments of whole pages, in increasing order, that a kernel address reaches. */
  ghost predicate Proper(segs: seq<Sweep.Segment>) {
    && (forall i | 0 <= i < |segs| :: WholePages(segs[i]) && segs[i].begin + segs[i].len <= PMA_LIMIT)
    && (forall i, j | 0 <= i < j < |segs| :: segs[i].begin + segs[i].len < segs[j].begin)
  }

  function Ranges(segs: seq<Sweep.Segment>): seq<Bootmem.PageRange> {
    seq(|segs|, i requires 0 <= i < |segs| => Bootmem.PageRange(FirstPage(segs[i]), EndPage(segs[i])))
  }

  /** A segment of whole pages holds a page if and only if it holds its first byte. */
  lemma SegmentPages(g: Sweep.Segment, p: nat)
    requires WholePages(g)
    ensures g.begin == FirstPage(g) * PAGE_SIZE && g.begin + g.len == EndPage(g) * PAGE_SIZE
    ensures FirstPage(g) < EndPage(g)
    ensures Sweep.InSegment(g, p * PAGE_SIZE) <==> FirstPage(g) <= p < EndPage(g)
  {
    var q, n := g.begin / PAGE_SIZE, g.len / PAGE_SIZE;
    DivModIs(g.begin + PAGE_SIZE - 1, PAGE_SIZE, q, PAGE_SIZE - 1);
    DivModIs(g.begin + g.len, PAGE_SIZE, q + n, 0);
  }

  // ------------------------------------------------------------ the bounds of the node

  ghost predicate IsLeast(segs: seq<Sweep.Segment>, x: nat) {
    (exists i | 0 <= i < |segs| :: FirstPage(segs[i]) == x) && forall i | 0 <= i < |segs| :: x <= FirstPage(segs[i])
  }

  ghost predicate IsGreatest(segs: seq<Sweep.Segment>, x: nat) {
    (exists i | 0 <= i < |segs| :: EndPage(segs[i]) == x) && forall i | 0 <= i < |segs| :: EndPage(segs[i]) <= x
  }

  /** The loop of bootmem_init_uma_node. */
  method Bounds(segs: seq<Sweep.Segment>) returns (lower: nat, upper: nat)
    requires Proper(segs) && segs != []
    ensures IsLeast(segs, lower) && IsGreatest(segs, upper)
  {
    lower, upper := Sweep.U64_MAX, 0;
    var k := 0;
    while k < |segs|
      invariant 0 <= k <= |segs|
      invariant if k == 0 then lower == Sweep.U64_MAX && upper == 0
                else IsLeast(segs[..k], lower) && IsGreatest(segs[..k], upper)
    {
      SegmentPages(segs[k], 0);
      var beg, end := FirstPage(segs[k]), EndPage(segs[k]);
      ghost var l, u := lower, upper;
      upper := if upper < end then end else upper;
      lower := if lower > beg then beg else lower;
      BoundsStep(segs, k, l, u, lower, upper);
      k := k + 1;
    }
    assert segs[..k] == segs;
  }

  lemma BoundsStep(segs: seq<Sweep.Segment>, k: nat, l: nat, u: nat, lower: nat, upper: nat)
    requires k < |segs| && FirstPage(segs[k]) < Sweep.U64_MAX && 0 < EndPage(segs[k])
    requires if k == 0 then l == Sweep.U64_MAX && u == 0 else IsLeast(segs[..k], l) && IsGreatest(segs[..k], u)
    requires upper == (if u < EndPage(segs[k]) then EndPage(segs[k]) else u)
    requires lower == (if l > FirstPage(segs[k]) then FirstPage(segs[k]) else l)
    ensures IsLeast(segs[..k + 1], lower) && IsGreatest(segs[..k + 1], upper)
  {
    var t := segs[..k + 1];
    assert t == segs[..k] + [segs[k]] && t[k] == segs[k];
    if k > 0 {
      var i :| 0 <= i < k && FirstPage(segs[..k][i]) == l;
      assert FirstPage(t[i]) == l;
      var j :| 0 <= j < k && EndPage(segs[..k][j]) == u;
      assert EndPage(t[j]) == u;
    }
  }

  lemma RangesFit(segs: seq<Sweep.Segment>, lower: nat, upper: nat)
    requires Proper(segs) && IsLeast(segs, lower) && IsGreatest(segs, upper)
    ensures lower < upper && upper * PAGE_SIZE <= PMA_LIMIT
    ensures Bootmem.InRange(Ranges(segs), lower, upper - lower) && Bootmem.Disjoint(Ranges(segs))
  {
    forall i | 0 <= i < |segs| ensures FirstPage(segs[i]) < EndPage(segs[i]) {
      SegmentPages(segs[i], 0);
    }
    var i :| 0 <= i < |segs| && EndPage(segs[i]) == upper;
    SegmentPages(segs[i], 0);
    forall i, j | 0 <= i < j < |segs| ensures EndPage(segs[i]) <= FirstPage(segs[j]) {
      SegmentPages(segs[i], 0);
      SegmentPages(segs[j], 0);
    }
  }

  /** A page is in one of the ranges exactly if its first byte is in one of the segments. */
  lemma InRanges(segs: seq<Sweep.Segment>, lower: nat, p: nat)
    requires Proper(segs)
    ensures Bootmem.InSegs(Ranges(segs), lower, p, |segs|) <==> Sweep.InSegs(segs, (lower + p) * PAGE_SIZE)
  {
    var rs := Ranges(segs);
    forall i | 0 <= i < |segs|
      ensures Bootmem.InSeg(rs[i], lower, p) <==> Sweep.InSegment(segs[i], (lower + p) * PAGE_SIZE)
    {
      SegmentPages(segs[i], lower + p);
    }
  }

  // ------------------------------------------------------------ the chain

  /** The segments of device_calc_available_ram are as the boot allocator needs them. */
  lemma SegmentsProper(b: seq<nat>, e: seq<nat>, ram: nat, len: nat, imageEnd: nat, w: Sweep.Job,
                       segs: seq<Sweep.Segment>)
    requires Sweep.Result(b, e, ram, len, imageEnd, w, segs) && ram < imageEnd && ram + len <= PMA_LIMIT
    ensures Proper(segs)
  {
    forall i | 0 <= i < |segs| ensures WholePages(segs[i]) && segs[i].begin + segs[i].len <= PMA_LIMIT {
      Sweep.SegmentsArePages(b, e, ram, len, imageEnd, w, segs, i);
      Sweep.SegmentEnd(b, e, ram, len, imageEnd, w, segs, i);
    }
  }

  /** What is to be free: the pages of the segments that hold neither the map nor a region that the
      boot allocator has handed out. */
  ghost predicate Available(segs: seq<Sweep.Segment>, begin: nat, num: nat, regions: seq<Bootmem.Region>, p: nat) {
    Sweep.InSegs(segs, (begin + p) * PAGE_SIZE) && p >= Bootmem.MapPages(num) && !Bootmem.TouchedBy(regions, p)
  }

  /** Some block of the free lists covers page `p`. */
  ghost predicate Listed(lists: seq<set<nat>>, p: nat) {
    exists o: nat, t: nat :: Covering(lists, o, t, p)
  }

  /** The clear bits of the map after any requests. */
  lemma ClearBits(segs: seq<Sweep.Segment>, begin: nat, num: nat, init: seq<bool>, bits: seq<bool>,
                  regions: seq<Bootmem.Region>, page: nat, off: nat, p: nat)
    requires Proper(segs) && Bootmem.FreeAfter(Ranges(segs), begin, num, init)
    requires Bootmem.Inv(bits, init, num, regions, page, off) && Bootmem.NoneLost(bits, init, num, regions) && p < num
    ensures !bits[p] <==> Available(segs, begin, num, regions, p)
  {
    InRanges(segs, begin, p);
    if Bootmem.TouchedBy(regions, p) {
      var i :| 0 <= i < |regions| && Bootmem.Touches(regions[i], p);
      assert Bootmem.InTaken(bits, init, num, regions[i]);
    }
    if bits[p] && !init[p] {
      assert Bootmem.Taken(bits, init, num, p);
    }
  }

  /** The node after bootmem_init. */
  ghost function FirstUse(segs: seq<Sweep.Segment>, begin: nat, num: nat): (u: Bootmem.Use)
    ensures u.off == 0
  {
    Bootmem.Use(Bootmem.FreeBits(Ranges(segs), begin, num, 8 * ((num + 7) / 8)), 0, 0)
  }

  /** bootmem_init: the node, or none if the map at its beginning is not in available memory. */
  method StartNode(segs: seq<Sweep.Segment>) returns (ok: bool, node: Bootmem.Node)
    requires Proper(segs) && segs != []
    ensures fresh(node) && fresh(node.pages.data)
    ensures IsLeast(segs, node.beginPpn) && IsGreatest(segs, node.beginPpn + node.numPpn)
    ensures ok <==> Bootmem.MapFits(Ranges(segs), node.beginPpn, node.numPpn)
    ensures ok ==> node.Valid() && node.TidyNode() && node.regions == []
    ensures ok ==> Bootmem.FreeAfter(Ranges(segs), node.beginPpn, node.numPpn, node.init)
    ensures ok ==> node.State() == FirstUse(segs, node.beginPpn, node.numPpn)
  {
    var lower, upper := Bounds(segs);
    RangesFit(segs, lower, upper);
    node := new Bootmem.Node(lower, upper - lower);
    ok := node.Init(Ranges(segs));
  }

  /** kmem_page_manager_init on the map of the boot allocator: the free lists hold exactly the pages
      that are available and not yet in use. */
  method HandOver(node: Bootmem.Node, ghost segs: seq<Sweep.Segment>) returns (pm: PageManager)
    requires node.Valid() && Proper(segs) && Bootmem.FreeAfter(Ranges(segs), node.beginPpn, node.numPpn, node.init)
    requires forall o | 0 <= o < MAX_ORDER :: AreaFits(node.numPpn, o)
    modifies node.pages.data
    ensures pm.Valid() && pm.beginPpn == node.beginPpn && pm.numPpn == node.numPpn
    ensures forall p: nat | p < pm.numPpn ::
              Listed(pm.listed, p) <==> Available(segs, pm.beginPpn, pm.numPpn, old(node.regions), p)
  {
    ghost var bits, regions := node.pages.Bits(), node.regions;
    forall p: nat | p < node.numPpn ensures !bits[p] <==> Available(segs, node.beginPpn, node.numPpn, regions, p) {
      ClearBits(segs, node.beginPpn, node.numPpn, node.init, bits, regions, node.lastPage, node.lastOff, p);
    }
    pm := new PageManager(node.beginPpn, node.numPpn, node.pages);
    forall p: nat | p < pm.numPpn
      ensures Listed(pm.listed, p) <==> Available(segs, pm.beginPpn, pm.numPpn, regions, p)
    {
      ListsPartitionFreePages(pm.mem, pm.listed, pm.pairs, p);
    }
  }

  /** Nothing is reported outside the node. */
  lemma InsideNode(segs: seq<Sweep.Segment>, lower: nat, upper: nat, p: nat)
    requires Proper(segs) && IsLeast(segs, lower) && IsGreatest(segs, upper) && Sweep.InSegs(segs, p * PAGE_SIZE)
    ensures lower <= p < upper
  {
    var i :| 0 <= i < |segs| && Sweep.InSegment(segs[i], p * PAGE_SIZE);
    SegmentPages(segs[i], p);
  }

  /** The chain is complete: the map has room, and the pair maps are large enough and find room. */
  ghost predicate Complete(segs: seq<Sweep.Segment>, begin: nat, num: nat, reqs: seq<Bootmem.Request>) {
    segs != [] && Bootmem.MapFits(Ranges(segs), begin, num) && AreasFit(num) && MapsFit(segs, begin, num, reqs)
  }

  /** After the requests `reqs`, every pair map that has a byte finds a run of free pages in its turn. */
  ghost predicate MapsFit(segs: seq<Sweep.Segment>, begin: nat, num: nat, reqs: seq<Bootmem.Request>) {
    forall o | 0 <= o < MAX_ORDER && AreaBytes(num, o) > 0 :: MapFound(segs, begin, num, reqs, o)
  }

  /** The map as request number `o` for a pair map finds it. */
  ghost function MapBefore(segs: seq<Sweep.Segment>, begin: nat, num: nat, reqs: seq<Bootmem.Request>,
                           o: nat): seq<bool>
    requires o <= MAX_ORDER
  {
    Bootmem.AfterAll(FirstUse(segs, begin, num), begin, num, reqs + MapRequests(num)[..o]).bits
  }

  ghost predicate MapFound(segs: seq<Sweep.Segment>, begin: nat, num: nat, reqs: seq<Bootmem.Request>, o: nat)
    requires o < MAX_ORDER
  {
    !Bootmem.NoRun(MapBefore(segs, begin, num, reqs, o), num, 0, Bootmem.PagesFor(AreaBytes(num, o)))
  }

  lemma MapGranted(segs: seq<Sweep.Segment>, begin: nat, num: nat, reqs: seq<Bootmem.Request>, o: nat)
    requires o < MAX_ORDER && AreaBytes(num, o) > 0
    ensures Bootmem.Granted(FirstUse(segs, begin, num), begin, num, reqs + MapRequests(num), |reqs| + o) <==>
            MapFound(segs, begin, num, reqs, o)
  {
    var all := reqs + MapRequests(num);
    assert all[..|reqs| + o] == reqs + MapRequests(num)[..o];
    assert all[|reqs| + o] == Bootmem.Request(AreaBytes(num, o), 1, 0);
    Bootmem.NoOffset(begin, 1);
    Bootmem.FitNone(MapBefore(segs, begin, num, reqs, o), begin, num, all[|reqs| + o]);
  }

  predicate AreasFit(num: nat) {
    forall o | 0 <= o < MAX_ORDER :: AreaFits(num, o)
  }

  /** The requests of kmem_page_manager_init: the pair map of every order. */
  function MapRequests(num: nat): (reqs: seq<Bootmem.Request>)
    ensures |reqs| == MAX_ORDER && forall i | 0 <= i < |reqs| :: reqs[i] == Bootmem.Request(AreaBytes(num, i), 1, 0)
  {
    seq(MAX_ORDER, i requires 0 <= i < MAX_ORDER => Bootmem.Request(AreaBytes(num, i), 1, 0))
  }

  /** The node after bootmem_init, any requests with alignments other than 0, and these. */
  method ServeBoot(segs: seq<Sweep.Segment>, reqs: seq<Bootmem.Request>)
      returns (ok: bool, node: Bootmem.Node, rs: seq<Bootmem.Result>)
    requires Proper(segs) && segs != [] && forall i | 0 <= i < |reqs| :: reqs[i].alignment > 0
    ensures fresh(node) && fresh(node.pages.data)
    ensures IsLeast(segs, node.beginPpn) && IsGreatest(segs, node.beginPpn + node.numPpn)
    ensures ok <==> Bootmem.MapFits(Ranges(segs), node.beginPpn, node.numPpn)
    ensures ok ==> node.Valid() && node.TidyNode()
    ensures ok ==> Bootmem.FreeAfter(Ranges(segs), node.beginPpn, node.numPpn, node.init)
    ensures ok ==> AllAnswered(segs, node.beginPpn, node.numPpn, reqs, rs, node.regions)
  {
    ok, node := StartNode(segs);
    rs := [];
    if ok {
      rs := Bootmem.Serve(node, reqs + MapRequests(node.numPpn));
    }
  }

  /** The answers to the requests and to those for the pair maps. */
  ghost predicate AllAnswered(segs: seq<Sweep.Segment>, begin: nat, num: nat, reqs: seq<Bootmem.Request>,
                              rs: seq<Bootmem.Result>, regions: seq<Bootmem.Region>)
  {
    && |rs| == |reqs| + MAX_ORDER
    && Bootmem.Served(FirstUse(segs, begin, num), begin, num, reqs + MapRequests(num), rs, regions)
  }

  /** No pair map that has a byte is missing among the answers from number `k` on. */
  predicate MapsThere(rs: seq<Bootmem.Result>, k: nat, num: nat)
    requires |rs| == k + MAX_ORDER
  {
    forall o | 0 <= o < MAX_ORDER :: AreaBytes(num, o) > 0 ==> rs[k + o].Addr?
  }

  lemma MapsThereIff(segs: seq<Sweep.Segment>, begin: nat, num: nat, reqs: seq<Bootmem.Request>,
                     rs: seq<Bootmem.Result>, regions: seq<Bootmem.Region>)
    requires AllAnswered(segs, begin, num, reqs, rs, regions)
    ensures MapsThere(rs, |reqs|, num) <==> MapsFit(segs, begin, num, reqs)
  {
    forall o | 0 <= o < MAX_ORDER && AreaBytes(num, o) > 0
      ensures rs[|reqs| + o].Addr? <==> MapFound(segs, begin, num, reqs, o)
    {
      MapGranted(segs, begin, num, reqs, o);
    }
  }

  /** What device_calc_available_ram is given. */
  datatype Memory = Memory(b: seq<nat>, e: seq<nat>, ram: nat, len: nat, imageEnd: nat)

  ghost predicate PageReported(m: Memory, p: nat)
    requires |m.b| == |m.e|
  {
    Sweep.Reported(m.b, m.e, m.ram, m.len, m.imageEnd, p * PAGE_SIZE)
  }

  /** What is to be free, in terms of the arguments and of what has been handed out while booting. */
  ghost predicate ToBeFree(m: Memory, begin: nat, num: nat, regions: seq<Bootmem.Region>, p: nat)
    requires |m.b| == |m.e|
  {
    PageReported(m, begin + p) && p >= Bootmem.MapPages(num) && !Bootmem.TouchedBy(regions, p)
  }

  /** The lists hold exactly these pages, and no page outside the node is reported at all. */
  ghost predicate ListedExactly(m: Memory, begin: nat, num: nat, regions: seq<Bootmem.Region>, lists: seq<set<nat>>)
    requires |m.b| == |m.e|
  {
    && (forall p: nat | p < num :: Listed(lists, p) <==> ToBeFree(m, begin, num, regions, p))
    && (forall p: nat | PageReported(m, p) && p * PAGE_SIZE < PMA_LIMIT :: begin <= p < begin + num)
  }

  lemma ListedPages(m: Memory, w: Sweep.Job, segs: seq<Sweep.Segment>, begin: nat, num: nat,
                    regions: seq<Bootmem.Region>, lists: seq<set<nat>>)
    requires Sweep.Result(m.b, m.e, m.ram, m.len, m.imageEnd, w, segs) && Proper(segs)
    requires IsLeast(segs, begin) && IsGreatest(segs, begin + num) && (begin + num) * PAGE_SIZE <= PMA_LIMIT
    requires forall p: nat | p < num :: Listed(lists, p) <==> Available(segs, begin, num, regions, p)
    ensures ListedExactly(m, begin, num, regions, lists)
  {
    forall p: nat | p < num ensures Listed(lists, p) <==> ToBeFree(m, begin, num, regions, p) {
      MulMono(begin + p, begin + num, PAGE_SIZE);
      Sweep.ReportedExactly(m.b, m.e, m.ram, m.len, m.imageEnd, w, segs, (begin + p) * PAGE_SIZE);
    }
    forall p: nat | PageReported(m, p) && p * PAGE_SIZE < PMA_LIMIT ensures begin <= p < begin + num {
      Sweep.ReportedExactly(m.b, m.e, m.ram, m.len, m.imageEnd, w, segs, p * PAGE_SIZE);
      InsideNode(segs, begin, begin + num, p);
    }
  }

  /** The segments are whole pages and hold exactly the pages reported available. */
  ghost predicate Finds(m: Memory, segs: seq<Sweep.Segment>) {
    && |m.b| == |m.e| && Proper(segs)
    && forall p: nat | p * PAGE_SIZE < PMA_LIMIT :: Sweep.InSegs(segs, p * PAGE_SIZE) <==> PageReported(m, p)
  }

  lemma FindsPages(m: Memory, w: Sweep.Job, segs: seq<Sweep.Segment>)
    requires Sweep.Result(m.b, m.e, m.ram, m.len, m.imageEnd, w, segs) && Proper(segs)
    ensures Finds(m, segs)
  {
    forall p: nat | p * PAGE_SIZE < PMA_LIMIT ensures Sweep.InSegs(segs, p * PAGE_SIZE) <==> PageReported(m, p) {
      Sweep.ReportedExactly(m.b, m.e, m.ram, m.len, m.imageEnd, w, segs, p * PAGE_SIZE);
    }
  }

  /** device_calc_available_ram, as the boot allocator uses it. */
  method Find(b: array<nat>, e: array<nat>, num: nat, ram: nat, len: nat, imageEnd: nat, out: array<Sweep.Segment>)
      returns (segs: seq<Sweep.Segment>, ghost w: Sweep.Job)
    requires num + 2 <= b.Length && num + 2 <= e.Length && num + 2 <= out.Length && b != e
    requires Sweep.Sane(b[..num], e[..num], ram, len, imageEnd) && ram < imageEnd && ram + len <= PMA_LIMIT
    modifies b, e, out
    ensures Sweep.Result(old(b[..num]), old(e[..num]), ram, len, imageEnd, w, segs) && Proper(segs)
  {
    ghost var b0, e0 := b[..num], e[..num];
    var count;
    count, w := Sweep.CalcAvailable(b, e, num, ram, len, imageEnd, out);
    segs := out[..count];
    SegmentsProper(b0, e0, ram, len, imageEnd, w, segs);
  }

  /** What the page manager is to be after the boot requests. */
  ghost predicate Started(pm: PageManager, node: Bootmem.Node, segs: seq<Sweep.Segment>, reqs: seq<Bootmem.Request>,
                          rs: seq<Bootmem.Result>)
    reads pm, pm.Repr, node
  {
    && pm.Valid() && pm.beginPpn == node.beginPpn && pm.numPpn == node.numPpn && Bootmem.Apart(node.regions)
    && AllAnswered(segs, pm.beginPpn, pm.numPpn, reqs, rs, node.regions)
  }

  /** bootmem_init and kmem_page_manager_init on the segments found. */
  method FromSegments(segs: seq<Sweep.Segment>, reqs: seq<Bootmem.Request>)
      returns (pm: PageManager?, rs: seq<Bootmem.Result>, node: Bootmem.Node)
    requires Proper(segs) && segs != [] && forall i | 0 <= i < |reqs| :: reqs[i].alignment > 0
    ensures IsLeast(segs, node.beginPpn) && IsGreatest(segs, node.beginPpn + node.numPpn)
    ensures pm != null <==> Complete(segs, node.beginPpn, node.numPpn, reqs)
    ensures pm != null ==> Started(pm, node, segs, reqs, rs) && (pm.beginPpn + pm.numPpn) * PAGE_SIZE <= PMA_LIMIT
    ensures pm != null ==> forall p: nat | p < pm.numPpn ::
              Listed(pm.listed, p) <==> Available(segs, pm.beginPpn, pm.numPpn, node.regions, p)
  {
    var ok;
    ok, node, rs := ServeBoot(segs, reqs);
    pm := null;
    if ok {
      MapsThereIff(segs, node.beginPpn, node.numPpn, reqs, rs, node.regions);
      if AreasFit(node.numPpn) && MapsThere(rs, |reqs|, node.numPpn) {
        pm := HandOver(node, segs);
      }
    }
  }

  /** From the arrays of reserved ranges to the free lists. The chain stops where the map is not in
      available memory, where a pair map is too small and where bootmem_alloc has none to give. If it
      gets to its end, the listed pages are exactly the pages reported available that hold neither
      the map nor a region handed out while booting. */
  method StartUp(b: array<nat>, e: array<nat>, num: nat, ram: nat, len: nat, imageEnd: nat, out: array<Sweep.Segment>,
                 reqs: seq<Bootmem.Request>)
      returns (pm: PageManager?, rs: seq<Bootmem.Result>, ghost segs: seq<Sweep.Segment>, ghost node: Bootmem.Node?)
    requires num + 2 <= b.Length && num + 2 <= e.Length && num + 2 <= out.Length && b != e
    requires Sweep.Sane(b[..num], e[..num], ram, len, imageEnd) && ram < imageEnd && ram + len <= PMA_LIMIT
    requires forall i | 0 <= i < |reqs| :: reqs[i].alignment > 0
    modifies b, e, out
    ensures Finds(Memory(old(b[..num]), old(e[..num]), ram, len, imageEnd), segs) && (segs == [] <==> node == null)
    ensures node != null ==> IsLeast(segs, node.beginPpn) && IsGreatest(segs, node.beginPpn + node.numPpn)
    ensures pm != null <==> node != null && Complete(segs, node.beginPpn, node.numPpn, reqs)
    ensures pm != null ==> Started(pm, node, segs, reqs, rs)
    ensures pm != null ==>
              ListedExactly(Memory(old(b[..num]), old(e[..num]), ram, len, imageEnd), pm.beginPpn, pm.numPpn,
                            node.regions, pm.listed)
  {
    ghost var m := Memory(b[..num], e[..num], ram, len, imageEnd);
    var found, w := Find(b, e, num, ram, len, imageEnd, out);
    segs, pm, rs, node := found, null, [], null;
    FindsPages(m, w, segs);
    if found != [] {
      var n;
      pm, rs, n := FromSegments(found, reqs);
      node := n;
      if pm != null {
        ListedPages(m, w, segs, pm.beginPpn, pm.numPpn, n.regions, pm.listed);
      }
    }
  }

  // ------------------------------------------------------------ memory without room for a pair map

  /** The first page of the RAM. */
  const RAM_PAGE := 0x80000

  /** Pages between the first and the last available one. */
  const SPAN := 67584

  /** After one page of kernel image three pages are available, and one more at the very end. */
  ghost function Tight(): Memory {
    Memory([(RAM_PAGE + 4) * PAGE_SIZE], [(RAM_PAGE + SPAN) * PAGE_SIZE], RAM_PAGE * PAGE_SIZE, (SPAN + 1) * PAGE_SIZE,
           (RAM_PAGE + 1) * PAGE_SIZE)
  }

  lemma TightReported(p: nat)
    ensures PageReported(Tight(), p) <==> RAM_PAGE < p < RAM_PAGE + 4 || p == RAM_PAGE + SPAN
  {
    var m := Tight();
    forall x: nat ensures Sweep.Reserved(m.b, m.e, m.ram, m.imageEnd, x) <==>
                          || RAM_PAGE * PAGE_SIZE <= x < (RAM_PAGE + 1) * PAGE_SIZE
                          || (RAM_PAGE + 4) * PAGE_SIZE <= x < (RAM_PAGE + SPAN) * PAGE_SIZE
    {
      assert Sweep.Down(m.b[0]) == (RAM_PAGE + 4) * PAGE_SIZE && Sweep.Up(m.e[0]) == (RAM_PAGE + SPAN) * PAGE_SIZE;
    }
  }

  lemma TightBounds(segs: seq<Sweep.Segment>, begin: nat, end: nat)
    requires Finds(Tight(), segs) && IsLeast(segs, begin) && IsGreatest(segs, end)
    ensures begin == RAM_PAGE + 1 && end == RAM_PAGE + 1 + SPAN
  {
    var i :| 0 <= i < |segs| && FirstPage(segs[i]) == begin;
    SegmentPages(segs[i], begin);
    assert Sweep.InSegs(segs, begin * PAGE_SIZE);
    TightReported(begin);
    var j :| 0 <= j < |segs| && EndPage(segs[j]) == end;
    SegmentPages(segs[j], end - 1);
    assert Sweep.InSegs(segs, (end - 1) * PAGE_SIZE);
    TightReported(end - 1);
    TightReported(RAM_PAGE + 1);
    TightReported(RAM_PAGE + SPAN);
    InsideNode(segs, begin, end, RAM_PAGE + 1);
    InsideNode(segs, begin, end, RAM_PAGE + SPAN);
  }

  lemma TightMap(segs: seq<Sweep.Segment>)
    requires Finds(Tight(), segs)
    ensures Bootmem.MapPages(SPAN) == 3 && Bootmem.MapFits(Ranges(segs), RAM_PAGE + 1, SPAN)
  {
    var begin := RAM_PAGE + 1;
    forall p: nat | p < 3 ensures Bootmem.InSegs(Ranges(segs), begin, p, |segs|) {
      TightReported(begin + p);
      InRanges(segs, begin, p);
    }
  }

  lemma TightAreas()
    ensures AreasFit(SPAN) && AreaBytes(SPAN, 0) == 4224
  {
    assert Shr(SPAN, 0) == 67584 && Shr(SPAN, 1) == 33792 && Shr(SPAN, 2) == 16896 && Shr(SPAN, 3) == 8448;
    assert Shr(SPAN, 4) == 4224 && Shr(SPAN, 5) == 2112 && Shr(SPAN, 6) == 1056 && Shr(SPAN, 7) == 528;
    assert Shr(SPAN, 8) == 264 && Shr(SPAN, 9) == 132 && Shr(SPAN, 10) == 66;
  }

  /** Two pages in a row are free nowhere. */
  lemma TightNoRun(segs: seq<Sweep.Segment>)
    requires Finds(Tight(), segs)
    ensures Bootmem.NoRun(FirstUse(segs, RAM_PAGE + 1, SPAN).bits, SPAN, 0, 2)
  {
    var bits := FirstUse(segs, RAM_PAGE + 1, SPAN).bits;
    TightMap(segs);
    forall i: nat ensures !Bootmem.RunAt(bits, SPAN, i, 2) {
      if i + 2 <= SPAN {
        InRanges(segs, RAM_PAGE + 1, i);
        TightReported(RAM_PAGE + 1 + i);
        assert bits[i] && i <= i < i + 2;
      }
    }
  }

  lemma TightMisses(segs: seq<Sweep.Segment>)
    requires Finds(Tight(), segs)
    ensures !MapsFit(segs, RAM_PAGE + 1, SPAN, [])
  {
    TightAreas();
    TightNoRun(segs);
    assert [] + MapRequests(SPAN)[..0] == [];
    assert !MapFound(segs, RAM_PAGE + 1, SPAN, [], 0);
  }

  /** The chain on that memory: map and pair maps are large enough and the page map has its room, but
      bootmem_alloc has no two pages for the pair map of order 0. */
  method MapsMissing() returns (pm: PageManager?, ghost segs: seq<Sweep.Segment>, ghost node: Bootmem.Node?)
    ensures pm == null && node != null && node.numPpn == SPAN && AreasFit(SPAN)
    ensures Bootmem.MapFits(Ranges(segs), node.beginPpn, SPAN) && !MapsFit(segs, node.beginPpn, SPAN, [])
  {
    var b, e := new nat[3], new nat[3];
    var out := new Sweep.Segment[3](_ => Sweep.Segment(0, 0));
    b[0], e[0] := (RAM_PAGE + 4) * PAGE_SIZE, (RAM_PAGE + SPAN) * PAGE_SIZE;
    assert b[..1] == Tight().b && e[..1] == Tight().e;
    var rs;
    pm, rs, segs, node := StartUp(b, e, 1, RAM_PAGE * PAGE_SIZE, (SPAN + 1) * PAGE_SIZE,
                                   (RAM_PAGE + 1) * PAGE_SIZE, out, []);
    TightReported(RAM_PAGE + 1);
    TightBounds(segs, node.beginPpn, node.beginPpn + node.numPpn);
    TightMap(segs);
    TightAreas();
    TightMisses(segs);
  }
}
