/** A manager of kernel/memory/object.c: its blocks, the search for a free slot and the creation
    of blocks from the page allocator. */
module ObjectManager {
  import opened Addr
  import opened Arith
  import opened Blocks
  import opened Buddy
  import opened BuddySteps
  import opened Links
  import opened Objects

  // ------------------------------------------------------------ where blocks lie

  /** 2^`order` pages from `page` on. */
  datatype Place = Place(page: nat, order: nat)

  function BaseOf(beginPpn: nat, p: Place): nat {
    VA_KERNEL_BEGIN + (beginPpn + p.page) * PAGE_SIZE
  }

  /** The address of object `k` in a block, behind its header. */
  function ObjectAt(beginPpn: nat, unit: nat, p: Place, k: nat): nat {
    SlotAt(BaseOf(beginPpn, p), unit, k) + HEADER
  }

  ghost predicate PagesApart(p: Place, q: Place) {
    p.page + Pow2(p.order) <= q.page || q.page + Pow2(q.order) <= p.page
  }

  /** All blocks are in use and no two overlap. */
  ghost predicate PlacesOk(mem: seq<bool>, places: seq<Place>) {
    && (forall i | 0 <= i < |places| :: InUse(mem, places[i].page, Pow2(places[i].order)))
    && (forall i, j | 0 <= i < j < |places| :: PagesApart(places[i], places[j]))
  }

  /** Which slots of which block are handed out. */
  ghost predicate LivesOk(unit: nat, places: seq<Place>, lives: seq<set<nat>>) {
    unit >= HEADER && |lives| == |places| && forall i | 0 <= i < |places| :: InBlock(unit, places[i], lives[i])
  }

  ghost predicate InBlock(unit: nat, p: Place, live: set<nat>)
    requires unit > 0
  {
    forall k | k in live :: k < Units(p.order, unit)
  }

  /** All objects handed out, by address. */
  ghost function ObjectsOf(beginPpn: nat, unit: nat, places: seq<Place>, lives: seq<set<nat>>): set<nat>
    requires |lives| == |places|
  {
    set i, k | 0 <= i < |places| && k in lives[i] :: ObjectAt(beginPpn, unit, places[i], k)
  }

  /** Two slots, of one block or of two, are at least one unit apart. */
  lemma ObjectsApart(mem: seq<bool>, beginPpn: nat, unit: nat, places: seq<Place>, i: nat, k: nat, j: nat, l: nat)
    requires PlacesOk(mem, places) && unit >= HEADER && i < |places| && j < |places| && (i != j || k != l)
    requires k < Units(places[i].order, unit) && l < Units(places[j].order, unit)
    ensures var a, b := ObjectAt(beginPpn, unit, places[i], k), ObjectAt(beginPpn, unit, places[j], l);
            a + unit <= b || b + unit <= a
  {
    var p, q := BaseOf(beginPpn, places[i]), BaseOf(beginPpn, places[j]);
    if i == j {
      if k < l {
        SlotsApart(p, places[i].order, unit, k, l);
      } else {
        SlotsApart(p, places[i].order, unit, l, k);
      }
    } else {
      assert PagesApart(if i < j then places[i] else places[j], if i < j then places[j] else places[i]);
      SlotInside(p, places[i].order, unit, k);
      SlotInside(q, places[j].order, unit, l);
    }
  }

  /** A slot that was not handed out adds one new object. */
  lemma OneMore(mem: seq<bool>, beginPpn: nat, unit: nat, places: seq<Place>, lives: seq<set<nat>>, i: nat, k: nat)
    requires PlacesOk(mem, places) && LivesOk(unit, places, lives) && i < |places| && k < Units(places[i].order, unit)
    requires k !in lives[i]
    ensures var a := ObjectAt(beginPpn, unit, places[i], k);
            var lives' := lives[i := lives[i] + {k}];
            && LivesOk(unit, places, lives') && a !in ObjectsOf(beginPpn, unit, places, lives)
            && ObjectsOf(beginPpn, unit, places, lives') == ObjectsOf(beginPpn, unit, places, lives) + {a}
  {
    var a := ObjectAt(beginPpn, unit, places[i], k);
    var lives' := lives[i := lives[i] + {k}];
    forall j, l | 0 <= j < |places| && l in lives[j] ensures ObjectAt(beginPpn, unit, places[j], l) != a {
      assert InBlock(unit, places[j], lives[j]);
      ObjectsApart(mem, beginPpn, unit, places, i, k, j, l);
    }
    forall j | 0 <= j < |places| ensures InBlock(unit, places[j], lives'[j]) {
      assert InBlock(unit, places[j], lives[j]);
    }
    var s, s' := ObjectsOf(beginPpn, unit, places, lives), ObjectsOf(beginPpn, unit, places, lives');
    forall x | x in s ensures x in s' {
      var j, l :| 0 <= j < |places| && l in lives[j] && x == ObjectAt(beginPpn, unit, places[j], l);
      assert l in lives'[j];
    }
    assert k in lives'[i];
    assert a in s';
    forall x | x in s' ensures x in s + {a} {
      var j, l :| 0 <= j < |places| && l in lives'[j] && x == ObjectAt(beginPpn, unit, places[j], l);
      assert l in lives[j] || (j == i && l == k);
    }
  }

  /** A slot given back takes exactly its object away. */
  lemma OneLess(mem: seq<bool>, beginPpn: nat, unit: nat, places: seq<Place>, lives: seq<set<nat>>, i: nat, k: nat)
    requires PlacesOk(mem, places) && LivesOk(unit, places, lives) && i < |places| && k in lives[i]
    ensures var a := ObjectAt(beginPpn, unit, places[i], k);
            var lives' := lives[i := lives[i] - {k}];
            && LivesOk(unit, places, lives')
            && ObjectsOf(beginPpn, unit, places, lives') == ObjectsOf(beginPpn, unit, places, lives) - {a}
  {
    var lives' := lives[i := lives[i] - {k}];
    assert InBlock(unit, places[i], lives[i]);
    forall j | 0 <= j < |places| ensures InBlock(unit, places[j], lives'[j]) {
      assert InBlock(unit, places[j], lives[j]);
    }
    OneMore(mem, beginPpn, unit, places, lives', i, k);
    assert lives'[i] + {k} == lives[i];
    assert lives'[i := lives'[i] + {k}] == lives;
  }

  /** A new block without objects, in pages that were free. */
  lemma NewPlace(mem: seq<bool>, unit: nat, places: seq<Place>, lives: seq<set<nat>>, p: Place)
    requires PlacesOk(mem, places) && LivesOk(unit, places, lives) && FreeRun(mem, p.order, p.page)
    ensures PlacesOk(Taken(mem, p.page, p.order), [p] + places) && LivesOk(unit, [p] + places, [{}] + lives)
  {
    var mem', ps := Taken(mem, p.page, p.order), [p] + places;
    forall i | 0 <= i < |ps| ensures InUse(mem', ps[i].page, Pow2(ps[i].order)) {
      assert i > 0 ==> InUse(mem, places[i - 1].page, Pow2(places[i - 1].order));
    }
    forall i, j | 0 <= i < j < |ps| ensures PagesApart(ps[i], ps[j]) {
      if i == 0 {
        FreeVersusUsed(mem, p, places[j - 1]);
      } else {
        assert PagesApart(places[i - 1], places[j - 1]);
      }
    }
    forall i | 0 <= i < |ps| ensures InBlock(unit, ps[i], ([{}] + lives)[i]) {
      assert i > 0 ==> InBlock(unit, places[i - 1], lives[i - 1]);
    }
  }

  ghost predicate HasPage(p: Place, x: nat) {
    p.page <= x < p.page + Pow2(p.order)
  }

  lemma FreeVersusUsed(mem: seq<bool>, p: Place, q: Place)
    requires FreeRun(mem, p.order, p.page) && InUse(mem, q.page, Pow2(q.order))
    ensures PagesApart(p, q)
  {
    forall x: nat | HasPage(p, x) ensures !HasPage(q, x) {
      assert !mem[x];
    }
    var x := if p.page < q.page then q.page else p.page;
    assert PagesApart(p, q) || (HasPage(p, x) && HasPage(q, x));
  }

  lemma NewObjects(beginPpn: nat, unit: nat, places: seq<Place>, lives: seq<set<nat>>, p: Place)
    requires |lives| == |places|
    ensures ObjectsOf(beginPpn, unit, [p] + places, [{}] + lives) == ObjectsOf(beginPpn, unit, places, lives)
  {
    var ps, ls := [p] + places, [{}] + lives;
    var s, s' := ObjectsOf(beginPpn, unit, places, lives), ObjectsOf(beginPpn, unit, ps, ls);
    forall x | x in s ensures x in s' {
      var j, l :| 0 <= j < |places| && l in lives[j] && x == ObjectAt(beginPpn, unit, places[j], l);
      assert l in ls[j + 1] && ps[j + 1] == places[j];
    }
    forall x | x in s' ensures x in s {
      var j, l :| 0 <= j < |ps| && l in ls[j] && x == ObjectAt(beginPpn, unit, ps[j], l);
      assert l in lives[j - 1] && places[j - 1] == ps[j];
    }
  }

  /** Nothing changed, or one block in front of the others, in pages that were free. */
  ghost predicate Grew(mem: seq<bool>, ps: seq<Place>, mem': seq<bool>, ps': seq<Place>) {
    || (mem' == mem && ps' == ps)
    || (|ps'| > 0 && ps' == [ps'[0]] + ps && FreeRun(mem, ps'[0].order, ps'[0].page)
        && mem' == Taken(mem, ps'[0].page, ps'[0].order))
  }

  // ------------------------------------------------------------ alignment

  /** Sizes are rounded up to the next multiple of 8. */
  lemma RoundedUp(x: nat)
    ensures RoundUp8(x) % 8 == 0 && x <= RoundUp8(x) < x + 8
  {
  }

  lemma ObjectAligned(beginPpn: nat, unit: nat, p: Place, k: nat)
    requires unit % 8 == 0
    ensures ObjectAt(beginPpn, unit, p, k) % 8 == 0
  {
    var u := unit / 8;
    assert k * unit == k * u * 8 by {
      assert k * (u * 8) == k * u * 8;
    }
  }

  /** Every object begins at a multiple of 8. */
  lemma ObjectsAligned(beginPpn: nat, unit: nat, ps: seq<Place>, ls: seq<set<nat>>, x: nat)
    requires |ps| == |ls| && unit % 8 == 0 && x in ObjectsOf(beginPpn, unit, ps, ls)
    ensures x % 8 == 0
  {
    var i, k :| 0 <= i < |ps| && k in ls[i] && x == ObjectAt(beginPpn, unit, ps[i], k);
    ObjectAligned(beginPpn, unit, ps[i], k);
  }

  // ------------------------------------------------------------ two managers

  /** The blocks of one manager are apart from those of the other. */
  ghost predicate ManagersApart(ps: seq<Place>, qs: seq<Place>) {
    forall i, j | 0 <= i < |ps| && 0 <= j < |qs| :: PagesApart(ps[i], qs[j])
  }

  /** It stays so when one of them grows, and the other one's blocks stay in use. */
  lemma StillApart(mem: seq<bool>, ps: seq<Place>, mem': seq<bool>, ps': seq<Place>, qs: seq<Place>)
    requires Grew(mem, ps, mem', ps') && PlacesOk(mem, qs) && ManagersApart(ps, qs)
    ensures PlacesOk(mem', qs) && ManagersApart(ps', qs)
  {
    forall j | 0 <= j < |qs| ensures InUse(mem', qs[j].page, Pow2(qs[j].order)) {
      assert InUse(mem, qs[j].page, Pow2(qs[j].order));
    }
    forall i, j | 0 <= i < |ps'| && 0 <= j < |qs| ensures PagesApart(ps'[i], qs[j]) {
      if ps' != ps {
        if i == 0 {
          FreeVersusUsed(mem, ps'[0], qs[j]);
        } else {
          assert ps'[i] == ps[i - 1];
        }
      }
    }
  }

  /** Then no object of the one overlaps one of the other. */
  lemma OthersApart(beginPpn: nat, unit: nat, ps: seq<Place>, i: nat, k: nat, unit': nat, qs: seq<Place>, j: nat,
                    l: nat)
    requires ManagersApart(ps, qs) && unit >= HEADER && unit' >= HEADER && i < |ps| && j < |qs|
    requires k < Units(ps[i].order, unit) && l < Units(qs[j].order, unit')
    ensures var a, b := ObjectAt(beginPpn, unit, ps[i], k), ObjectAt(beginPpn, unit', qs[j], l);
            a + unit <= b || b + unit' <= a
  {
    assert PagesApart(ps[i], qs[j]);
    SlotInside(BaseOf(beginPpn, ps[i]), ps[i].order, unit, k);
    SlotInside(BaseOf(beginPpn, qs[j]), qs[j].order, unit', l);
  }

  // ------------------------------------------------------------ orders

  /** The smallest order at or above `o` whose block holds one unit, or MAX_ORDER. */
  function Smallest(o: nat, unit: nat): (m: nat)
    requires o <= MAX_ORDER
    ensures o <= m <= MAX_ORDER && (m < MAX_ORDER ==> Capacity(m) >= unit)
    ensures forall q | o <= q < m :: Capacity(q) < unit
    decreases MAX_ORDER - o
  {
    if o == MAX_ORDER || Capacity(o) >= unit then o else Smallest(o + 1, unit)
  }

  ghost predicate NoRunOf(mem: seq<bool>, o: nat) {
    forall p: nat | Aligned(o, p) :: !FreeRun(mem, o, p)
  }

  /** The page allocator has no block in which one unit fits. */
  ghost predicate NoRoom(mem: seq<bool>, unit: nat) {
    Smallest(0, unit) == MAX_ORDER || NoRunOf(mem, Smallest(0, unit))
  }

  lemma {:induction false} CapacityMono(a: nat, b: nat)
    requires a <= b
    ensures Capacity(a) <= Capacity(b)
    decreases b - a
  {
    BytesFacts(a);
    if a < b {
      BytesFacts(a + 1);
      CapacityMono(a + 1, b);
    }
  }

  /** The first order loop: the smallest order for more than `sum` bytes, or the largest there is. */
  method FirstOrder(sum: nat) returns (ord: nat)
    ensures ord < MAX_ORDER && (ord + 1 == MAX_ORDER || Capacity(ord) > sum)
    ensures forall o | 0 <= o < ord :: Capacity(o) <= sum
  {
    ord := 0;
    while ord + 1 < MAX_ORDER && Capacity(ord) <= sum
      invariant ord < MAX_ORDER && forall o | 0 <= o < ord :: Capacity(o) <= sum
    {
      ord := ord + 1;
    }
  }

  /** That order is not below the smallest that holds one unit. */
  lemma AboveSmallest(ord: nat, sum: nat, unit: nat)
    requires ord < MAX_ORDER && (ord + 1 == MAX_ORDER || Capacity(ord) > sum) && sum >= unit
    ensures Smallest(0, unit) == MAX_ORDER || Smallest(0, unit) <= ord
  {
    assert ord < Smallest(0, unit) ==> Capacity(ord) < unit;
  }

  /** Order `ord` is the smallest for more than `sum` bytes, or the largest there is. */
  ghost predicate FirstFor(sum: nat, ord: nat) {
    && ord < MAX_ORDER && (ord + 1 == MAX_ORDER || Capacity(ord) > sum)
    && forall o | 0 <= o < ord :: Capacity(o) <= sum
  }

  /** No run is free of any order above `ord` up to `first`. */
  ghost predicate TriedAbove(mem: seq<bool>, ord: nat, first: nat) {
    ord <= first && forall o | ord < o <= first :: NoRunOf(mem, o)
  }

  /** Bytes in use in the blocks. */
  ghost function UsedBytes(ls: seq<set<nat>>, unit: nat): nat {
    if ls == [] then 0 else UsedBytes(ls[..|ls| - 1], unit) + BytesOf(ls[|ls| - 1], unit)
  }

  ghost function BytesOf(live: set<nat>, unit: nat): nat {
    |live| * unit
  }

  lemma UsedNext(ls: seq<set<nat>>, unit: nat, i: nat)
    requires i < |ls|
    ensures UsedBytes(ls[..i + 1], unit) == UsedBytes(ls[..i], unit) + BytesOf(ls[i], unit)
  {
    assert ls[..i + 1][..i] == ls[..i];
  }

  /** What a new block is to hold more than: four units or the bytes in use. */
  ghost function Wanted(ls: seq<set<nat>>, unit: nat): nat {
    AtLeastFour(UsedBytes(ls, unit), unit)
  }

  function AtLeastFour(sum: nat, unit: nat): (r: nat)
    ensures r >= unit
  {
    if sum < unit * 4 then unit * 4 else sum
  }

  /** The address is that of a slot of block `i` that was not handed out. */
  ghost predicate FromBlock(beginPpn: nat, unit: nat, ps: seq<Place>, ls: seq<set<nat>>, i: nat, addr: nat) {
    i < |ps| && i < |ls| && exists k: nat :: FromSlot(beginPpn, unit, ps[i], ls[i], k, addr)
  }

  ghost predicate FromSlot(beginPpn: nat, unit: nat, p: Place, live: set<nat>, k: nat, addr: nat) {
    unit >= HEADER && k < Units(p.order, unit) && k !in live && addr == ObjectAt(beginPpn, unit, p, k)
  }

  /** ... of the first block that has one. */
  ghost predicate FromFirst(beginPpn: nat, unit: nat, ps: seq<Place>, ls: seq<set<nat>>, addr: nat) {
    exists i: nat :: FromBlock(beginPpn, unit, ps, ls, i, addr) && FullBefore(unit, ps, ls, i)
  }

  ghost predicate FullBefore(unit: nat, ps: seq<Place>, ls: seq<set<nat>>, i: nat) {
    unit >= HEADER && i <= |ps| && i <= |ls| && forall j | 0 <= j < i :: |ls[j]| == Units(ps[j].order, unit)
  }

  lemma TriedNext(mem: seq<bool>, ord: nat, first: nat)
    requires TriedAbove(mem, ord, first) && NoRunOf(mem, ord) && ord > 0
    ensures TriedAbove(mem, ord - 1, first)
  {
  }

  /** A block for more than `sum` bytes is of the largest order, up to the first one for them, that has a free run. */
  ghost predicate LargestFor(mem: seq<bool>, sum: nat, p: Place) {
    exists first: nat :: FirstFor(sum, first) && TriedAbove(mem, p.order, first) && FreeRun(mem, p.order, p.page)
  }

  method OrderFor(sum: nat, unit: nat) returns (ord: nat)
    requires sum >= unit
    ensures ord < MAX_ORDER && (Smallest(0, unit) == MAX_ORDER || Smallest(0, unit) <= ord) && FirstFor(sum, ord)
  {
    ord := FirstOrder(sum);
    AboveSmallest(ord, sum, unit);
  }

  /** Orders are tried downwards: when the next one is too small, the last one tried was the smallest. */
  lemma LastTried(o: nat, unit: nat)
    requires o < MAX_ORDER && Capacity(o) >= unit && (o == 0 || Capacity(o - 1) < unit)
    ensures Smallest(0, unit) == o
  {
    var m := Smallest(0, unit);
    if m < o {
      CapacityMono(m, o - 1);
    }
  }

  // ------------------------------------------------------------ the manager

  /** The objects a block is made of. */
  ghost function Foot(b: Block): set<object> {
    {b, b.slots, b.slots.nxt, b.slots.prv}
  }

  /** What the manager knows of a block. */
  ghost predicate Knows(b: Block, beginPpn: nat, unit: nat, p: Place, live: set<nat>)
    reads Foot(b)
  {
    b.Valid() && b.base == BaseOf(beginPpn, p) && b.order == p.order && b.unit == unit && b.Live() == live
  }

  /** The heap objects of the blocks are apart, and all in `foot`. */
  ghost predicate FeetApart(bs: seq<Block>, foot: set<object>) {
    && (forall i | 0 <= i < |bs| :: Foot(bs[i]) <= foot)
    && (forall i, j | 0 <= i < j < |bs| :: Foot(bs[i]) !! Foot(bs[j]))
  }

  lemma FeetWith(b: Block, bs: seq<Block>, foot: set<object>)
    requires FeetApart(bs, foot) && Foot(b) !! foot
    ensures FeetApart([b] + bs, foot + Foot(b))
  {
    var all := [b] + bs;
    forall i, j | 0 <= i < j < |all| ensures Foot(all[i]) !! Foot(all[j]) {
      assert all[j] == bs[j - 1];
      if i > 0 {
        assert all[i] == bs[i - 1];
      }
    }
  }

  lemma FeetWithout(bs: seq<Block>, foot: set<object>, i: nat)
    requires FeetApart(bs, foot) && i < |bs|
    ensures FeetApart(RemoveAt(bs, i), foot)
  {
  }

  datatype Result = Null | Object(addr: nat)

  class Manager {
    const objectSize: nat
    const pm: PageManager
    var blocks: seq<Block>
    ghost var places: seq<Place>
    ghost var lives: seq<set<nat>>
    ghost var footprint: set<object>

    constructor (objectSize: nat, pm: PageManager)
      requires pm.Objects()
      ensures Valid() && this.pm == pm && Unit() == HEADER + RoundUp8(objectSize) && blocks == [] && Live() == {}
    {
      this.objectSize, this.pm, blocks := RoundUp8(objectSize), pm, [];
      places, lives, footprint := [], [], {};
    }

    function Unit(): nat {
      objectSize + HEADER
    }

    ghost predicate Apart()
      reads this
    {
      && this !in footprint && this !in pm.Repr && pm in pm.Repr && footprint !! pm.Repr
      && FeetApart(blocks, footprint)
    }

    ghost predicate Valid()
      reads this, footprint, pm
    {
      && Apart() && RoundUp8(objectSize) == objectSize
      && PlacesOk(pm.mem, places) && LivesOk(Unit(), places, lives) && KnowsAll(lives)
    }

    /** Every block has the slots `ls` handed out. */
    ghost predicate KnowsAll(ls: seq<set<nat>>)
      reads this`blocks, this`places, this`footprint, footprint
    {
      && |blocks| == |places| == |ls|
      && forall i | 0 <= i < |blocks| ::
          Foot(blocks[i]) <= footprint && Knows(blocks[i], pm.beginPpn, Unit(), places[i], ls[i])
    }

    /** The addresses of all objects handed out. */
    ghost function Live(): set<nat>
      requires |lives| == |places|
      reads this
    {
      ObjectsOf(pm.beginPpn, Unit(), places, lives)
    }

    /** All objects are aligned. */
    lemma LiveAligned(x: nat)
      requires Valid() && x in Live()
      ensures x % 8 == 0
    {
      RoundedUp(objectSize);
      ObjectsAligned(pm.beginPpn, Unit(), places, lives, x);
    }

    /** Every slot of every block is handed out. */
    ghost predicate Full()
      requires |lives| == |places|
      reads this
    {
      forall i | 0 <= i < |places| :: IsFull(i)
    }

    ghost predicate IsFull(i: nat)
      requires i < |places| == |lives|
      reads this
    {
      |lives[i]| == Units(places[i].order, Unit())
    }

    /** A slot of block `i`, nothing else touched. */
    method TakeSlot(i: nat) returns (addr: nat, ghost k: nat)
      requires Valid() && i < |blocks| && !IsFull(i)
      modifies Foot(blocks[i])
      ensures KnowsAll(lives[i := lives[i] + {k}])
      ensures k < Units(places[i].order, Unit()) && k !in lives[i]
      ensures addr == ObjectAt(pm.beginPpn, Unit(), places[i], k)
    {
      var b := blocks[i];
      assert Knows(b, pm.beginPpn, Unit(), places[i], lives[i]);
      var r := b.Take();
      addr := r.addr;
      k :| Handed(b.base, b.unit, b.total, lives[i], b.Live(), k, r.addr);
    }

    /** Object `addr` is handed out from block `i`. */
    method TakeFrom(i: nat) returns (addr: nat)
      requires Valid() && i < |blocks| && !IsFull(i)
      modifies this`lives, Foot(blocks[i])
      ensures Valid() && Live() == old(Live()) + {addr} && addr !in old(Live())
      ensures FromBlock(pm.beginPpn, Unit(), places, old(lives), i, addr)
    {
      ghost var k;
      addr, k := TakeSlot(i);
      assert FromSlot(pm.beginPpn, Unit(), places[i], lives[i], k, addr);
      OneMore(pm.mem, pm.beginPpn, Unit(), places, lives, i, k);
      lives := lives[i := lives[i] + {k}];
    }

    /** ... and the page allocator is not touched. */
    method TakeBeside(i: nat) returns (addr: nat)
      requires Valid() && pm.Valid() && i < |blocks| && !IsFull(i)
      modifies this`lives, Foot(blocks[i])
      ensures pm.Valid() && pm.mem == old(pm.mem) && places == old(places) && footprint == old(footprint)
      ensures Valid() && Live() == old(Live()) + {addr} && addr !in old(Live())
      ensures FromBlock(pm.beginPpn, Unit(), old(places), old(lives), i, addr)
    {
      addr := TakeFrom(i);
    }

    /** kmem_object_create_block: a block not yet attached, or null. */
    method CreateBlock(ord: nat) returns (b: Block?, ghost p: Place)
      requires Valid() && pm.Valid() && ord < MAX_ORDER
      modifies pm.Repr
      ensures pm.Valid() && Apart() && KnowsAll(lives)
      ensures b == null ==> pm.mem == old(pm.mem) && NoRunOf(pm.mem, ord)
      ensures b != null ==> fresh(Foot(b)) && Knows(b, pm.beginPpn, Unit(), p, {}) && p.order == ord
      ensures b != null ==>
                Aligned(ord, p.page) && FreeRun(old(pm.mem), ord, p.page) && pm.mem == Taken(old(pm.mem), p.page, ord)
    {
      var r := pm.AllocPages(ord);
      b, p := null, Place(0, ord);
      if r.Page? {
        b := new Block(r.addr, ord, objectSize);
        p := Place(pm.IndexOf(r.addr), ord);
      }
    }

    /** Connecting the new block to the manager, in front of the others. */
    method Attach(b: Block, ghost p: Place, ghost mem: seq<bool>)
      requires Apart() && KnowsAll(lives) && RoundUp8(objectSize) == objectSize && PlacesOk(mem, places)
      requires LivesOk(Unit(), places, lives)
      requires Foot(b) !! footprint && Foot(b) !! pm.Repr && this !in Foot(b) && Knows(b, pm.beginPpn, Unit(), p, {})
      requires FreeRun(mem, p.order, p.page) && pm.mem == Taken(mem, p.page, p.order)
      modifies this
      ensures Valid() && blocks == [b] + old(blocks) && places == [p] + old(places) && lives == [{}] + old(lives)
      ensures Live() == old(Live()) && footprint == old(footprint) + Foot(b)
    {
      NewPlace(mem, Unit(), places, lives, p);
      NewObjects(pm.beginPpn, Unit(), places, lives, p);
      FeetWith(b, blocks, footprint);
      blocks, places, lives, footprint := [b] + blocks, [p] + places, [{}] + lives, footprint + Foot(b);
    }

    /** One order tried: a block attached, or proof that there is none of this order. */
    method TryOrder(ord: nat) returns (ok: bool)
      requires Valid() && pm.Valid() && ord < MAX_ORDER && Capacity(ord) >= Unit()
      modifies this, pm.Repr
      ensures pm.Valid() && Valid() && Live() == old(Live())
      ensures !ok ==> Same(old(blocks), old(places), old(lives)) && footprint == old(footprint)
      ensures !ok ==> pm.mem == old(pm.mem) && NoRunOf(pm.mem, ord)
      ensures ok ==> !NoRoom(old(pm.mem), Unit()) && |blocks| > 0 && !IsFull(0)
      ensures ok ==> Front(old(pm.mem), old(places), old(lives), ord)
      ensures Grew(old(pm.mem), old(places), pm.mem, places)
      ensures fresh(footprint - old(footprint))
    {
      ghost var mem := pm.mem;
      var b, p := CreateBlock(ord);
      ok := b != null;
      if ok {
        UnitsFit(ord, Unit(), 1);
        RoomAt(mem, Unit(), ord, p.page);
        Attach(b, p, mem);
      }
    }

    /** A block of order `ord` stands in front of those at `ps`, in pages that were free. */
    ghost predicate Front(mem: seq<bool>, ps: seq<Place>, ls: seq<set<nat>>, ord: nat)
      reads this
    {
      |places| == |ps| + 1 && places[0].order == ord && FreeRun(mem, ord, places[0].page) && lives == [{}] + ls
    }

    ghost predicate Same(bs: seq<Block>, ps: seq<Place>, ls: seq<set<nat>>)
      reads this
    {
      blocks == bs && places == ps && lives == ls
    }

    /** The state of the second order loop: a block has been made, or nothing has changed and order
        `ord` is next, or there is no room. */
    ghost predicate Trying(ok: bool, go: bool, ord: nat, first: nat, mem: seq<bool>, bs: seq<Block>, ps: seq<Place>,
                           ls: seq<set<nat>>, foot: set<object>)
      reads this, pm
    {
      if ok then && !go && !NoRoom(mem, Unit()) && |blocks| > 0 && |places| == |lives| > 0 && !IsFull(0)
                 && Grew(mem, ps, pm.mem, places) && Front(mem, ps, ls, ord) && TriedAbove(mem, ord, first)
      else && Same(bs, ps, ls) && footprint == foot && pm.mem == mem
           && (if go then ord < MAX_ORDER && Capacity(ord) >= Unit() && TriedAbove(mem, ord, first)
               else NoRoom(mem, Unit()))
    }

    /** One turn of it. */
    method Turn(ord: nat, ghost first: nat, ghost mem: seq<bool>, ghost bs: seq<Block>, ghost ps: seq<Place>,
                ghost ls: seq<set<nat>>, ghost foot: set<object>)
        returns (ok: bool, go: bool, ord': nat)
      requires Valid() && pm.Valid() && Trying(false, true, ord, first, mem, bs, ps, ls, foot)
      modifies this, pm.Repr
      ensures pm.Valid() && Valid() && Live() == old(Live()) && Trying(ok, go, ord', first, mem, bs, ps, ls, foot)
      ensures fresh(footprint - old(footprint)) && (go ==> ord' < ord)
    {
      ok := TryOrder(ord);
      if ok || ord == 0 {
        go, ord' := false, ord;
        Exhausted(pm.mem, Unit(), 0, ok || ord != 0);
      } else {
        ord' := ord - 1;
        go := Capacity(ord') >= Unit();
        Exhausted(pm.mem, Unit(), ord, go);
        TriedNext(pm.mem, ord, first);
      }
    }

    /** The second order loop: downwards until a block could be made or none can hold a unit. */
    method NewBlock(sum: nat) returns (ok: bool)
      requires Valid() && pm.Valid() && sum >= Unit()
      modifies this, pm.Repr
      ensures pm.Valid() && Valid() && Live() == old(Live()) && fresh(footprint - old(footprint))
      ensures Grew(old(pm.mem), old(places), pm.mem, places) && (ok <==> !NoRoom(old(pm.mem), Unit()))
      ensures ok ==> |blocks| > 0 && !IsFull(0)
      ensures ok ==> |places| == |old(places)| + 1 && LargestFor(old(pm.mem), sum, places[0])
      ensures ok ==> lives == [{}] + old(lives)
    {
      var ord := OrderFor(sum, Unit());
      ghost var first := ord;
      ok := false;
      var go := Capacity(ord) >= Unit();
      NoneFits(ord, Unit());
      while go
        invariant pm.Valid() && Valid() && Live() == old(Live()) && fresh(footprint - old(footprint))
        invariant Trying(ok, go, ord, first, old(pm.mem), old(blocks), old(places), old(lives), old(footprint))
        decreases go, ord
      {
        ok, go, ord := Turn(ord, first, old(pm.mem), old(blocks), old(places), old(lives), old(footprint));
      }
    }

    /** The search through the blocks: the first one with a free slot, or the bytes in use. */
    method FindBlock() returns (i: nat, sum: nat)
      requires Valid()
      ensures i <= |blocks| && (forall j | 0 <= j < i :: IsFull(j)) && (i < |blocks| ==> !IsFull(i))
      ensures i == |blocks| ==> sum == UsedBytes(lives, Unit())
    {
      sum := 0;
      for j := 0 to |blocks|
        invariant Searched(j, sum)
      {
        var free, bytes := Inspect(j);
        if free {
          return j, sum;
        }
        SearchedNext(j, sum, bytes);
        sum := sum + bytes;
      }
      assert lives[..|blocks|] == lives;
      i := |blocks|;
    }

    /** The first `j` blocks are full and have `sum` bytes in use. */
    ghost predicate Searched(j: nat, sum: nat)
      reads this
    {
      j <= |places| == |lives| && (forall k | 0 <= k < j :: IsFull(k)) && sum == UsedBytes(lives[..j], Unit())
    }

    lemma SearchedNext(j: nat, sum: nat, bytes: nat)
      requires Searched(j, sum) && j < |places| && IsFull(j) && bytes == BytesOf(lives[j], Unit())
      ensures Searched(j + 1, sum + bytes)
    {
      UsedNext(lives, Unit(), j);
    }

    /** Whether block `i` has a free slot, and the bytes it has in use. */
    method Inspect(i: nat) returns (free: bool, bytes: nat)
      requires i < |blocks| == |places| == |lives|
      requires Knows(blocks[i], pm.beginPpn, Unit(), places[i], lives[i])
      ensures (free <==> !IsFull(i)) && bytes == BytesOf(lives[i], Unit())
    {
      var b := blocks[i];
      free := b.HasFree();
      var used := b.Used();
      MulMono(0, used, Unit());
      bytes := used * Unit();
    }

    /** kmem_object_alloc: nothing exactly when every block is full and the page allocator has no
        run of the smallest order that holds one object; otherwise a new object. */
    method Alloc() returns (r: Result)
      requires Valid() && pm.Valid()
      modifies this, pm.Repr, footprint
      ensures pm.Valid() && Valid()
      ensures r.Null? <==> old(Full()) && NoRoom(old(pm.mem), Unit())
      ensures r.Null? ==> Live() == old(Live())
      ensures r.Object? ==> Live() == old(Live()) + {r.addr} && r.addr !in old(Live())
      ensures Grew(old(pm.mem), old(places), pm.mem, places) && fresh(footprint - old(footprint))
      ensures if old(Full()) then MadeNew(old(pm.mem), old(places), old(lives), Wanted(old(lives), Unit()), r)
              else TookFirst(old(pm.mem), old(places), old(lives), r)
    {
      var i, sum := FindBlock();
      FullIff(i);
      if i < |blocks| {
        r := AllocFirst(i);
      } else {
        r := AllocNew(AtLeastFour(sum, Unit()));
      }
    }

    /** The object comes from the first block with a free slot; no block is made. */
    ghost predicate TookFirst(mem: seq<bool>, ps: seq<Place>, ls: seq<set<nat>>, r: Result)
      reads this, pm
    {
      pm.mem == mem && places == ps && r.Object? && FromFirst(pm.beginPpn, Unit(), ps, ls, r.addr)
    }

    /** There is no object, or it comes from a new block, made for more than `sum` bytes. */
    ghost predicate MadeNew(mem: seq<bool>, ps: seq<Place>, ls: seq<set<nat>>, sum: nat, r: Result)
      reads this, pm
    {
      r.Object? ==> && |places| == |ps| + 1 && LargestFor(mem, sum, places[0])
                    && FromBlock(pm.beginPpn, Unit(), places, [{}] + ls, 0, r.addr)
    }

    lemma FullIff(i: nat)
      requires i <= |places| == |lives| && (forall j | 0 <= j < i :: IsFull(j)) && (i < |places| ==> !IsFull(i))
      ensures Full() <==> i == |places|
    {
    }

    lemma FullUpTo(i: nat)
      requires |lives| == |places| && i <= |places| && forall j | 0 <= j < i :: IsFull(j)
      ensures FullBefore(Unit(), places, lives, i)
    {
      forall j | 0 <= j < i ensures |lives[j]| == Units(places[j].order, Unit()) {
        assert IsFull(j);
      }
    }

    /** An object in a block there is. */
    method AllocFirst(i: nat) returns (r: Result)
      requires Valid() && pm.Valid() && i < |blocks| && !IsFull(i) && forall j | 0 <= j < i :: IsFull(j)
      modifies this`lives, Foot(blocks[i])
      ensures pm.Valid() && Valid() && r.Object? && footprint == old(footprint)
      ensures Live() == old(Live()) + {r.addr} && r.addr !in old(Live())
      ensures TookFirst(old(pm.mem), old(places), old(lives), r)
    {
      FullUpTo(i);
      var addr := TakeBeside(i);
      r := Object(addr);
    }

    /** An object in it. */
    method AllocNew(sum: nat) returns (r: Result)
      requires Valid() && pm.Valid() && sum >= Unit()
      modifies this, pm.Repr, footprint
      ensures pm.Valid() && Valid()
      ensures r.Null? <==> NoRoom(old(pm.mem), Unit())
      ensures r.Null? ==> Live() == old(Live())
      ensures r.Object? ==> Live() == old(Live()) + {r.addr} && r.addr !in old(Live())
      ensures Grew(old(pm.mem), old(places), pm.mem, places) && fresh(footprint - old(footprint))
      ensures MadeNew(old(pm.mem), old(places), old(lives), sum, r)
    {
      var ok := NewBlock(sum);
      r := Result.Null;
      if ok {
        var addr := TakeBeside(0);
        r := Object(addr);
      }
    }

    /** Slot `k` of block `i` given back, nothing else touched. */
    method ReleaseSlot(i: nat, k: nat)
      requires Valid() && i < |blocks| && k in lives[i]
      modifies Foot(blocks[i])
      ensures KnowsAll(lives[i := lives[i] - {k}])
    {
      var b := blocks[i];
      assert Knows(b, pm.beginPpn, Unit(), places[i], lives[i]);
      b.Release(k);
    }

    /** kmem_object_free for the object at `addr`, whose header names slot `k` of block `i`. */
    method Free(addr: nat, i: nat, k: nat)
      requires Valid() && i < |blocks| && k in lives[i] && addr == ObjectAt(pm.beginPpn, Unit(), places[i], k)
      modifies this`lives, Foot(blocks[i])
      ensures Valid() && addr in old(Live()) && Live() == old(Live()) - {addr}
    {
      ReleaseSlot(i, k);
      OneLess(pm.mem, pm.beginPpn, Unit(), places, lives, i, k);
      lives := lives[i := lives[i] - {k}];
    }

    /** kmem_object_free_block: false if it panics because an object of the block is live; otherwise
        the block leaves the manager and its pages return to the page allocator. */
    method FreeBlock(i: nat) returns (ok: bool)
      requires Valid() && pm.Valid() && i < |blocks|
      modifies this, pm.Repr
      ensures pm.Valid() && Valid()
      ensures ok <==> old(lives)[i] == {}
      ensures !ok ==> Same(old(blocks), old(places), old(lives)) && pm.mem == old(pm.mem)
      ensures ok ==> Same(RemoveAt(old(blocks), i), RemoveAt(old(places), i), RemoveAt(old(lives), i))
      ensures ok ==> Live() == old(Live())
      ensures ok ==> pm.mem == Released(old(pm.mem), old(places)[i].page, Pow2(old(places)[i].order))
    {
      var b := blocks[i];
      assert Knows(b, pm.beginPpn, Unit(), places[i], lives[i]);
      var dirty := b.HasLive();
      ok := !dirty;
      if ok {
        ReturnPages(b, places[i]);
        Drop(i, old(pm.mem));
      }
    }

    /** The pages of block `b` go back. */
    method ReturnPages(b: Block, ghost p: Place)
      requires pm.Valid() && b.base == BaseOf(pm.beginPpn, p) && b.order == p.order
      requires InUse(pm.mem, p.page, Pow2(p.order))
      modifies pm.Repr
      ensures pm.Valid() && pm.mem == Released(old(pm.mem), p.page, Pow2(p.order))
    {
      PageVaRoundTrip(pm.beginPpn + p.page);
      var r := pm.FreePages(b.base, Pow2(b.order));
    }

    /** Disconnecting block `i`. */
    method Drop(i: nat, ghost mem: seq<bool>)
      requires i < |blocks| && Apart() && KnowsAll(lives) && RoundUp8(objectSize) == objectSize
      requires PlacesOk(mem, places) && LivesOk(Unit(), places, lives) && lives[i] == {}
      requires pm.mem == Released(mem, places[i].page, Pow2(places[i].order))
      modifies this`blocks, this`places, this`lives
      ensures Valid() && Same(RemoveAt(old(blocks), i), RemoveAt(old(places), i), RemoveAt(old(lives), i))
      ensures Live() == old(Live())
    {
      LostPlace(mem, Unit(), places, lives, i);
      LostObjects(pm.beginPpn, Unit(), places, lives, i);
      FeetWithout(blocks, footprint, i);
      blocks, places, lives := RemoveAt(blocks, i), RemoveAt(places, i), RemoveAt(lives, i);
    }
  }

  /** The heap objects of two managers over one page allocator are apart. */
  ghost predicate Beside(m: Manager, m': Manager)
    reads m, m'
  {
    m != m' && m.pm == m'.pm && m !in m'.footprint && m' !in m.footprint && m.footprint !! m'.footprint
  }

  /** kmem_object_alloc takes no page that is in use, so it stays clear of blocks at `qs`. */
  method AllocApart(m: Manager, ghost qs: seq<Place>) returns (r: Result)
    requires m.Valid() && m.pm.Valid() && PlacesOk(m.pm.mem, qs) && ManagersApart(m.places, qs)
    modifies m, m.pm.Repr, m.footprint
    ensures m.pm.Valid() && m.Valid() && fresh(m.footprint - old(m.footprint))
    ensures PlacesOk(m.pm.mem, qs) && ManagersApart(m.places, qs)
    ensures |m.pm.mem| == |old(m.pm.mem)| && forall q | 0 <= q < |m.pm.mem| :: old(m.pm.mem)[q] ==> m.pm.mem[q]
    ensures r.Object? ==> m.Live() == old(m.Live()) + {r.addr}
  {
    r := m.Alloc();
    StillApart(old(m.pm.mem), old(m.places), m.pm.mem, m.places, qs);
  }

  /** kmem_object_alloc of one manager leaves another one alone: its objects are the same, and all
      objects of the two are still apart. */
  method AllocBeside(m: Manager, m': Manager) returns (r: Result)
    requires m.Valid() && m'.Valid() && m.pm.Valid() && Beside(m, m') && ManagersApart(m.places, m'.places)
    modifies m, m.pm.Repr, m.footprint
    ensures m.pm.Valid() && m.Valid() && m'.Valid() && Beside(m, m') && ManagersApart(m.places, m'.places)
    ensures m'.Live() == old(m'.Live())
    ensures |m.pm.mem| == |old(m.pm.mem)| && forall q | 0 <= q < |m.pm.mem| :: old(m.pm.mem)[q] ==> m.pm.mem[q]
    ensures r.Object? ==> m.Live() == old(m.Live()) + {r.addr} && r.addr !in m.Live() * m'.Live()
  {
    r := AllocApart(m, m'.places);
    LiveApart(m.pm.beginPpn, m.Unit(), m.places, m.lives, m'.Unit(), m'.places, m'.lives);
  }

  /** No address belongs to both. */
  lemma LiveApart(beginPpn: nat, unit: nat, ps: seq<Place>, ls: seq<set<nat>>, unit': nat, qs: seq<Place>,
                  ls': seq<set<nat>>)
    requires LivesOk(unit, ps, ls) && LivesOk(unit', qs, ls') && ManagersApart(ps, qs)
    ensures ObjectsOf(beginPpn, unit, ps, ls) !! ObjectsOf(beginPpn, unit', qs, ls')
  {
    forall i, k, j, l | 0 <= i < |ps| && k in ls[i] && 0 <= j < |qs| && l in ls'[j]
      ensures ObjectAt(beginPpn, unit, ps[i], k) != ObjectAt(beginPpn, unit', qs[j], l)
    {
      assert InBlock(unit, ps[i], ls[i]) && InBlock(unit', qs[j], ls'[j]);
      OthersApart(beginPpn, unit, ps, i, k, unit', qs, j, l);
    }
  }

  /** An aligned free run of an order that holds a unit means there is one of the smallest such order. */
  lemma RoomAt(mem: seq<bool>, unit: nat, ord: nat, page: nat)
    requires ord < MAX_ORDER && Capacity(ord) >= unit && Aligned(ord, page) && FreeRun(mem, ord, page)
    ensures !NoRoom(mem, unit)
  {
    var m := Smallest(0, unit);
    AlignedBelow(m, ord, page);
    RunWithin(mem, m, ord, page);
  }

  lemma NoneFits(ord: nat, unit: nat)
    requires ord < MAX_ORDER && (Smallest(0, unit) == MAX_ORDER || Smallest(0, unit) <= ord)
    ensures Capacity(ord) < unit ==> Smallest(0, unit) == MAX_ORDER
  {
    if Smallest(0, unit) <= ord {
      CapacityMono(Smallest(0, unit), ord);
    }
  }

  /** The last order tried was the smallest that holds a unit. */
  lemma Exhausted(mem: seq<bool>, unit: nat, ord: nat, more: bool)
    requires !more ==> ord < MAX_ORDER && Capacity(ord) >= unit && (ord == 0 || Capacity(ord - 1) < unit)
    requires !more ==> NoRunOf(mem, ord)
    ensures !more ==> NoRoom(mem, unit)
  {
    if !more {
      LastTried(ord, unit);
    }
  }

  /** The other blocks stay in use. */
  lemma LostPlace(mem: seq<bool>, unit: nat, places: seq<Place>, lives: seq<set<nat>>, i: nat)
    requires PlacesOk(mem, places) && LivesOk(unit, places, lives) && i < |places|
    ensures PlacesOk(Released(mem, places[i].page, Pow2(places[i].order)), RemoveAt(places, i))
    ensures LivesOk(unit, RemoveAt(places, i), RemoveAt(lives, i))
  {
    var ps, ls := RemoveAt(places, i), RemoveAt(lives, i);
    var mem' := Released(mem, places[i].page, Pow2(places[i].order));
    forall j | 0 <= j < |ps| ensures InUse(mem', ps[j].page, Pow2(ps[j].order)) && InBlock(unit, ps[j], ls[j]) {
      var k := if j < i then j else j + 1;
      assert InUse(mem, places[k].page, Pow2(places[k].order)) && InBlock(unit, places[k], lives[k]);
      assert PagesApart(places[if k < i then k else i], places[if k < i then i else k]);
    }
    forall j, k | 0 <= j < k < |ps| ensures PagesApart(ps[j], ps[k]) {
      assert PagesApart(places[if j < i then j else j + 1], places[if k < i then k else k + 1]);
    }
  }

  lemma LostObjects(beginPpn: nat, unit: nat, places: seq<Place>, lives: seq<set<nat>>, i: nat)
    requires |lives| == |places| && i < |places| && lives[i] == {}
    ensures ObjectsOf(beginPpn, unit, RemoveAt(places, i), RemoveAt(lives, i)) ==
              ObjectsOf(beginPpn, unit, places, lives)
  {
    var ps, ls := RemoveAt(places, i), RemoveAt(lives, i);
    var s, s' := ObjectsOf(beginPpn, unit, places, lives), ObjectsOf(beginPpn, unit, ps, ls);
    forall x | x in s ensures x in s' {
      var j, l :| 0 <= j < |places| && l in lives[j] && x == ObjectAt(beginPpn, unit, places[j], l);
      var k := if j < i then j else j - 1;
      assert l in ls[k] && ps[k] == places[j];
    }
    forall x | x in s' ensures x in s {
      var j, l :| 0 <= j < |ps| && l in ls[j] && x == ObjectAt(beginPpn, unit, ps[j], l);
      var k := if j < i then j else j + 1;
      assert l in lives[k] && places[k] == ps[j];
    }
  }
}
