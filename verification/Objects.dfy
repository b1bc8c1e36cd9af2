/** One block of the object allocator, kernel/memory/object.c: the pages behind its head are cut
    into slots, each with a header that links it into the free or the allocated chain. */
module Objects {
  import opened Addr
  import opened Arith
  import Blocks
  import Links

  const HEADER := 24 // sizeof(struct kmem_object_header_struct)
  const BLOCK := 96 // sizeof(struct kmem_object_block_struct)
  const OBJECT_ALIGNMENT := 8

  /** `BINARY_ROUND_UP(x, OBJECT_ALIGNMENT)` */
  function RoundUp8(x: nat): nat {
    (x + OBJECT_ALIGNMENT - 1) / OBJECT_ALIGNMENT * OBJECT_ALIGNMENT
  }

  function RoundDown8(x: nat): nat {
    x / OBJECT_ALIGNMENT * OBJECT_ALIGNMENT
  }

  /** Bytes of a block of 2^`order` pages. */
  function Bytes(order: nat): nat {
    Blocks.Pow2(order) * PAGE_SIZE
  }

  /** Bytes behind the head, as the order search computes them. */
  function Capacity(order: nat): nat {
    if Bytes(order) >= BLOCK then RoundDown8(Bytes(order) - BLOCK) else 0
  }

  lemma {:induction false} BytesFacts(order: nat)
    ensures Bytes(order) >= PAGE_SIZE && Capacity(order) == Bytes(order) - BLOCK && Bytes(order + 1) == 2 * Bytes(order)
  {
    if order > 0 {
      BytesFacts(order - 1);
    }
  }

  /** How many slots fit. */
  function Units(order: nat, unit: nat): nat
    requires unit > 0
  {
    Capacity(order) / unit
  }

  lemma UnitsFit(order: nat, unit: nat, k: nat)
    requires unit > 0
    ensures k <= Units(order, unit) <==> k * unit <= Capacity(order)
  {
    var c := Capacity(order);
    assert c == c / unit * unit + c % unit;
    if k <= c / unit {
      MulMono(k, c / unit, unit);
    } else {
      MulMono(c / unit + 1, k, unit);
    }
  }

  /** Where slot `k` begins. */
  function SlotAt(base: nat, unit: nat, k: nat): nat {
    base + BLOCK + k * unit
  }

  /** Slots lie in their block, behind its head, and do not overlap. */
  lemma SlotsApart(base: nat, order: nat, unit: nat, k: nat, l: nat)
    requires unit > 0 && k < l < Units(order, unit)
    ensures base + BLOCK <= SlotAt(base, unit, k) && SlotAt(base, unit, k) + unit <= SlotAt(base, unit, l)
    ensures SlotAt(base, unit, l) + unit <= base + Bytes(order)
  {
    BytesFacts(order);
    MulMono(k + 1, l, unit);
    UnitsFit(order, unit, l + 1);
  }

  lemma SlotInside(base: nat, order: nat, unit: nat, k: nat)
    requires unit > 0 && k < Units(order, unit)
    ensures base + BLOCK <= SlotAt(base, unit, k) && SlotAt(base, unit, k) + unit <= base + Bytes(order)
  {
    BytesFacts(order);
    UnitsFit(order, unit, k + 1);
  }

  // ------------------------------------------------------------ chains

  /** Every slot is in the free chain or in the allocated one. */
  ghost predicate Partition(chains: seq<seq<nat>>, total: nat) {
    && |chains| == 2 && |chains[0]| > 0 && |chains[1]| > 0 && chains[0][0] == total && chains[1][0] == total + 1
    && |chains[0]| + |chains[1]| == total + 2
    && forall k | 0 <= k < total :: Somewhere(chains, k)
  }

  ghost predicate Somewhere(chains: seq<seq<nat>>, k: nat)
    requires |chains| == 2
  {
    k in chains[0] || k in chains[1]
  }

  /** The slots of a chain, without its head. */
  ghost function Slots(chain: seq<nat>): set<nat>
    requires |chain| > 0
  {
    set i | 0 < i < |chain| :: chain[i]
  }

  /** Moving the node at place `i` of chain `c` to the front of the other chain. */
  ghost function Move(chains: seq<seq<nat>>, c: nat, i: nat): seq<seq<nat>>
    requires |chains| == 2 && c < 2 && 0 < i < |chains[c]| && |chains[1 - c]| > 0
  {
    var x := chains[c][i];
    chains[c := Links.RemoveAt(chains[c], i)][1 - c := Links.InsertAt(chains[1 - c], 1, x)]
  }

  lemma RemovedElems(chain: seq<nat>, i: nat, k: nat)
    requires i < |chain| && k in chain && k != chain[i]
    ensures k in Links.RemoveAt(chain, i)
  {
    var j :| 0 <= j < |chain| && chain[j] == k;
    assert Links.RemoveAt(chain, i)[if j < i then j else j - 1] == k;
  }

  lemma InsertedElems(chain: seq<nat>, x: nat, k: nat)
    requires |chain| > 0 && (k in chain || k == x)
    ensures k in Links.InsertAt(chain, 1, x)
  {
    var after := Links.InsertAt(chain, 1, x);
    if k == x {
      assert after[1] == x;
    } else {
      var j :| 0 <= j < |chain| && chain[j] == k;
      assert after[if j < 1 then j else j + 1] == k;
    }
  }

  lemma MoveKeeps(chains: seq<seq<nat>>, total: nat, c: nat, i: nat)
    requires Partition(chains, total) && c < 2 && 0 < i < |chains[c]|
    ensures Partition(Move(chains, c, i), total)
  {
    var x := chains[c][i];
    forall k | 0 <= k < total ensures Somewhere(Move(chains, c, i), k) {
      assert Somewhere(chains, k);
      if k in chains[1 - c] || k == x {
        InsertedElems(chains[1 - c], x, k);
      } else {
        RemovedElems(chains[c], i, k);
      }
    }
  }

  /** A node cut out of its chain is in none. */
  lemma CutOut(chains: seq<seq<nat>>, c: nat, i: nat)
    requires Links.Apart(chains) && c < |chains| && 0 < i < |chains[c]|
    ensures Links.InNone(chains[c := Links.RemoveAt(chains[c], i)], chains[c][i])
  {
    var x := chains[c][i];
    var after := chains[c := Links.RemoveAt(chains[c], i)];
    forall d | 0 <= d < |after| ensures x !in after[d] {
      forall j | 0 <= j < |after[d]| ensures after[d][j] != x {
        var j' := if d == c && j >= i then j + 1 else j;
        assert after[d][j] == chains[d][j'];
      }
    }
  }

  // ------------------------------------------------------------ blocks

  class Block {
    const base: nat
    const order: nat
    const unit: nat
    const slots: Links.Nodes
    var used: nat
    var total: nat
    ghost const Repr: set<object>

    ghost predicate Valid()
      reads this, slots, slots.nxt, slots.prv
    {
      && Repr == {this, slots, slots.nxt, slots.prv} && unit >= HEADER
      && slots.Valid() && slots.nxt.Length == total + 2 && total == Units(order, unit)
      && Partition(slots.chains, total) && used == |slots.chains[1]| - 1
    }

    /** The slots handed out. */
    ghost function Live(): set<nat>
      requires Valid()
      reads this, slots, slots.nxt, slots.prv
    {
      Slots(slots.chains[1])
    }

    /** The carving of kmem_object_create_block, on pages that begin at `base`. */
    constructor (base: nat, order: nat, objectSize: nat)
      requires base % PAGE_SIZE == 0
      ensures Valid() && fresh(Repr) && this.base == base && this.order == order
      ensures unit == HEADER + RoundUp8(objectSize)
      ensures used == 0 && Live() == {}
    {
      this.base, this.order := base, order;
      var unitSize := HEADER + RoundUp8(objectSize);
      this.unit, used, total := unitSize, 0, 0;
      var l := new Links.Nodes(Units(order, unitSize), 2);
      slots := l;
      Repr := {this, l, l.nxt, l.prv};
      new;
      Carve(base + Bytes(order));
    }

    /** Its loop. */
    method Carve(pageEnd: nat)
      requires base % PAGE_SIZE == 0 && unit >= HEADER && pageEnd == base + Bytes(order) && total == 0
      requires slots.Valid() && slots.nxt.Length == Units(order, unit) + 2
      requires slots.chains == [[Units(order, unit)], [Units(order, unit) + 1]]
      modifies this`total, slots, slots.nxt, slots.prv
      ensures slots.Valid() && total == Units(order, unit) && Partition(slots.chains, total) && |slots.chains[1]| == 1
    {
      ghost var n := Units(order, unit);
      var previous := slots.nxt.Length - 2;
      var pos := RoundUp8(base + BLOCK);
      FirstSlot(base, unit);
      assert [n] + UpTo(0) == [n];
      while pos + unit <= pageEnd
        invariant total <= n && pos == SlotAt(base, unit, total)
        invariant slots.Valid() && slots.chains == [[n] + UpTo(total), [n + 1]]
        invariant previous == if total == 0 then n else total - 1
        decreases pageEnd - pos
      {
        NextSlot(base, order, unit, total);
        CarveStep(n, total);
        slots.Append(previous, total, 0);
        previous := total;
        total := total + 1;
        pos := pos + unit;
      }
      NoMoreSlots(base, order, unit, total);
      AllFree(n);
    }

    /** kmem_object_alloc_from_block: the first free slot, or a panic if there is none. */
    method Take() returns (r: TakeResult)
      requires Valid()
      modifies this`used, slots, slots.nxt, slots.prv
      ensures Valid()
      ensures r.NoSlots? <==> |old(Live())| == old(total)
      ensures r.NoSlots? ==> Live() == old(Live())
      ensures r.Slot? ==> exists k: nat :: Handed(base, unit, total, old(Live()), Live(), k, r.addr)
      ensures r.Slot? ==>
                && |old(slots.chains[0])| > 1 && Live() == old(Live()) + {old(slots.chains[0])[1]}
                && r.addr == SlotAt(base, unit, old(slots.chains[0])[1]) + HEADER
    {
      var node := slots.nxt[total];
      ghost var chains := slots.chains;
      LiveCount(chains, total);
      FirstOf(slots.nxt[..], slots.prv[..], chains[0]);
      if node == Links.NULL {
        r := NoSlots;
      } else {
        IsSlot(slots.nxt[..], slots.prv[..], chains, total, 0, 1);
        Shift(node, total + 1, 0, 1);
        InsertedSlots(chains[1], node);
        used := used + 1;
        assert Handed(base, unit, total, Slots(chains[1]), Live(), node, SlotAt(base, unit, node) + HEADER);
        r := Slot(SlotAt(base, unit, node) + HEADER);
      }
    }

    /** `free_slots.nxt != NULL` */
    method HasFree() returns (b: bool)
      requires Valid()
      ensures b <==> |Live()| != total
    {
      LiveCount(slots.chains, total);
      FirstOf(slots.nxt[..], slots.prv[..], slots.chains[0]);
      b := slots.nxt[total] != Links.NULL;
    }

    /** `used` counts the slots handed out. */
    method Used() returns (n: nat)
      requires Valid()
      ensures n == |Live()|
    {
      LiveCount(slots.chains, total);
      n := used;
    }

    /** `allocated_slots.nxt != NULL` */
    method HasLive() returns (b: bool)
      requires Valid()
      ensures b <==> Live() != {}
    {
      FirstOf(slots.nxt[..], slots.prv[..], slots.chains[1]);
      b := slots.nxt[total + 1] != Links.NULL;
      if b {
        assert slots.chains[1][1] in Live();
      }
    }

    /** A node cut out of chain `c` and put behind the head of the other one. */
    method Shift(node: nat, head: nat, ghost c: nat, ghost i: nat)
      requires slots.Valid() && Partition(slots.chains, total) && c < 2 && 0 < i < |slots.chains[c]|
      requires node == slots.chains[c][i] && head == slots.chains[1 - c][0]
      modifies slots, slots.nxt, slots.prv
      ensures slots.Valid() && slots.chains == Move(old(slots.chains), c, i) && Partition(slots.chains, total)
    {
      MoveKeeps(slots.chains, total, c, i);
      CutOut(slots.chains, c, i);
      slots.Detach(node, c, i);
      slots.Insert(head, node, 1 - c);
    }

    /** kmem_object_free for slot `k` of this block. */
    method Release(k: nat)
      requires Valid() && k in Live()
      modifies this`used, slots, slots.nxt, slots.prv
      ensures Valid() && Live() == old(Live()) - {k}
      ensures |slots.chains[0]| > 1 && slots.chains[0][1] == k
    {
      ghost var chains := slots.chains;
      ghost var i :| 0 < i < |chains[1]| && chains[1][i] == k;
      Shift(k, total, 1, i);
      ChainDistinct(chains, 1);
      RemovedSlots(chains[1], i);
      used := used - 1;
    }
  }

  /** The slot given back last is handed out first. */
  method ReleaseThenTake(b: Block, k: nat) returns (r: TakeResult)
    requires b.Valid() && k in b.Live()
    modifies b`used, b.slots, b.slots.nxt, b.slots.prv
    ensures b.Valid() && b.Live() == old(b.Live())
    ensures r == Slot(SlotAt(b.base, b.unit, k) + HEADER)
  {
    ghost var live := b.Live();
    b.Release(k);
    LiveCount(b.slots.chains, b.total);
    r := b.Take();
    assert live - {k} + {k} == live;
  }

  datatype TakeResult = NoSlots | Slot(addr: nat)

  /** Slot `k` was free and is handed out at `addr`, behind its header. */
  ghost predicate Handed(base: nat, unit: nat, total: nat, live: set<nat>, live': set<nat>, k: nat, addr: nat) {
    k < total && k !in live && live' == live + {k} && addr == SlotAt(base, unit, k) + HEADER
  }

  ghost function UpTo(n: nat): seq<nat> {
    seq(n, i => i)
  }

  lemma NextSlot(base: nat, order: nat, unit: nat, k: nat)
    requires unit > 0 && SlotAt(base, unit, k) + unit <= base + Bytes(order)
    ensures k + 1 <= Units(order, unit) && SlotAt(base, unit, k) + unit == SlotAt(base, unit, k + 1)
  {
    BytesFacts(order);
    UnitsFit(order, unit, k + 1);
  }

  lemma NoMoreSlots(base: nat, order: nat, unit: nat, k: nat)
    requires unit > 0 && k <= Units(order, unit) && SlotAt(base, unit, k) + unit > base + Bytes(order)
    ensures k == Units(order, unit)
  {
    BytesFacts(order);
    UnitsFit(order, unit, k + 1);
  }

  lemma FirstSlot(base: nat, unit: nat)
    requires base % PAGE_SIZE == 0
    ensures RoundUp8(base + BLOCK) == SlotAt(base, unit, 0)
  {
    var q := base / PAGE_SIZE;
    DivModIs(base + BLOCK + 7, 8, 512 * q + 12, 7);
  }

  lemma CarveStep(n: nat, k: nat)
    requires k < n
    ensures Links.InNone([[n] + UpTo(k), [n + 1]], k) && [n] + UpTo(k) + [k] == [n] + UpTo(k + 1)
    ensures ([n] + UpTo(k))[k] == if k == 0 then n else k - 1
  {
  }

  lemma AllFree(n: nat)
    ensures Partition([[n] + UpTo(n), [n + 1]], n)
  {
    var chains := [[n] + UpTo(n), [n + 1]];
    forall k | 0 <= k < n ensures Somewhere(chains, k) {
      assert chains[0][k + 1] == k;
    }
  }

  lemma {:induction false} SlotsCount(chain: seq<nat>)
    requires |chain| > 0 && Links.Distinct(chain)
    ensures |Slots(chain)| == |chain| - 1
  {
    if |chain| == 1 {
      assert Slots(chain) == {};
    } else {
      var n := |chain| - 1;
      SlotsCount(chain[..n]);
      assert chain[n] !in Slots(chain[..n]);
      assert Slots(chain) == Slots(chain[..n]) + {chain[n]};
    }
  }

  lemma FirstOf(nxt: seq<int>, prv: seq<int>, chain: seq<nat>)
    requires |nxt| == |prv| && Links.Linked(nxt, prv, chain)
    ensures nxt[chain[0]] == if |chain| == 1 then Links.NULL else chain[1]
  {
  }

  lemma ChainDistinct(chains: seq<seq<nat>>, c: nat)
    requires Links.Apart(chains) && c < |chains|
    ensures Links.Distinct(chains[c])
  {
  }

  /** As many slots are handed out as the block has, exactly when the free chain is empty. */
  lemma LiveCount(chains: seq<seq<nat>>, total: nat)
    requires Partition(chains, total) && Links.Apart(chains)
    ensures |Slots(chains[1])| == |chains[1]| - 1 && (|Slots(chains[1])| == total <==> |chains[0]| == 1)
  {
    ChainDistinct(chains, 1);
    SlotsCount(chains[1]);
  }

  /** What stands in a chain behind its head is a slot, and in no other chain. */
  lemma IsSlot(nxt: seq<int>, prv: seq<int>, chains: seq<seq<nat>>, total: nat, c: nat, i: nat)
    requires |nxt| == |prv| == total + 2 && Links.AllLinked(nxt, prv, chains) && Partition(chains, total) && c < 2
    requires 0 < i < |chains[c]|
    ensures chains[c][i] < total && chains[c][i] !in Slots(chains[1 - c])
  {
    assert Links.Linked(nxt, prv, chains[c]);
    assert chains[c][i] != chains[0][0] && chains[c][i] != chains[1][0];
  }

  lemma InsertedSlots(chain: seq<nat>, x: nat)
    requires |chain| > 0
    ensures Slots(Links.InsertAt(chain, 1, x)) == Slots(chain) + {x}
  {
    var after := Links.InsertAt(chain, 1, x);
    forall y | y in Slots(chain) + {x} ensures y in Slots(after) {
      if y == x {
        assert after[1] == x;
      } else {
        var j :| 0 < j < |chain| && chain[j] == y;
        assert after[j + 1] == y;
      }
    }
    forall y | y in Slots(after) ensures y in Slots(chain) + {x} {
      var j :| 0 < j < |after| && after[j] == y;
      assert j > 1 ==> chain[j - 1] == y;
    }
  }

  lemma RemovedSlots(chain: seq<nat>, i: nat)
    requires 0 < i < |chain| && Links.Distinct(chain)
    ensures Slots(Links.RemoveAt(chain, i)) == Slots(chain) - {chain[i]}
  {
    var after := Links.RemoveAt(chain, i);
    forall y | y in Slots(chain) - {chain[i]} ensures y in Slots(after) {
      var j :| 0 < j < |chain| && chain[j] == y;
      assert after[if j < i then j else j - 1] == y;
    }
    forall y | y in Slots(after) ensures y in Slots(chain) - {chain[i]} {
      var j :| 0 < j < |after| && after[j] == y;
      assert chain[if j < i then j else j + 1] == y;
    }
  }
}
