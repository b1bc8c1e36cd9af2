/** Virtual memory: the page-table operations of kernel/memory/vmem.c. */
module Vm {
  import opened Addr
  import opened Blocks
  import opened BuddySteps
  import opened Buddy
  import opened PageTable
  import opened Types

  datatype MapResult = Mapped | Failed | Overlap

  /** The physical pages the page manager has free. */
  ghost function FreeSet(mem: seq<bool>, begin: nat): set<nat> {
    set i | 0 <= i < |mem| && !mem[i] :: begin + i
  }

  lemma FreeSetTake(m: seq<bool>, begin: nat, i: nat)
    requires i < |m| && !m[i]
    ensures Taken(m, i, 0) == m[i := true]
    ensures begin + i in FreeSet(m, begin)
    ensures FreeSet(m[i := true], begin) == FreeSet(m, begin) - {begin + i}
  {
    var m' := m[i := true];
    forall p: nat ensures p in FreeSet(m', begin) <==> p in FreeSet(m, begin) - {begin + i} {
      if p >= begin && p - begin < |m| {
        assert p in FreeSet(m, begin) <==> !m[p - begin];
        assert p in FreeSet(m', begin) <==> !m'[p - begin];
      }
    }
  }

  lemma FreeSetGive(m: seq<bool>, begin: nat, i: nat)
    requires i < |m|
    ensures m[i] <==> begin + i !in FreeSet(m, begin)
    ensures FreeSet(m[i := false], begin) == FreeSet(m, begin) + {begin + i}
  {
    var m' := m[i := false];
    forall p: nat ensures p in FreeSet(m', begin) <==> p in FreeSet(m, begin) + {begin + i} {
      if p >= begin && p - begin < |m| {
        assert p in FreeSet(m, begin) <==> !m[p - begin];
        assert p in FreeSet(m', begin) <==> !m'[p - begin];
      }
    }
  }

  /** Number of pages that `[va, va + siz)` touches. */
  function PageCount(va: nat, siz: nat): int {
    (va + siz + PAGE_SIZE - 1) / PAGE_SIZE - va / PAGE_SIZE
  }

  /** One turn of the loop of vm_mappages, on values. */
  lemma MapTurn(ram0: Ram, tab0: map<Label, nat>, free0: set<nat>, ram1: Ram, tab1: map<Label, nat>, free1: set<nat>,
                ram2: Ram, tab2: map<Label, nat>, free2: set<nat>, root: nat, first: nat, ppn: nat, flags: nat, j: nat,
                e: nat, hit: bool)
    requires flags < 1024 && e == Pte(ppn + j, WithV(flags))
    requires Extends(ram0, tab0, free0, ram1, tab1, free1, root) && Extends(ram1, tab1, free1, ram2, tab2, free2, root)
    requires MappedUpTo(ram0, tab0, ram1, tab1, root, first, ppn, flags, j)
    requires hit ==> !IsValid(Entry(ram1, tab1, VpnAt(first, j)))
    requires Updated(ram1, tab1, ram2, tab2, root, hit, VpnAt(first, j), e)
    ensures Extends(ram0, tab0, free0, ram2, tab2, free2, root)
    ensures MappedUpTo(ram0, tab0, ram2, tab2, root, first, ppn, flags, if hit then j + 1 else j)
  {
    ExtendsTransitive(ram0, tab0, free0, ram1, tab1, free1, ram2, tab2, free2, root);
    if hit {
      MapStep(ram0, tab0, ram1, tab1, ram2, tab2, root, first, ppn, flags, j, VpnAt(first, j));
    }
  }

  lemma PageArith(first: nat, pa: nat, j: nat, current: nat, pg: nat)
    requires current == first + j && pg == pa + j * PAGE_SIZE
    ensures Vpn(current * PAGE_SIZE) == VpnAt(first, j)
    ensures pg / PAGE_SIZE == pa / PAGE_SIZE + j
  {
  }

  /** After `j` pages of vm_unmappages: cleared entries, nothing but tables written, and the
      targets given back once each if they are to be freed. */
  ghost predicate UnmapState(ram0: Ram, free0: set<nat>, ram: Ram, free: set<nat>, tab: map<Label, nat>, root: nat,
                             first: nat, j: nat, doFree: bool)
  {
    && Tree(ram0, root, tab) && Tree(ram, root, tab) && SameOutside(ram0, ram, tab.Values)
    && UnmappedUpTo(ram0, ram, tab, root, first, j)
    && if doFree then ReturnedOnce(Targets(ram0, tab, root, first, j), free0, free) else free == free0
  }

  /** Why vm_unmappages panics: no leaf at page `j`, or its target is free already. */
  ghost predicate Stuck(ram: Ram, free: set<nat>, tab: map<Label, nat>, root: nat, first: nat, j: nat, doFree: bool) {
    Tree(ram, root, tab) &&
    var e := Entry(ram, tab, VpnAt(first, j));
    !IsLeaf(e) || (doFree && PtePpn(e) in free)
  }

  /** Page `v` is removed from the abstract map, and its page freed if asked for, or nothing changes:
      there is no leaf, or its target is free already. */
  ghost predicate OneUnmapped(ram: Ram, free: set<nat>, ram': Ram, free': set<nat>, tab: map<Label, nat>, root: nat,
                              v: nat, doFree: bool, ok: bool)
  {
    && Tree(ram, root, tab) && Tree(ram', root, tab) && SameOutside(ram, ram', tab.Values)
    && Updated(ram, tab, ram', tab, root, ok, v, 0)
    && var e := Entry(ram, tab, v);
       && (ok <==> IsLeaf(e) && (doFree ==> PtePpn(e) !in free))
       && free' == if ok && doFree then free + {PtePpn(e)} else free
  }

  /** One turn of the loop of vm_unmappages, whether or not it panics. */
  lemma UnmapEither(ram0: Ram, free0: set<nat>, ram1: Ram, free1: set<nat>, ram2: Ram, free2: set<nat>,
                    tab: map<Label, nat>, root: nat, first: nat, j: nat, doFree: bool, ok: bool)
    requires UnmapState(ram0, free0, ram1, free1, tab, root, first, j, doFree)
    requires OneUnmapped(ram1, free1, ram2, free2, tab, root, VpnAt(first, j), doFree, ok)
    ensures UnmapState(ram0, free0, ram2, free2, tab, root, first, if ok then j + 1 else j, doFree)
    ensures !ok ==> Stuck(ram2, free2, tab, root, first, j, doFree)
  {
    if ok {
      UnmapTurn(ram0, ram1, ram2, tab, root, first, j, doFree, free0, free1, free2);
    } else {
      NoUpdate(ram0, ram1, ram2, tab, root, first, j, VpnAt(first, j), 0);
    }
  }

  /** One that does not, on values. */
  lemma UnmapTurn(ram0: Ram, ram1: Ram, ram2: Ram, tab: map<Label, nat>, root: nat, first: nat, j: nat, doFree: bool,
                  free0: set<nat>, free1: set<nat>, free2: set<nat>)
    requires UnmapState(ram0, free0, ram1, free1, tab, root, first, j, doFree)
    requires Tree(ram2, root, tab) && SameOutside(ram1, ram2, tab.Values)
    requires Updated(ram1, tab, ram2, tab, root, true, VpnAt(first, j), 0) && IsLeaf(Entry(ram1, tab, VpnAt(first, j)))
    requires var p := PtePpn(Entry(ram1, tab, VpnAt(first, j)));
             if doFree then p !in free1 && free2 == free1 + {p} else free2 == free1
    ensures UnmapState(ram0, free0, ram2, free2, tab, root, first, j + 1, doFree)
  {
    UnmapStep(ram0, ram1, ram2, tab, root, first, j);
    if doFree {
      ReturnStep(Targets(ram0, tab, root, first, j), free0, free1, Target(ram0, tab, root, first, j));
      TargetsStep(ram0, tab, root, first, j);
    }
  }

  lemma NoUpdate(ram0: Ram, ram1: Ram, ram2: Ram, tab: map<Label, nat>, root: nat, first: nat, j: nat, v: nat, e: nat)
    requires Tree(ram0, root, tab) && Tree(ram1, root, tab) && Tree(ram2, root, tab)
    requires UnmappedUpTo(ram0, ram1, tab, root, first, j) && Updated(ram1, tab, ram2, tab, root, false, v, e)
    ensures UnmappedUpTo(ram0, ram2, tab, root, first, j) && Entry(ram2, tab, v) == Entry(ram1, tab, v)
  {
  }

  class Machine {
    const pm: PageManager
    /** Contents of physical memory, page by page, 512 words each. */
    var ram: Ram

    constructor (pm: PageManager, ram: Ram)
      requires pm.Valid()
      requires Pages(ram, pm.beginPpn, pm.beginPpn + pm.numPpn)
      ensures this.pm == pm && this.ram == ram && Valid()
    {
      this.pm, this.ram := pm, ram;
    }

    ghost predicate Valid()
      reads this, pm, pm.Repr
    {
      && this !in pm.Repr
      && pm.Valid()
      && Pages(ram, pm.beginPpn, pm.beginPpn + pm.numPpn)
    }

    ghost predicate Managed(p: nat) {
      pm.beginPpn <= p < pm.beginPpn + pm.numPpn
    }

    ghost function Free(): set<nat>
      reads pm
    {
      FreeSet(pm.mem, pm.beginPpn)
    }

    /** `kmem_alloc_pages(0)`, as a physical page number. */
    method AllocPage() returns (r: Option<nat>)
      requires Valid()
      modifies pm.Repr
      ensures Valid()
      ensures r.None? ==> Free() == old(Free()) == {}
      ensures r.Some? ==> r.value in old(Free()) && Managed(r.value) && Free() == old(Free()) - {r.value}
    {
      var a := pm.AllocPages(0);
      if a.Page? {
        FreeSetTake(old(pm.mem), pm.beginPpn, pm.IndexOf(a.addr));
        r := Some(PpnOf(a.addr));
      } else {
        forall p | p in Free() ensures false {
          assert Aligned(0, p - pm.beginPpn);
          assert FreeRun(pm.mem, 0, p - pm.beginPpn);
        }
        r := None;
      }
    }

    /** `kmem_free_page` of a physical page; false if that panics. */
    method FreePage(p: nat) returns (ok: bool)
      requires Valid() && Managed(p)
      modifies pm.Repr
      ensures Valid()
      ensures ok <==> p !in old(Free())
      ensures Free() == old(Free()) + {p}
    {
      PageVaRoundTrip(p);
      ghost var m := pm.mem;
      var r := pm.FreePage(PageVa(p));
      ok := r.Freed?;
      FreeSetGive(m, pm.beginPpn, p - pm.beginPpn);
      assert !ok ==> m == m[p - pm.beginPpn := false];
    }

    /** Page `p` is cleared and entry `i` of table `t` leads to it. */
    method Hook(t: nat, i: nat, p: nat)
      requires Valid() && IsTable(ram, t) && i < N_ENTRIES
      modifies this`ram
      ensures Valid() && ram == Hooked(old(ram), t, i, p) && Free() == old(Free())
    {
      PagesAfterHook(ram, t, i, p, pm.beginPpn, pm.beginPpn + pm.numPpn);
      ram := Hooked(ram, t, i, p);
    }

    /** The allocating branch of vm_walk: a cleared page becomes the table behind entry `i` of table `t`. */
    method AddTable(root: nat, t: nat, i: nat, ghost l: Label, ghost ram0: Ram, ghost tab0: map<Label, nat>,
                    ghost free0: set<nat>, ghost tab1: map<Label, nat>)
      returns (p: Option<nat>, ghost tab: map<Label, nat>)
      requires Valid() && Grown(ram0, tab0, free0, ram, tab1, Free(), root)
      requires l in tab1 && tab1[l] == t && l.lv > 0 && i < N_ENTRIES && ram[t][i] == 0
      modifies this`ram, pm.Repr
      ensures Valid() && Grown(ram0, tab0, free0, ram, tab, Free(), root)
      ensures p.None? ==> tab == tab1 && ram == old(ram) && Free() == {}
      ensures p.Some? ==> Child(l, i) in tab && tab[Child(l, i)] == p.value
    {
      ghost var before := Free();
      tab := tab1;
      p := AllocPage();
      if p.Some? {
        assert IsTable(ram, p.value) && IsTable(ram, tab[l]);
        GrowStep(ram0, tab0, free0, ram, tab, before, root, l, i, p.value);
        Hook(t, i, p.value);
        tab := tab[Child(l, i) := p.value];
      }
    }

    /** One turn of the loop of vm_walk: from the table at level `lv` to the one below. */
    method Descend(root: nat, va: nat, alloc: bool, lv: nat, t: nat, ghost ram0: Ram, ghost tab0: map<Label, nat>,
                   ghost free0: set<nat>, ghost tab1: map<Label, nat>)
      returns (next: Option<nat>, ghost tab: map<Label, nat>)
      requires Valid() && Grown(ram0, tab0, free0, ram, tab1, Free(), root)
      requires 0 < lv < N_VPN && OnPath(lv, va) in tab1 && tab1[OnPath(lv, va)] == t
      modifies this`ram, pm.Repr
      ensures Valid() && Grown(ram0, tab0, free0, ram, tab, Free(), root)
      ensures next.Some? ==> OnPath(lv - 1, va) in tab && tab[OnPath(lv - 1, va)] == next.value
      ensures !alloc ==> tab == tab1 && ram == old(ram) && Free() == old(Free())
      ensures next.None? ==> OnPath(0, va) !in tab
      ensures alloc && next.None? ==> Free() == {}
    {
      var i := Pn(lv, va);
      PathStep(lv, va);
      EntryMeaning(ram, root, tab1, OnPath(lv, va), i);
      tab := tab1;
      var e := ram[t][i];
      if IsValid(e) {
        next := Some(PtePpn(e));
      } else if !alloc {
        NoTableBelow(root, tab1, lv - 1, va);
        next := None;
      } else {
        NoTableBelow(root, tab1, lv - 1, va);
        next, tab := AddTable(root, t, i, OnPath(lv, va), ram0, tab0, free0, tab);
      }
    }

    /** vm_walk: the last-level slot for `va`, adding tables on the way if `alloc` is set. */
    method Walk(root: nat, va: nat, alloc: bool, ghost tab0: map<Label, nat>)
      returns (slot: Option<(nat, nat)>, ghost tab: map<Label, nat>)
      requires Valid() && Tree(ram, root, tab0) && tab0.Values !! Free()
      modifies this`ram, pm.Repr
      ensures Valid() && Grown(old(ram), tab0, old(Free()), ram, tab, Free(), root)
      ensures slot.Some? <==> OnPath(0, va) in tab
      ensures slot.Some? ==> slot.value == (tab[OnPath(0, va)], Pn(0, va))
      ensures !alloc ==> tab == tab0 && ram == old(ram) && Free() == old(Free())
      ensures alloc && slot.None? ==> Free() == {}
    {
      ghost var ram0, free0 := ram, Free();
      var pgtbl := root;
      tab := tab0;
      for lv := N_VPN - 1 downto 0
        invariant Valid() && Grown(ram0, tab0, free0, ram, tab, Free(), root)
        invariant OnPath(lv, va) in tab && tab[OnPath(lv, va)] == pgtbl
        invariant !alloc ==> tab == tab0 && ram == ram0 && Free() == free0
      {
        var next;
        next, tab := Descend(root, va, alloc, lv + 1, pgtbl, ram0, tab0, free0, tab);
        if next.None? {
          return None, tab;
        }
        pgtbl := next.value;
      }
      slot := Some((pgtbl, Pn(0, va)));
    }

    /** The body of the loop of vm_mappages: enters `e` for the page at `va` unless it is mapped already. */
    method MapOne(root: nat, va: nat, e: nat, ghost tab0: map<Label, nat>, ghost v: nat)
        returns (r: MapResult, ghost tab: map<Label, nat>)
      requires Valid() && Tree(ram, root, tab0) && tab0.Values !! Free() && v == Vpn(va)
      modifies this`ram, pm.Repr
      ensures Valid() && Extends(old(ram), tab0, old(Free()), ram, tab, Free(), root)
      ensures r.Failed? ==> Free() == {}
      ensures r.Overlap? <==> IsValid(Entry(old(ram), tab0, v))
      ensures Updated(old(ram), tab0, ram, tab, root, r.Mapped?, v, e)
    {
      ghost var ram0, free0 := ram, Free();
      var slot;
      slot, tab := Walk(root, va, true, tab0);
      PathEnd(va);
      if slot.None? {
        return Failed, tab;
      }
      var (t, i) := slot.value;
      assert IsTable(ram, tab[OnPath(0, va)]);
      if IsValid(ram[t][i]) {
        return Overlap, tab;
      }
      SetLeaf(ram, root, tab, v, e);
      ExtendsByLeaf(ram0, tab0, free0, ram, tab, Free(), root, v, e);
      Write(t, i, e);
      return Mapped, tab;
    }

    /** One turn of the loop of vm_mappages, on page `current`, after `j` pages. */
    method MapNext(root: nat, current: nat, pg: nat, flags: nat, ghost ram0: Ram, ghost tab0: map<Label, nat>,
                   ghost free0: set<nat>, ghost tab1: map<Label, nat>, ghost first: nat, ghost pa: nat, ghost j: nat)
      returns (r: MapResult, ghost tab: map<Label, nat>)
      requires Valid() && flags < 1024 && current == first + j && pg == pa + j * PAGE_SIZE
      requires Extends(ram0, tab0, free0, ram, tab1, Free(), root)
      requires MappedUpTo(ram0, tab0, ram, tab1, root, first, pa / PAGE_SIZE, flags, j)
      modifies this`ram, pm.Repr
      ensures Valid() && Extends(ram0, tab0, free0, ram, tab, Free(), root)
      ensures MappedUpTo(ram0, tab0, ram, tab, root, first, pa / PAGE_SIZE, flags, if r.Mapped? then j + 1 else j)
      ensures r.Failed? ==> Free() == {}
      ensures r.Overlap? ==> IsValid(Entry(ram, tab, VpnAt(first, j)))
    {
      ghost var ram1, free1 := ram, Free();
      PageArith(first, pa, j, current, pg);
      var e := Pte(pg / PAGE_SIZE, WithV(flags));
      r, tab := MapOne(root, current * PAGE_SIZE, e, tab1, VpnAt(first, j));
      MapTurn(ram0, tab0, free0, ram1, tab1, free1, ram, tab, Free(), root, first, pa / PAGE_SIZE, flags, j,
              e, r.Mapped?);
      assert r.Overlap? ==> Entry(ram, tab, VpnAt(first, j)) == Entry(ram1, tab1, VpnAt(first, j));
    }

    /** vm_mappages. `done` pages were mapped before it stopped; a panic on an overlap and a
        failure for want of table pages leave those in place. */
    method MapPages(root: nat, va: nat, pa: nat, siz: nat, flags: nat, ghost tab0: map<Label, nat>)
      returns (r: MapResult, ghost tab: map<Label, nat>, ghost done: nat)
      requires Valid() && Tree(ram, root, tab0) && tab0.Values !! Free()
      requires flags < 1024 && va + siz + PAGE_SIZE <= 0x1_0000_0000_0000_0000
      modifies this`ram, pm.Repr
      ensures Valid() && Extends(old(ram), tab0, old(Free()), ram, tab, Free(), root)
      ensures MappedUpTo(old(ram), tab0, ram, tab, root, va / PAGE_SIZE, pa / PAGE_SIZE, flags, done)
      ensures CarriedUpTo(ram, tab, root, va / PAGE_SIZE, pa / PAGE_SIZE, flags, done)
      ensures if r.Mapped? then siz > 0 && done == PageCount(va, siz) else siz > 0 ==> done < PageCount(va, siz)
      ensures r.Failed? ==> siz == 0 || Free() == {}
      ensures r.Overlap? ==> IsValid(Entry(ram, tab, VpnAt(va / PAGE_SIZE, done)))
    {
      if siz == 0 {
        return Failed, tab0, 0;
      }
      r, tab, done := MapRange(root, va / PAGE_SIZE, (va + siz + PAGE_SIZE - 1) / PAGE_SIZE, pa, flags, tab0);
      MappedCarries(old(ram), tab0, ram, tab, root, va / PAGE_SIZE, pa / PAGE_SIZE, flags, done);
    }

    /** Its loop over the virtual pages `from..bound`. */
    method MapRange(root: nat, from: nat, bound: nat, pa: nat, flags: nat, ghost tab0: map<Label, nat>)
      returns (r: MapResult, ghost tab: map<Label, nat>, ghost done: nat)
      requires Valid() && Tree(ram, root, tab0) && tab0.Values !! Free() && from <= bound && flags < 1024
      modifies this`ram, pm.Repr
      ensures Valid() && Extends(old(ram), tab0, old(Free()), ram, tab, Free(), root)
      ensures MappedUpTo(old(ram), tab0, ram, tab, root, from, pa / PAGE_SIZE, flags, done)
      ensures if r.Mapped? then done == bound - from else done < bound - from
      ensures r.Failed? ==> Free() == {}
      ensures r.Overlap? ==> IsValid(Entry(ram, tab, VpnAt(from, done)))
    {
      ghost var ram0, free0 := ram, Free();
      tab, done := tab0, 0;
      var pg := pa;
      for current := from to bound
        invariant done == current - from && pg == pa + done * PAGE_SIZE
        invariant Valid() && Extends(ram0, tab0, free0, ram, tab, Free(), root)
        invariant MappedUpTo(ram0, tab0, ram, tab, root, from, pa / PAGE_SIZE, flags, done)
      {
        r, tab := MapNext(root, current, pg, flags, ram0, tab0, free0, tab, from, pa, done);
        if !r.Mapped? {
          return r, tab, done;
        }
        pg, done := pg + PAGE_SIZE, done + 1;
      }
      r := Mapped;
    }

    /** The body of the loop of vm_unmappages, for virtual page `v`; false if it panics. */
    method UnmapOne(root: nat, va: nat, doFree: bool, ghost tab: map<Label, nat>, ghost v: nat) returns (ok: bool)
      requires Valid() && Tree(ram, root, tab) && tab.Values !! Free() && v == Vpn(va)
      requires var e := Entry(ram, tab, v);
               doFree && IsLeaf(e) ==> Managed(PtePpn(e)) && PtePpn(e) !in tab.Values
      modifies this`ram, pm.Repr
      ensures Valid() && tab.Values !! Free()
      ensures OneUnmapped(old(ram), old(Free()), ram, Free(), tab, root, v, doFree, ok)
    {
      PathEnd(va);
      var slot;
      ghost var tab';
      slot, tab' := Walk(root, va, false, tab);
      ok := false;
      if slot.Some? {
        var (t, i) := slot.value;
        ok := Release(t, i, doFree, root, tab, v);
      }
    }

    /** The rest of it, once the slot has been found. */
    method Release(t: nat, i: nat, doFree: bool, ghost root: nat, ghost tab: map<Label, nat>, ghost v: nat)
      returns (ok: bool)
      requires Valid() && Tree(ram, root, tab) && tab.Values !! Free()
      requires L(0, v / N_ENTRIES) in tab && t == tab[L(0, v / N_ENTRIES)] && i == v % N_ENTRIES
      requires var e := Entry(ram, tab, v);
               doFree && IsLeaf(e) ==> Managed(PtePpn(e)) && PtePpn(e) !in tab.Values
      modifies this`ram, pm.Repr
      ensures Valid() && tab.Values !! Free()
      ensures OneUnmapped(old(ram), old(Free()), ram, Free(), tab, root, v, doFree, ok)
    {
      assert IsTable(ram, t) && t in tab.Values;
      var e := ram[t][i];
      ok := IsLeaf(e);
      if ok && doFree {
        ok := FreePage(PtePpn(e));
      }
      if ok {
        SetLeaf(ram, root, tab, v, 0);
        Write(t, i, 0);
      }
    }

    /** Entry `i` of table `t` becomes `e`. */
    method Write(t: nat, i: nat, e: nat)
      requires Valid() && IsTable(ram, t) && i < N_ENTRIES
      modifies this`ram
      ensures Valid() && ram == Written(old(ram), t, i, e) && Free() == old(Free())
    {
      PagesAfterWrite(ram, t, i, e, pm.beginPpn, pm.beginPpn + pm.numPpn);
      ram := Written(ram, t, i, e);
    }

    /** One turn of the loop of vm_unmappages, after `j` pages. */
    method UnmapNext(root: nat, addr: nat, doFree: bool, ghost tab: map<Label, nat>, ghost ram0: Ram,
                     ghost free0: set<nat>, ghost va: nat, ghost first: nat, ghost j: nat, ghost count: nat)
      returns (ok: bool)
      requires Valid() && tab.Values !! Free() && addr == va + j * PAGE_SIZE && first == va / PAGE_SIZE && j < count
      requires Tree(ram0, root, tab) && (doFree ==> Owned(ram0, root, tab, first, count))
      requires UnmapState(ram0, free0, ram, Free(), tab, root, first, j, doFree)
      modifies this`ram, pm.Repr
      ensures Valid() && tab.Values !! Free()
      ensures UnmapState(ram0, free0, ram, Free(), tab, root, first, if ok then j + 1 else j, doFree)
      ensures !ok ==> Stuck(ram, Free(), tab, root, first, j, doFree)
    {
      ghost var ram1, free1 := ram, Free();
      VpnOfPage(va, j);
      OwnedNow(ram0, ram, tab, root, first, j, count, doFree);
      ok := UnmapOne(root, addr, doFree, tab, VpnAt(first, j));
      UnmapEither(ram0, free0, ram1, free1, ram, Free(), tab, root, first, j, doFree, ok);
    }

    /** vm_unmappages; false if it panics. `done` pages were unmapped before it stopped. The
        alignment it asks for is that of an entry index, not of a page. */
    method UnmapPages(root: nat, va: nat, count: nat, doFree: bool, ghost tab: map<Label, nat>)
      returns (ok: bool, ghost done: nat)
      requires Valid() && Tree(ram, root, tab) && tab.Values !! Free()
      requires doFree ==> Owned(ram, root, tab, va / PAGE_SIZE, count)
      modifies this`ram, pm.Repr
      ensures Valid() && tab.Values !! Free() && done <= count
      ensures UnmapState(old(ram), old(Free()), ram, Free(), tab, root, va / PAGE_SIZE, done, doFree)
      ensures ok <==> va % N_ENTRIES == 0 && done == count
      ensures va % N_ENTRIES == 0 && !ok ==> Stuck(ram, Free(), tab, root, va / PAGE_SIZE, done, doFree)
    {
      ghost var ram0, free0, first := ram, Free(), va / PAGE_SIZE;
      done := 0;
      if va % N_ENTRIES != 0 {
        return false, 0;
      }
      var addr := va;
      for i := 0 to count
        invariant addr == va + i * PAGE_SIZE && done == i
        invariant Valid() && tab.Values !! Free()
        invariant UnmapState(ram0, free0, ram, Free(), tab, root, first, done, doFree)
      {
        ok := UnmapNext(root, addr, doFree, tab, ram0, free0, va, first, done, count);
        if !ok {
          return false, done;
        }
        addr, done := addr + PAGE_SIZE, done + 1;
      }
      ok := true;
    }

    /** Every leaf in the range maps a managed page that is not a table. */
    ghost predicate Owned(ram: Ram, root: nat, tab: map<Label, nat>, first: nat, count: nat)
      requires Tree(ram, root, tab)
    {
      forall i: nat | i < count && IsLeaf(Entry(ram, tab, VpnAt(first, i))) ::
        Managed(Target(ram, tab, root, first, i)) && Target(ram, tab, root, first, i) !in tab.Values
    }

    lemma OwnedNow(ram0: Ram, ram1: Ram, tab: map<Label, nat>, root: nat, first: nat, j: nat, count: nat, doFree: bool)
      requires Tree(ram0, root, tab) && Tree(ram1, root, tab) && j < count
      requires doFree ==> Owned(ram0, root, tab, first, count)
      requires UnmappedUpTo(ram0, ram1, tab, root, first, j)
      ensures var e := Entry(ram1, tab, VpnAt(first, j));
              doFree && IsLeaf(e) ==> Managed(PtePpn(e)) && PtePpn(e) !in tab.Values
    {
      if doFree && IsLeaf(Entry(ram1, tab, VpnAt(first, j))) {
        assert !Hit(first, j, VpnAt(first, j));
        assert Managed(Target(ram0, tab, root, first, j));
      }
    }
  }
}
