/** Mapping a range and unmapping it again, vm_mappages followed by vm_unmappages. */
module VmRestore {
  import opened Addr
  import opened Arith
  import opened PageTable
  import opened Vm

  /** The physical pages of a range of `n` pages that begins at page `ppn`. */
  function Frames(ppn: nat, n: nat): seq<nat> {
    seq(n, i requires 0 <= i => ppn + i)
  }

  /** An entry that vm_mappages writes is one that vm_unmappages accepts exactly if the flags name
      more than the valid bit. */
  lemma LeafFlags(ppn: nat, flags: nat)
    requires flags < 1024
    ensures IsValid(Pte(ppn, WithV(flags))) && PtePpn(Pte(ppn, WithV(flags))) == ppn
    ensures IsLeaf(Pte(ppn, WithV(flags))) <==> WithV(flags) != FLAG_V
  {
    PteFacts(ppn, WithV(flags));
  }

  /** A range mapped with flags 0 cannot be unmapped: not even its first page. */
  lemma FlagsZero(ram0: Ram, tab0: map<Label, nat>, ram: Ram, tab: map<Label, nat>, root: nat, first: nat, ppn: nat,
                  n: nat, ram': Ram)
    requires Tree(ram0, root, tab0) && Tree(ram, root, tab) && Tree(ram', root, tab)
    requires n > 0 && MappedUpTo(ram0, tab0, ram, tab, root, first, ppn, 0, n)
    ensures IsValid(Entry(ram, tab, VpnAt(first, 0))) && !IsLeaf(Entry(ram, tab, VpnAt(first, 0)))
    ensures !UnmappedUpTo(ram, ram', tab, root, first, n)
  {
    LeafFlags(ppn, 0);
    assert Entry(ram, tab, VpnAt(first, 0)) == Pte(ppn + 0, WithV(0));
  }

  /** The pages of a mapped range are different virtual pages. */
  lemma NoHit(ram0: Ram, tab0: map<Label, nat>, ram: Ram, tab: map<Label, nat>, root: nat, first: nat, ppn: nat,
              flags: nat, n: nat, j: nat)
    requires Tree(ram0, root, tab0) && Tree(ram, root, tab) && flags < 1024
    requires MappedUpTo(ram0, tab0, ram, tab, root, first, ppn, flags, n) && j < n
    ensures !Hit(first, j, VpnAt(first, j))
  {
    PteFacts(ppn + j, WithV(flags));
    forall i: nat | i < j ensures VpnAt(first, i) != VpnAt(first, j) {
      PteFacts(ppn + i, WithV(flags));
    }
  }

  /** Page `j` of the range, before it is unmapped. */
  lemma StillMapped(ram0: Ram, tab0: map<Label, nat>, ram1: Ram, ram2: Ram, tab: map<Label, nat>, root: nat,
                    first: nat, ppn: nat, flags: nat, n: nat, j: nat)
    requires Tree(ram0, root, tab0) && Tree(ram1, root, tab) && Tree(ram2, root, tab) && flags < 1024 && j < n
    requires MappedUpTo(ram0, tab0, ram1, tab, root, first, ppn, flags, n)
    requires UnmappedUpTo(ram1, ram2, tab, root, first, j)
    ensures Entry(ram2, tab, VpnAt(first, j)) == Pte(ppn + j, WithV(flags))
  {
    NoHit(ram0, tab0, ram1, tab, root, first, ppn, flags, n, j);
  }

  lemma TargetsAre(ram0: Ram, tab0: map<Label, nat>, ram: Ram, tab: map<Label, nat>, root: nat, first: nat, ppn: nat,
                   flags: nat, n: nat, j: nat)
    requires Tree(ram0, root, tab0) && Tree(ram, root, tab) && flags < 1024 && j <= n
    requires MappedUpTo(ram0, tab0, ram, tab, root, first, ppn, flags, n)
    ensures Targets(ram, tab, root, first, j) == Frames(ppn, j)
  {
    forall i | 0 <= i < j ensures Targets(ram, tab, root, first, j)[i] == ppn + i {
      PteFacts(ppn + i, WithV(flags));
    }
  }

  /** When vm_unmappages stops on a range mapped just before, the flags are to blame. */
  lemma WhyStuck(ram0: Ram, tab0: map<Label, nat>, free0: set<nat>, ram1: Ram, free1: set<nat>, ram2: Ram,
                 free2: set<nat>,
                 tab: map<Label, nat>, root: nat, first: nat, ppn: nat, flags: nat, n: nat, j: nat, doFree: bool)
    requires Tree(ram0, root, tab0) && Tree(ram1, root, tab) && flags < 1024 && j < n && free1 <= free0
    requires MappedUpTo(ram0, tab0, ram1, tab, root, first, ppn, flags, n)
    requires UnmapState(ram1, free1, ram2, free2, tab, root, first, j, doFree)
    requires Stuck(ram2, free2, tab, root, first, j, doFree)
    requires doFree ==> forall i | ppn <= i < ppn + n :: i !in free0
    ensures WithV(flags) == FLAG_V
  {
    StillMapped(ram0, tab0, ram1, ram2, tab, root, first, ppn, flags, n, j);
    if doFree {
      TargetsAre(ram0, tab0, ram1, tab, root, first, ppn, flags, n, j);
      NotFreed(ppn, n, j, free0, free1, free2);
    }
    NoLeaf(Entry(ram2, tab, VpnAt(first, j)), ppn + j, flags, free2, doFree);
  }

  lemma NoLeaf(e: nat, ppn: nat, flags: nat, free: set<nat>, doFree: bool)
    requires flags < 1024 && e == Pte(ppn, WithV(flags)) && (doFree ==> ppn !in free)
    requires !IsLeaf(e) || (doFree && PtePpn(e) in free)
    ensures WithV(flags) == FLAG_V
  {
    LeafFlags(ppn, flags);
  }

  lemma NotFreed(ppn: nat, n: nat, j: nat, free0: set<nat>, free1: set<nat>, free2: set<nat>)
    requires j < n && free1 <= free0 && ReturnedOnce(Frames(ppn, j), free1, free2)
    requires forall i | ppn <= i < ppn + n :: i !in free0
    ensures ppn + j !in free2
  {
  }

  /** What a range mapped and unmapped leaves behind: the old map and, if they were to be freed,
      every physical page of the range given back once. */
  ghost predicate Undone(ram0: Ram, tab0: map<Label, nat>, ram: Ram, tab: map<Label, nat>, root: nat) {
    Tree(ram0, root, tab0) && Tree(ram, root, tab) && forall v: nat :: Lookup(ram, tab, v) == Lookup(ram0, tab0, v)
  }

  lemma IsUndone(ram0: Ram, tab0: map<Label, nat>, ram1: Ram, ram2: Ram, tab: map<Label, nat>, root: nat, first: nat,
                 ppn: nat, flags: nat, n: nat)
    requires Tree(ram0, root, tab0) && Tree(ram1, root, tab) && Tree(ram2, root, tab) && flags < 1024
    requires MappedUpTo(ram0, tab0, ram1, tab, root, first, ppn, flags, n)
    requires UnmappedUpTo(ram1, ram2, tab, root, first, n)
    ensures Undone(ram0, tab0, ram2, tab, root)
  {
    forall v: nat ensures Lookup(ram2, tab, v) == Lookup(ram0, tab0, v) {
      Restored(ram0, tab0, ram1, ram2, tab, root, first, ppn, flags, n, v);
    }
  }

  /** The flags decide: with no more than the valid bit the first page is not unmapped. */
  lemma BareFlags(ram0: Ram, tab0: map<Label, nat>, ram1: Ram, ram2: Ram, tab: map<Label, nat>, root: nat, first: nat,
                  ppn: nat, flags: nat, n: nat)
    requires Tree(ram0, root, tab0) && Tree(ram1, root, tab) && Tree(ram2, root, tab) && flags < 1024 && n > 0
    requires MappedUpTo(ram0, tab0, ram1, tab, root, first, ppn, flags, n)
    requires UnmappedUpTo(ram1, ram2, tab, root, first, n)
    ensures WithV(flags) != FLAG_V
  {
    LeafFlags(ppn, flags);
    assert Entry(ram1, tab, VpnAt(first, 0)) == Pte(ppn + 0, WithV(flags));
  }

  lemma FramesOwned(m: Machine, ram0: Ram, tab0: map<Label, nat>, free0: set<nat>, ram: Ram, tab: map<Label, nat>,
                    free: set<nat>, root: nat,
                    first: nat, ppn: nat, flags: nat, n: nat)
    requires flags < 1024 && Extends(ram0, tab0, free0, ram, tab, free, root)
    requires MappedUpTo(ram0, tab0, ram, tab, root, first, ppn, flags, n)
    requires forall i | ppn <= i < ppn + n :: m.Managed(i) && i !in tab0.Values && i !in free0
    ensures m.Owned(ram, root, tab, first, n)
  {
    forall i: nat | i < n ensures Target(ram, tab, root, first, i) == ppn + i {
      PteFacts(ppn + i, WithV(flags));
    }
  }

  /** vm_mappages, then vm_unmappages on the same range. A mapped range is unmapped without a panic
      exactly if the address is aligned as vm_unmappages asks and the flags name more than the valid
      bit; then the map is the old one, and with `doFree` each page of the range has been returned
      to the page manager once. */
  method MapThenUnmap(m: Machine, root: nat, va: nat, pa: nat, siz: nat, flags: nat, doFree: bool,
                      ghost tab0: map<Label, nat>)
    returns (r: MapResult, ok: bool, ghost tab: map<Label, nat>, ghost mid: set<nat>)
    requires m.Valid() && Tree(m.ram, root, tab0) && tab0.Values !! m.Free()
    requires flags < 1024 && va + siz + PAGE_SIZE <= 0x1_0000_0000_0000_0000
    requires doFree ==> forall i | pa / PAGE_SIZE <= i < pa / PAGE_SIZE + PageCount(va, siz) ::
                          m.Managed(i) && i !in tab0.Values && i !in m.Free()
    modifies m`ram, m.pm.Repr
    ensures m.Valid() && tab.Values !! m.Free()
    ensures r.Mapped? ==> (ok <==> va % N_ENTRIES == 0 && flags > 1)
    ensures ok ==> r.Mapped? && Undone(old(m.ram), tab0, m.ram, tab, root)
    ensures ok ==> mid <= old(m.Free()) && tab.Values == tab0.Values + (old(m.Free()) - mid)
    ensures ok ==>
              if doFree then ReturnedOnce(Frames(pa / PAGE_SIZE, PageCount(va, siz)), mid, m.Free())
              else m.Free() == mid
  {
    ghost var ram0, free0, first, ppn := m.ram, m.Free(), va / PAGE_SIZE, pa / PAGE_SIZE;
    ghost var done;
    r, tab, done := m.MapPages(root, va, pa, siz, flags, tab0);
    mid, ok := m.Free(), false;
    if r.Mapped? {
      var n := PageCount(va, siz);
      ghost var ram1 := m.ram;
      if doFree {
        FramesOwned(m, ram0, tab0, free0, ram1, tab, mid, root, first, ppn, flags, n);
      }
      ok, done := m.UnmapPages(root, va, n, doFree, tab);
      Outcome(ram0, tab0, free0, ram1, mid, m.ram, m.Free(), tab, root, va, ppn, flags, n, done, doFree, ok);
    }
  }

  lemma Outcome(ram0: Ram, tab0: map<Label, nat>, free0: set<nat>, ram1: Ram, free1: set<nat>, ram2: Ram,
                free2: set<nat>,
                tab: map<Label, nat>, root: nat, va: nat, ppn: nat, flags: nat, n: nat, done: nat, doFree: bool,
                ok: bool)
    requires Tree(ram0, root, tab0) && Tree(ram1, root, tab) && flags < 1024 && free1 <= free0 && done <= n && n > 0
    requires MappedUpTo(ram0, tab0, ram1, tab, root, va / PAGE_SIZE, ppn, flags, n)
    requires UnmapState(ram1, free1, ram2, free2, tab, root, va / PAGE_SIZE, done, doFree)
    requires ok <==> va % N_ENTRIES == 0 && done == n
    requires va % N_ENTRIES == 0 && !ok ==> Stuck(ram2, free2, tab, root, va / PAGE_SIZE, done, doFree)
    requires doFree ==> forall i | ppn <= i < ppn + n :: i !in free0
    ensures ok <==> va % N_ENTRIES == 0 && flags > 1
    ensures ok ==> Undone(ram0, tab0, ram2, tab, root)
    ensures ok ==> if doFree then ReturnedOnce(Frames(ppn, n), free1, free2) else free2 == free1
  {
    var first := va / PAGE_SIZE;
    if ok {
      BareFlags(ram0, tab0, ram1, ram2, tab, root, first, ppn, flags, n);
      IsUndone(ram0, tab0, ram1, ram2, tab, root, first, ppn, flags, n);
      if doFree {
        TargetsAre(ram0, tab0, ram1, tab, root, first, ppn, flags, n, n);
      }
    } else if va % N_ENTRIES == 0 {
      WhyStuck(ram0, tab0, free0, ram1, free1, ram2, free2, tab, root, first, ppn, flags, n, done, doFree);
    }
  }
}
