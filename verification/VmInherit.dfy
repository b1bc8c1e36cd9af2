/** vm_mappages and then vm_uvmcpy of kernel/memory/vmem.c: what a page mapped in the parent becomes in the child. */
module VmInherit {
  import opened PageTable
  import opened Vm
  import opened VmFork
  import opened Addr

  /** The frames that are to be mapped are pages of memory that are neither free nor tables. */
  ghost predicate FramesApart(f: Fork, ppn: nat, n: nat) {
    forall i | ppn <= i < ppn + n :: SourceOk(f, i) && i !in f.tabP.Values
  }

  lemma ChildStays(f: Fork, ram: Ram, tabP: map<Label, nat>, free: set<nat>)
    requires Start(f) && Extends(f.ram0, f.tabP, f.free0, ram, tabP, free, f.rootP)
    ensures Tree(ram, f.rootC, f.tabC0) && tabP.Values !! f.tabC0.Values
    ensures forall v: nat :: Entry(ram, f.tabC0, v) == OldEntry(f, v)
  {
    forall l | l in f.tabC0 ensures f.tabC0[l] in ram && ram[f.tabC0[l]] == f.ram0[f.tabC0[l]] {
      assert IsTable(f.ram0, f.tabC0[l]) && f.tabC0[l] in f.tabC0.Values;
    }
    TreeFrame(f.ram0, ram, f.rootC, f.tabC0);
  }

  lemma SourceStays(f: Fork, ram: Ram, tabP: map<Label, nat>, free: set<nat>, p: nat)
    requires Start(f) && Extends(f.ram0, f.tabP, f.free0, ram, tabP, free, f.rootP) && SourceOk(f, p)
    ensures IsTable(ram, p) && p !in free
    ensures p !in f.tabP.Values ==> ram[p] == f.ram0[p]
  {
    if p in f.tabP.Values {
      var l :| l in f.tabP && f.tabP[l] == p;
      assert l in tabP && tabP[l] == p;
    }
  }

  /** After the mapping the copy may start. */
  lemma MappedStart(f: Fork, ram: Ram, tabP: map<Label, nat>, free: set<nat>, first: nat, ppn: nat, flags: nat, n: nat)
    requires Start(f) && Extends(f.ram0, f.tabP, f.free0, ram, tabP, free, f.rootP) && flags < 1024
    requires MappedUpTo(f.ram0, f.tabP, ram, tabP, f.rootP, first, ppn, flags, n) && FramesApart(f, ppn, n)
    ensures Start(Fork(ram, free, f.rootP, tabP, f.rootC, f.tabC0, f.overwrite))
  {
    var f' := Fork(ram, free, f.rootP, tabP, f.rootC, f.tabC0, f.overwrite);
    ChildStays(f, ram, tabP, free);
    forall v: nat | ToCopy(f', v) ensures SourceOk(f', PtePpn(ParentEntry(f', v))) {
      var i := EntryWhere(f.ram0, f.tabP, ram, tabP, f.rootP, first, ppn, flags, n, v);
      SourceOf(f, Entry(ram, tabP, v), ppn, n, v, i);
      SourceStays(f, ram, tabP, free, PtePpn(Entry(ram, tabP, v)));
    }
  }

  /** An entry is as it was before or leads to page `i` of the range, for some `i` below `n`. */
  lemma EntryWhere(ram0: Ram, tab0: map<Label, nat>, ram: Ram, tab: map<Label, nat>, root: nat, first: nat, ppn: nat,
                   flags: nat, n: nat, v: nat)
      returns (i: nat)
    requires Tree(ram0, root, tab0) && Tree(ram, root, tab) && flags < 1024
    requires MappedUpTo(ram0, tab0, ram, tab, root, first, ppn, flags, n)
    ensures if i < n then PtePpn(Entry(ram, tab, v)) == ppn + i else Entry(ram, tab, v) == Entry(ram0, tab0, v)
  {
    if Hit(first, n, v) {
      i :| i < n && VpnAt(first, i) == v;
      PteFacts(ppn + i, WithV(flags));
    } else {
      i := n;
    }
  }

  /** What the parent maps for copying was there before or is one of the frames. */
  lemma SourceOf(f: Fork, e: nat, ppn: nat, n: nat, v: nat, i: nat)
    requires Start(f) && FramesApart(f, ppn, n) && (if i < n then PtePpn(e) == ppn + i else e == ParentEntry(f, v))
    requires IsValid(e) && HasRX(e) && (f.overwrite || OldEntry(f, v) == 0)
    ensures SourceOk(f, PtePpn(e))
  {
    if i >= n {
      assert ToCopy(f, v);
    }
  }

  /** Page `v` of the child has its own copy of page `frame`, with V and exactly the given flags. */
  ghost predicate Inherited(f: Fork, ram: Ram, tab: map<Label, nat>, free: set<nat>, v: nat, frame: nat, flags: nat)
    requires Start(f) && Tree(ram, f.rootC, tab)
  {
    var c := Entry(ram, tab, v);
    && Carries(c, c / 1024, flags) && c / 1024 in f.free0 && c / 1024 !in free && c / 1024 !in tab.Values
    && c / 1024 in ram && frame in f.ram0 && ram[c / 1024] == f.ram0[frame]
  }

  /** All pages of a mapped range are inherited, except where the child has an entry to keep. */
  ghost predicate AllInherited(f: Fork, ram: Ram, tab: map<Label, nat>, free: set<nat>, first: nat, ppn: nat,
                               flags: nat, n: nat)
    requires Start(f) && Tree(ram, f.rootC, tab)
  {
    forall i: nat | i < n && (f.overwrite || OldEntry(f, VpnAt(first, i)) == 0) ::
      Inherited(f, ram, tab, free, VpnAt(first, i), ppn + i, flags)
  }

  /** The flags of the copy are those of the original, bit by bit. */
  lemma SameCarried(e: nat, c: nat, ppn: nat, flags: nat)
    requires flags < 1024 && Carries(e, ppn, flags) && c % 1024 == e % 1024
    ensures Carries(c, c / 1024, flags)
  {
    PteCarries(ppn, flags);
    SameEntry(e, Pte(ppn, WithV(flags)), ppn, flags);
    PteFacts(ppn, WithV(flags));
    PteCarries(c / 1024, flags);
    assert c == Pte(c / 1024, WithV(flags));
  }

  lemma InheritOne(f: Fork, ram1: Ram, tabP: map<Label, nat>, free1: set<nat>, first: nat, ppn: nat, flags: nat, n: nat,
                   ram: Ram, tab: map<Label, nat>, free: set<nat>, i: nat)
    requires Start(f) && Extends(f.ram0, f.tabP, f.free0, ram1, tabP, free1, f.rootP) && flags < 1024
    requires FramesApart(f, ppn, n) && CarriedUpTo(ram1, tabP, f.rootP, first, ppn, flags, n)
    requires (flags / 2) % 2 == 1 || (flags / 8) % 2 == 1
    requires Isolated(Fork(ram1, free1, f.rootP, tabP, f.rootC, f.tabC0, f.overwrite), ram, tab, free)
    requires i < n && (f.overwrite || OldEntry(f, VpnAt(first, i)) == 0)
    ensures Inherited(f, ram, tab, free, VpnAt(first, i), ppn + i, flags)
  {
    var f', v := Fork(ram1, free1, f.rootP, tabP, f.rootC, f.tabC0, f.overwrite), VpnAt(first, i);
    ChildStays(f, ram1, tabP, free1);
    assert Carries(ParentEntry(f', v), ppn + i, flags);
    PermittedCopied(f', ram, tab, free, v);
    SourceStays(f, ram1, tabP, free1, ppn + i);
    SameCarried(ParentEntry(f', v), Entry(ram, tab, v), ppn + i, flags);
  }

  lemma Inherit(f: Fork, ram1: Ram, tabP: map<Label, nat>, free1: set<nat>, first: nat, ppn: nat, flags: nat, n: nat,
                ram: Ram, tab: map<Label, nat>, free: set<nat>)
    requires Start(f) && Extends(f.ram0, f.tabP, f.free0, ram1, tabP, free1, f.rootP) && flags < 1024
    requires FramesApart(f, ppn, n) && CarriedUpTo(ram1, tabP, f.rootP, first, ppn, flags, n)
    requires (flags / 2) % 2 == 1 || (flags / 8) % 2 == 1
    requires Isolated(Fork(ram1, free1, f.rootP, tabP, f.rootC, f.tabC0, f.overwrite), ram, tab, free)
    ensures AllInherited(f, ram, tab, free, first, ppn, flags, n)
  {
    forall i: nat | i < n && (f.overwrite || OldEntry(f, VpnAt(first, i)) == 0)
      ensures Inherited(f, ram, tab, free, VpnAt(first, i), ppn + i, flags)
    {
      InheritOne(f, ram1, tabP, free1, first, ppn, flags, n, ram, tab, free, i);
    }
  }

  /** A range mapped with R (2) or X (8) and inherited: every page of it has in the child a copy of its own, with
      the contents of its frame and exactly the flags it was mapped with. */
  method MapThenCopy(m: Machine, rootP: nat, rootC: nat, va: nat, pa: nat, siz: nat, flags: nat, overwrite: bool,
                     ghost tabP0: map<Label, nat>, ghost tabC: map<Label, nat>)
    returns (r: MapResult, ok: bool, ghost tab: map<Label, nat>)
    requires m.Valid() && Start(Fork(m.ram, m.Free(), rootP, tabP0, rootC, tabC, overwrite))
    requires flags < 1024 && va + siz + PAGE_SIZE <= 0x1_0000_0000_0000_0000
    requires FramesApart(Fork(m.ram, m.Free(), rootP, tabP0, rootC, tabC, overwrite), pa / PAGE_SIZE,
                         PageCount(va, siz))
    modifies m`ram, m.pm.Repr
    ensures m.Valid() && (ok ==> r.Mapped? && Tree(m.ram, rootC, tab))
    ensures !ok ==> siz == 0 || r.Overlap? || m.Free() == {}
    ensures ok && ((flags / 2) % 2 == 1 || (flags / 8) % 2 == 1) ==>
              AllInherited(Fork(old(m.ram), old(m.Free()), rootP, tabP0, rootC, tabC, overwrite), m.ram, tab, m.Free(),
                           va / PAGE_SIZE, pa / PAGE_SIZE, flags, PageCount(va, siz))
  {
    ghost var f := Fork(m.ram, m.Free(), rootP, tabP0, rootC, tabC, overwrite);
    ghost var tabP, done;
    r, tabP, done := m.MapPages(rootP, va, pa, siz, flags, tabP0);
    ok, tab := false, tabC;
    if r.Mapped? {
      ghost var ram1, free1 := m.ram, m.Free();
      MappedStart(f, ram1, tabP, free1, va / PAGE_SIZE, pa / PAGE_SIZE, flags, done);
      ok, tab := CopySpace(m, rootP, rootC, overwrite, tabP, tabC);
      if ok && ((flags / 2) % 2 == 1 || (flags / 8) % 2 == 1) {
        Inherit(f, ram1, tabP, free1, va / PAGE_SIZE, pa / PAGE_SIZE, flags, done, m.ram, tab, m.Free());
      }
    }
  }

  /** The pages of a user stack, mapped with R, W and U: the entry of the child ends in V, R, W and U. */
  lemma StackInherited(f: Fork, ram: Ram, tab: map<Label, nat>, free: set<nat>, first: nat, ppn: nat, n: nat, i: nat)
    requires Start(f) && Tree(ram, f.rootC, tab) && AllInherited(f, ram, tab, free, first, ppn, 2 + 4 + 16, n)
    requires i < n && (f.overwrite || OldEntry(f, VpnAt(first, i)) == 0)
    ensures Entry(ram, tab, VpnAt(first, i)) % 1024 == 1 + 2 + 4 + 16
    ensures Entry(ram, tab, VpnAt(first, i)) / 1024 in ram && ppn + i in f.ram0
    ensures ram[Entry(ram, tab, VpnAt(first, i)) / 1024] == f.ram0[ppn + i]
  {
    var c := Entry(ram, tab, VpnAt(first, i));
    assert Inherited(f, ram, tab, free, VpnAt(first, i), ppn + i, 22);
    CarriesIs(c, c / 1024, 22);
  }
}
