/** vm_reap_pagetable of kernel/memory/vmem.c: giving the tables of a tree back. */
module VmReap {
  import opened PageTable
  import opened Vm

  /** The ancestor of a label at level `lv`. */
  ghost function Up(k: Label, lv: nat): Label
    decreases lv - k.lv
  {
    if k.lv >= lv then k else Up(L(k.lv + 1, k.pre / N_ENTRIES), lv)
  }

  ghost predicate Under(k: Label, l: Label) {
    k.lv <= l.lv && Up(k, l.lv) == l
  }

  /** Below `l`, and reached through one of its first `i` entries. */
  ghost predicate Below(k: Label, l: Label, i: nat) {
    k.lv < l.lv && Up(k, l.lv) == l && Up(k, l.lv - 1).pre % N_ENTRIES < i
  }

  ghost function TablesUnder(tab: map<Label, nat>, l: Label): set<nat> {
    set k | k in tab && Under(k, l) :: tab[k]
  }

  ghost function TablesBelow(tab: map<Label, nat>, l: Label, i: nat): set<nat> {
    set k | k in tab && Below(k, l, i) :: tab[k]
  }

  lemma {:induction false} UpStep(k: Label, lv: nat)
    requires k.lv < lv
    ensures Up(k, lv - 1).lv == lv - 1
    ensures Up(k, lv) == L(lv, Up(k, lv - 1).pre / N_ENTRIES)
    decreases lv - k.lv
  {
    if k.lv < lv - 1 {
      UpStep(L(k.lv + 1, k.pre / N_ENTRIES), lv);
    }
  }

  lemma {:induction false} UpInTab(root: nat, tab: map<Label, nat>, k: Label, lv: nat)
    requires Shape(root, tab) && k in tab && k.lv <= lv < N_VPN
    ensures Up(k, lv) in tab
    decreases lv - k.lv
  {
    if k.lv < lv {
      UpInTab(root, tab, L(k.lv + 1, k.pre / N_ENTRIES), lv);
    }
  }

  lemma UnderChild(k: Label, l: Label, i: nat)
    requires l.lv > 0 && i < N_ENTRIES
    ensures Under(k, Child(l, i)) <==> Below(k, l, i + 1) && !Below(k, l, i)
  {
    if k.lv < l.lv {
      UpStep(k, l.lv);
      var q := Up(k, l.lv - 1).pre;
      assert (l.pre * N_ENTRIES + i) / N_ENTRIES == l.pre && (l.pre * N_ENTRIES + i) % N_ENTRIES == i;
      assert q == (q / N_ENTRIES) * N_ENTRIES + q % N_ENTRIES;
    }
  }

  lemma BelowStep(root: nat, tab: map<Label, nat>, l: Label, i: nat)
    requires Shape(root, tab) && l in tab && l.lv > 0 && i < N_ENTRIES
    ensures TablesBelow(tab, l, i + 1) == TablesBelow(tab, l, i) + TablesUnder(tab, Child(l, i))
    ensures TablesBelow(tab, l, i) !! TablesUnder(tab, Child(l, i))
    ensures Child(l, i) !in tab ==> TablesUnder(tab, Child(l, i)) == {} && forall k | k in tab :: !Under(k, Child(l, i))
  {
    forall k | k in tab
      ensures Below(k, l, i + 1) <==> Below(k, l, i) || Under(k, Child(l, i))
      ensures !(Below(k, l, i) && Under(k, Child(l, i)))
      ensures Under(k, Child(l, i)) ==> Child(l, i) in tab
    {
      UnderChild(k, l, i);
      if Under(k, Child(l, i)) {
        UpInTab(root, tab, k, l.lv - 1);
      }
    }
  }

  lemma BelowAll(root: nat, tab: map<Label, nat>, l: Label)
    requires Shape(root, tab) && l in tab
    ensures TablesUnder(tab, l) == TablesBelow(tab, l, N_ENTRIES) + {tab[l]}
    ensures tab[l] !in TablesBelow(tab, l, N_ENTRIES)
    ensures TablesBelow(tab, l, 0) == {}
  {
    assert Under(l, l);
    forall k | k in tab ensures Under(k, l) <==> k == l || Below(k, l, N_ENTRIES) {
    }
  }

  ghost predicate NoLeaves(page: Page, i: nat) {
    forall j | 0 <= j < i && j < |page| :: !IsValid(page[j])
  }

  /** The part of the tree under `l` is as it should be; last-level entries carry permissions. */
  ghost predicate SubTree(ram: Ram, tab: map<Label, nat>, l: Label) {
    forall k | k in tab && Under(k, l) :: TableOk(ram, tab, k)
  }

  ghost predicate TableOk(ram: Ram, tab: map<Label, nat>, k: Label)
    requires k in tab
  {
    && IsTable(ram, tab[k])
    && forall i | 0 <= i < N_ENTRIES ::
         if k.lv > 0 then EntryOk(ram[tab[k]][i], k, i, tab)
         else IsValid(ram[tab[k]][i]) ==> HasRWX(ram[tab[k]][i])
  }

  /** No page is mapped under `l`. */
  ghost predicate LeafFree(ram: Ram, tab: map<Label, nat>, l: Label)
    requires SubTree(ram, tab, l)
  {
    forall k | k in tab && Under(k, l) && k.lv == 0 :: NoLeaves(ram[tab[k]], N_ENTRIES)
  }

  /** ... or through the first `i` entries of `l`. */
  ghost predicate LeafFreeBelow(ram: Ram, tab: map<Label, nat>, l: Label, i: nat)
    requires SubTree(ram, tab, l) && l in tab
  {
    && (forall k | k in tab && Below(k, l, i) && k.lv == 0 :: Under(k, l) && NoLeaves(ram[tab[k]], N_ENTRIES))
    && (l.lv == 0 ==> Under(l, l) && NoLeaves(ram[tab[l]], i))
  }

  lemma SubTreeFrame(ram: Ram, ram': Ram, tab: map<Label, nat>, l: Label, s: set<nat>)
    requires SubTree(ram, tab, l) && SameOutside(ram, ram', s) && s !! TablesUnder(tab, l)
    ensures SubTree(ram', tab, l)
    ensures LeafFree(ram', tab, l) <==> LeafFree(ram, tab, l)
  {
    forall k | k in tab && Under(k, l) ensures TableOk(ram', tab, k) && ram'[tab[k]] == ram[tab[k]] {
      assert TableOk(ram, tab, k);
      assert tab[k] in TablesUnder(tab, l);
    }
  }

  lemma SubTreeChild(root: nat, ram: Ram, tab: map<Label, nat>, l: Label, i: nat)
    requires Shape(root, tab) && SubTree(ram, tab, l) && l in tab && l.lv > 0 && i < N_ENTRIES
    ensures SubTree(ram, tab, Child(l, i))
    ensures LeafFreeBelow(ram, tab, l, i + 1) <==> LeafFreeBelow(ram, tab, l, i) && LeafFree(ram, tab, Child(l, i))
  {
    forall k | k in tab && Below(k, l, i + 1) ensures Under(k, l) {}
    forall k | k in tab ensures Below(k, l, i + 1) <==> Below(k, l, i) || Under(k, Child(l, i)) {
      UnderChild(k, l, i);
    }
  }

  lemma LeafFreeAll(ram: Ram, tab: map<Label, nat>, l: Label)
    requires SubTree(ram, tab, l) && l in tab
    ensures LeafFreeBelow(ram, tab, l, 0)
    ensures LeafFreeBelow(ram, tab, l, N_ENTRIES) <==> LeafFree(ram, tab, l)
  {
    assert Under(l, l);
    forall k | k in tab ensures Under(k, l) <==> k == l || Below(k, l, N_ENTRIES) {}
    assert l.lv == 0 ==> forall k | k in tab && Under(k, l) :: k == l;
  }

  /** After the first `i` entries of the table `l`: what was reached through them is free, and
      no memory but those tables and this one has been written. */
  ghost predicate ReapState(ram0: Ram, free0: set<nat>, ram: Ram, free: set<nat>, tab: map<Label, nat>, l: Label,
                          i: nat)
    requires l in tab && SubTree(ram0, tab, l)
  {
    && SameOutside(ram0, ram, TablesBelow(tab, l, i) + {tab[l]})
    && Under(l, l) && TableOk(ram0, tab, l) && IsTable(ram, tab[l])
    && (forall j | i <= j < N_ENTRIES :: ram[tab[l]][j] == ram0[tab[l]][j])
    && free == free0 + TablesBelow(tab, l, i)
    && LeafFreeBelow(ram0, tab, l, i)
  }

  ghost predicate Setup(root: nat, tab: map<Label, nat>, l: Label, ram: Ram, free: set<nat>) {
    Shape(root, tab) && l in tab && SubTree(ram, tab, l) && TablesUnder(tab, l) !! free
  }

  lemma ReapBegin(root: nat, tab: map<Label, nat>, l: Label, ram: Ram, free: set<nat>)
    requires Setup(root, tab, l, ram, free)
    ensures ReapState(ram, free, ram, free, tab, l, 0)
  {
    BelowAll(root, tab, l);
    LeafFreeAll(ram, tab, l);
  }

  /** An entry that leads to a table: the table may be reaped in its turn. */
  lemma ReapChild(root: nat, tab: map<Label, nat>, l: Label, ram0: Ram, free0: set<nat>, ram: Ram, free: set<nat>,
                  i: nat)
    requires Setup(root, tab, l, ram0, free0) && ReapState(ram0, free0, ram, free, tab, l, i)
    requires l.lv > 0 && i < N_ENTRIES && Child(l, i) in tab
    ensures ram[tab[l]][i] == Pte(tab[Child(l, i)], FLAG_V)
    ensures Setup(root, tab, Child(l, i), ram, free)
    ensures LeafFree(ram, tab, Child(l, i)) <==> LeafFreeBelow(ram0, tab, l, i + 1)
    ensures TablesUnder(tab, Child(l, i)) !! TablesBelow(tab, l, i) + {tab[l]}
  {
    BelowStep(root, tab, l, i);
    BelowAll(root, tab, l);
    assert TablesBelow(tab, l, i + 1) <= TablesBelow(tab, l, N_ENTRIES);
    SubTreeChild(root, ram0, tab, l, i);
    SubTreeFrame(ram0, ram, tab, Child(l, i), TablesBelow(tab, l, i) + {tab[l]});
    assert EntryOk(ram0[tab[l]][i], l, i, tab);
  }

  lemma ReapAfterChild(root: nat, tab: map<Label, nat>, l: Label, ram0: Ram, free0: set<nat>, ram1: Ram,
                       free1: set<nat>, ram2: Ram, free2: set<nat>, i: nat)
    requires Setup(root, tab, l, ram0, free0) && ReapState(ram0, free0, ram1, free1, tab, l, i)
    requires l.lv > 0 && i < N_ENTRIES && LeafFreeBelow(ram0, tab, l, i + 1)
    requires SameOutside(ram1, ram2, TablesUnder(tab, Child(l, i))) && free2 == free1 + TablesUnder(tab, Child(l, i))
    requires tab[l] !in TablesUnder(tab, Child(l, i))
    ensures IsTable(ram2, tab[l])
    ensures ReapState(ram0, free0, Written(ram2, tab[l], i, 0), free2, tab, l, i + 1)
  {
    BelowStep(root, tab, l, i);
    assert ram2[tab[l]] == ram1[tab[l]];
    var ram3 := Written(ram2, tab[l], i, 0);
    SameOutsideChain(ram0, ram1, ram2, TablesBelow(tab, l, i) + {tab[l]}, TablesUnder(tab, Child(l, i)),
                     TablesBelow(tab, l, i + 1) + {tab[l]});
  }

  lemma SameOutsideChain(ram0: Ram, ram1: Ram, ram2: Ram, s: set<nat>, s': set<nat>, all: set<nat>)
    requires SameOutside(ram0, ram1, s) && SameOutside(ram1, ram2, s') && s + s' <= all
    ensures SameOutside(ram0, ram2, all)
  {
  }

  /** An entry that is not valid leads nowhere. */
  lemma ReapSkip(root: nat, tab: map<Label, nat>, l: Label, ram0: Ram, free0: set<nat>, ram: Ram, free: set<nat>,
                 i: nat)
    requires Setup(root, tab, l, ram0, free0) && ReapState(ram0, free0, ram, free, tab, l, i)
    requires i < N_ENTRIES && !IsValid(ram[tab[l]][i])
    ensures ReapState(ram0, free0, ram, free, tab, l, i + 1)
  {
    if l.lv > 0 {
      assert EntryOk(ram0[tab[l]][i], l, i, tab);
      if Child(l, i) in tab {
        PteFacts(tab[Child(l, i)], FLAG_V);
        assert false;
      }
      BelowStep(root, tab, l, i);
      SubTreeChild(root, ram0, tab, l, i);
    } else {
      assert TablesBelow(tab, l, i + 1) == TablesBelow(tab, l, i) == {};
    }
  }

  lemma ReapEnd(root: nat, tab: map<Label, nat>, l: Label, ram0: Ram, free0: set<nat>, ram: Ram, free: set<nat>)
    requires Setup(root, tab, l, ram0, free0) && ReapState(ram0, free0, ram, free, tab, l, N_ENTRIES)
    ensures LeafFree(ram0, tab, l) && tab[l] !in free
    ensures free + {tab[l]} == free0 + TablesUnder(tab, l)
    ensures SameOutside(ram0, ram, TablesUnder(tab, l))
  {
    BelowAll(root, tab, l);
    LeafFreeAll(ram0, tab, l);
    assert tab[l] in TablesUnder(tab, l);
  }

  /** A valid entry leads to a table, or it is a leaf of the last level. */
  lemma ReapValid(root: nat, tab: map<Label, nat>, l: Label, ram0: Ram, free0: set<nat>, ram: Ram, free: set<nat>,
                  i: nat)
    requires Setup(root, tab, l, ram0, free0) && ReapState(ram0, free0, ram, free, tab, l, i)
    requires i < N_ENTRIES && IsValid(ram[tab[l]][i])
    ensures l.lv > 0 <==> !HasRWX(ram[tab[l]][i])
    ensures l.lv > 0 ==> Child(l, i) in tab
    ensures l.lv == 0 ==> !LeafFree(ram0, tab, l)
  {
    if l.lv > 0 {
      assert EntryOk(ram0[tab[l]][i], l, i, tab);
      TableEntry(tab[Child(l, i)]);
    } else {
      assert !NoLeaves(ram0[tab[l]], N_ENTRIES);
    }
  }

  lemma TableEntry(ppn: nat)
    ensures !HasRWX(Pte(ppn, FLAG_V))
  {
    PtePermissions(ppn, FLAG_V);
  }

  lemma ReapPartial(root: nat, tab: map<Label, nat>, l: Label, ram0: Ram, ram: Ram, ram': Ram, i: nat)
    requires Shape(root, tab) && l in tab && i <= N_ENTRIES
    requires SameOutside(ram0, ram, TablesBelow(tab, l, i) + {tab[l]})
    requires ram' == ram || (l.lv > 0 && i < N_ENTRIES && SameOutside(ram, ram', TablesUnder(tab, Child(l, i))))
    ensures SameOutside(ram0, ram', TablesUnder(tab, l))
  {
    BelowAll(root, tab, l);
    assert TablesBelow(tab, l, i) <= TablesBelow(tab, l, N_ENTRIES);
    if ram' != ram {
      BelowStep(root, tab, l, i);
      assert TablesBelow(tab, l, i + 1) <= TablesBelow(tab, l, N_ENTRIES);
    }
  }

  lemma LeafBelow(root: nat, tab: map<Label, nat>, l: Label, ram: Ram, i: nat)
    requires Shape(root, tab) && l in tab && SubTree(ram, tab, l) && i <= N_ENTRIES && !LeafFreeBelow(ram, tab, l, i)
    ensures !LeafFree(ram, tab, l)
  {
    LeafFreeAll(ram, tab, l);
  }

  /** Started at the root, the reaped tables are all tables of the tree. */
  lemma WholeTree(ram: Ram, root: nat, tab: map<Label, nat>, free: set<nat>)
    requires Tree(ram, root, tab) && tab.Values !! free
    requires forall v: nat | IsValid(Entry(ram, tab, v)) :: HasRWX(Entry(ram, tab, v))
    ensures TablesUnder(tab, Root) == tab.Values && Setup(root, tab, Root, ram, free)
    ensures LeafFree(ram, tab, Root) <==> forall v: nat :: Lookup(ram, tab, v) == Unmapped
  {
    forall k | k in tab ensures Under(k, Root) && TableOk(ram, tab, k) {
      UpInTab(root, tab, k, N_VPN - 1);
      UpLevel(k, N_VPN - 1);
      LeafEntries(ram, root, tab, k);
    }
    if forall v: nat :: Lookup(ram, tab, v) == Unmapped {
      forall k | k in tab && k.lv == 0 ensures NoLeaves(ram[tab[k]], N_ENTRIES) {
        forall i | 0 <= i < N_ENTRIES ensures !IsValid(ram[tab[k]][i]) {
          EntryAt(ram, root, tab, k, i);
          assert Lookup(ram, tab, k.pre * N_ENTRIES + i) == Unmapped;
        }
      }
    }
  }

  lemma {:induction false} UpLevel(k: Label, lv: nat)
    requires k.lv <= lv
    ensures Up(k, lv).lv == lv
    decreases lv - k.lv
  {
    if k.lv < lv {
      UpLevel(L(k.lv + 1, k.pre / N_ENTRIES), lv);
    }
  }

  lemma EntryAt(ram: Ram, root: nat, tab: map<Label, nat>, k: Label, i: nat)
    requires Tree(ram, root, tab) && k in tab && k.lv == 0 && i < N_ENTRIES
    ensures IsTable(ram, tab[k]) && Entry(ram, tab, k.pre * N_ENTRIES + i) == ram[tab[k]][i]
  {
    assert (k.pre * N_ENTRIES + i) / N_ENTRIES == k.pre && (k.pre * N_ENTRIES + i) % N_ENTRIES == i;
  }

  lemma LeafEntries(ram: Ram, root: nat, tab: map<Label, nat>, k: Label)
    requires Tree(ram, root, tab) && k in tab
    requires forall v: nat | IsValid(Entry(ram, tab, v)) :: HasRWX(Entry(ram, tab, v))
    ensures TableOk(ram, tab, k)
  {
    assert IsTable(ram, tab[k]);
    forall i | 0 <= i < N_ENTRIES
      ensures if k.lv > 0 then EntryOk(ram[tab[k]][i], k, i, tab)
              else IsValid(ram[tab[k]][i]) ==> HasRWX(ram[tab[k]][i])
    {
      if k.lv == 0 {
        EntryAt(ram, root, tab, k, i);
      }
    }
  }

  // ------------------------------------------------------------ which entries the guard takes for tables

  /** The first guard of the loop, which vm_reap_pagetable applies at every level alike. */
  predicate TakenForTable(pte: nat) {
    IsValid(pte) && !HasRWX(pte)
  }

  /** The guard holds exactly at the entries that lead to a table of the tree. */
  ghost predicate GuardTells(ram: Ram, root: nat, tab: map<Label, nat>)
    requires Tree(ram, root, tab)
  {
    forall k, i | k in tab && 0 <= i < N_ENTRIES ::
      TakenForTable(ram[tab[k]][i]) <==> k.lv > 0 && Child(k, i) in tab
  }

  /** Above the last level the guard is right; on the last level it is right where there are permissions. */
  lemma GuardAt(ram: Ram, root: nat, tab: map<Label, nat>, k: Label, i: nat)
    requires Tree(ram, root, tab) && k in tab && i < N_ENTRIES
    ensures k.lv > 0 ==> (TakenForTable(ram[tab[k]][i]) <==> Child(k, i) in tab)
  {
    if k.lv > 0 {
      assert EntryOk(ram[tab[k]][i], k, i, tab);
      if Child(k, i) in tab {
        PteFacts(tab[Child(k, i)], FLAG_V);
        PtePermissions(tab[Child(k, i)], FLAG_V);
      }
    }
  }

  /** The guard tells tables from mapped pages exactly when every mapped page carries R (2), W (4) or X (8). */
  lemma GuardTellsIff(ram: Ram, root: nat, tab: map<Label, nat>)
    requires Tree(ram, root, tab)
    ensures GuardTells(ram, root, tab) <==>
            forall v: nat | Entry(ram, tab, v) % 2 == 1 ::
              var e := Entry(ram, tab, v); (e / 2) % 2 == 1 || (e / 4) % 2 == 1 || (e / 8) % 2 == 1
  {
    if GuardTells(ram, root, tab) {
      forall v: nat | IsValid(Entry(ram, tab, v)) ensures HasRWX(Entry(ram, tab, v)) {
        assert L(0, v / N_ENTRIES) in tab && 0 <= v % N_ENTRIES < N_ENTRIES;
      }
    }
    if forall v: nat | IsValid(Entry(ram, tab, v)) :: HasRWX(Entry(ram, tab, v)) {
      forall k, i | k in tab && 0 <= i < N_ENTRIES
        ensures TakenForTable(ram[tab[k]][i]) <==> k.lv > 0 && Child(k, i) in tab
      {
        GuardAt(ram, root, tab, k, i);
        if k.lv == 0 {
          EntryAt(ram, root, tab, k, i);
        }
      }
    }
  }

  lemma SameWithV(flags: nat)
    ensures HasRWX(WithV(flags)) == HasRWX(flags)
  {
    if flags % 2 == 0 {
      assert WithV(flags) / 2 == flags / 2 && WithV(flags) / 4 == flags / 4 && WithV(flags) / 8 == flags / 8;
    }
  }

  lemma BareEntry(ppn: nat, flags: nat)
    requires flags < 1024
    ensures TakenForTable(Pte(ppn, WithV(flags))) <==> !HasRWX(flags)
    ensures IsValid(Pte(ppn, WithV(flags))) && PtePpn(Pte(ppn, WithV(flags))) == ppn
  {
    PteFacts(ppn, WithV(flags));
    PtePermissions(ppn, WithV(flags));
    SameWithV(flags);
  }

  /** A page that vm_mappages maps without R, W and X, with the flag U alone or with no flag, is
      taken for a table, and its own number is what the recursion is given. */
  lemma BarePage(ram: Ram, root: nat, tab: map<Label, nat>, v: nat, ppn: nat, flags: nat)
    requires Tree(ram, root, tab) && flags < 1024 && Entry(ram, tab, v) == Pte(ppn, WithV(flags))
    ensures L(0, v / N_ENTRIES) in tab
    ensures var pte := ram[tab[L(0, v / N_ENTRIES)]][v % N_ENTRIES];
            && PtePpn(pte) == ppn
            && (TakenForTable(pte) <==> (flags / 2) % 2 == 0 && (flags / 4) % 2 == 0 && (flags / 8) % 2 == 0)
    ensures (flags / 2) % 2 == 0 && (flags / 4) % 2 == 0 && (flags / 8) % 2 == 0 ==> !GuardTells(ram, root, tab)
  {
    BareEntry(ppn, flags);
    assert 0 <= v % N_ENTRIES < N_ENTRIES;
  }

  /** The body of the loop of vm_reap_pagetable; false if it panics. */
  method ReapEntry(m: Machine, t: nat, i: nat, ghost root: nat, ghost tab: map<Label, nat>, ghost l: Label,
                   ghost ram0: Ram, ghost free0: set<nat>) returns (ok: bool)
    requires m.Valid() && Setup(root, tab, l, ram0, free0) && tab[l] == t && i < N_ENTRIES
    requires forall k | k in tab :: m.Managed(tab[k])
    requires ReapState(ram0, free0, m.ram, m.Free(), tab, l, i)
    modifies m`ram, m.pm.Repr
    ensures m.Valid()
    ensures ok ==> ReapState(ram0, free0, m.ram, m.Free(), tab, l, i + 1)
    ensures !ok ==> !LeafFree(ram0, tab, l) && SameOutside(ram0, m.ram, TablesUnder(tab, l))
    decreases l.lv, 0
  {
    ghost var ram1, free1 := m.ram, m.Free();
    var pte := m.ram[t][i];
    if TakenForTable(pte) {
      ReapValid(root, tab, l, ram0, free0, ram1, free1, i);
      ReapChild(root, tab, l, ram0, free0, ram1, free1, i);
      PteFacts(tab[Child(l, i)], FLAG_V);
      ok := Reap(m, PtePpn(pte), root, tab, Child(l, i));
      if !ok {
        LeafBelow(root, tab, l, ram0, i + 1);
        ReapPartial(root, tab, l, ram0, ram1, m.ram, i);
      } else {
        ReapAfterChild(root, tab, l, ram0, free0, ram1, free1, m.ram, m.Free(), i);
        PagesAfterWrite(m.ram, t, i, 0, m.pm.beginPpn, m.pm.beginPpn + m.pm.numPpn);
        m.ram := Written(m.ram, t, i, 0);
      }
    } else if IsValid(pte) {
      ReapValid(root, tab, l, ram0, free0, ram1, free1, i);
      ReapPartial(root, tab, l, ram0, ram1, ram1, i);
      ok := false;
    } else {
      ReapSkip(root, tab, l, ram0, free0, ram1, free1, i);
      ok := true;
    }
  }

  /** vm_reap_pagetable: frees every table of the tree once, or panics if a page is still mapped. */
  method Reap(m: Machine, t: nat, ghost root: nat, ghost tab: map<Label, nat>, ghost l: Label) returns (ok: bool)
    requires m.Valid() && Setup(root, tab, l, m.ram, m.Free()) && tab[l] == t
    requires forall k | k in tab :: m.Managed(tab[k])
    modifies m`ram, m.pm.Repr
    ensures m.Valid()
    ensures SameOutside(old(m.ram), m.ram, TablesUnder(tab, l))
    ensures ok <==> LeafFree(old(m.ram), tab, l)
    ensures ok ==> m.Free() == old(m.Free()) + TablesUnder(tab, l)
    decreases l.lv, 1
  {
    ghost var ram0, free0 := m.ram, m.Free();
    ReapBegin(root, tab, l, ram0, free0);
    var i := 0;
    while i < N_ENTRIES
      invariant 0 <= i <= N_ENTRIES
      invariant m.Valid() && ReapState(ram0, free0, m.ram, m.Free(), tab, l, i)
    {
      ok := ReapEntry(m, t, i, root, tab, l, ram0, free0);
      if !ok {
        return false;
      }
      i := i + 1;
    }
    ReapEnd(root, tab, l, ram0, free0, m.ram, m.Free());
    ok := m.FreePage(t);
  }
}
