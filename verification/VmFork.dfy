/** vm_uvmcpy of kernel/memory/vmem.c: copying an address space for a new process. */
module VmFork {
  import opened Arith
  import opened PageTable
  import opened Types
  import opened Vm

  /** The memory and the two trees when the copy starts. */
  datatype Fork = Fork(ram0: Ram, free0: set<nat>, rootP: nat, tabP: map<Label, nat>,
                       rootC: nat, tabC0: map<Label, nat>, overwrite: bool)

  ghost function ParentEntry(f: Fork, v: nat): nat
    requires Tree(f.ram0, f.rootP, f.tabP)
  {
    Entry(f.ram0, f.tabP, v)
  }

  ghost function OldEntry(f: Fork, v: nat): nat
    requires Tree(f.ram0, f.rootC, f.tabC0)
  {
    Entry(f.ram0, f.tabC0, v)
  }

  /** Pages the copy gives the child: readable or executable ones of the parent that the child
      has no entry for yet, or all of them when overwriting. */
  ghost predicate ToCopy(f: Fork, v: nat)
    requires Tree(f.ram0, f.rootP, f.tabP) && Tree(f.ram0, f.rootC, f.tabC0)
  {
    IsValid(ParentEntry(f, v)) && HasRX(ParentEntry(f, v)) && (f.overwrite || OldEntry(f, v) == 0)
  }

  /** The two trees are apart, free pages are in neither and hold zeros, and the parent's pages
      are neither free nor tables of the child. */
  ghost predicate Start(f: Fork) {
    && Tree(f.ram0, f.rootP, f.tabP) && Tree(f.ram0, f.rootC, f.tabC0)
    && f.tabP.Values !! f.tabC0.Values && f.tabP.Values + f.tabC0.Values !! f.free0
    && (forall p | p in f.free0 :: p in f.ram0 && f.ram0[p] == ZeroPage())
    && (forall v: nat | ToCopy(f, v) :: SourceOk(f, PtePpn(ParentEntry(f, v))))
  }

  ghost predicate SourceOk(f: Fork, p: nat) {
    IsTable(f.ram0, p) && p !in f.free0 && p !in f.tabC0.Values
  }

  /** Page `v` of the child maps a page of its own: taken from the free pages, no table, with the
      parent's flags and contents. */
  ghost predicate Fresh(f: Fork, ram: Ram, tab: map<Label, nat>, free: set<nat>, v: nat)
    requires Start(f) && Tree(ram, f.rootC, tab)
  {
    var e, c := ParentEntry(f, v), Entry(ram, tab, v);
    && PteFlags(c) == PteFlags(e)
    && PtePpn(c) in f.free0 && PtePpn(c) !in free && PtePpn(c) !in tab.Values
    && PtePpn(c) in ram && PtePpn(e) in f.ram0 && ram[PtePpn(c)] == f.ram0[PtePpn(e)]
  }

  /** All virtual pages below `k` are dealt with, those from `k` on untouched. */
  ghost predicate State(f: Fork, ram: Ram, tab: map<Label, nat>, free: set<nat>, k: nat) {
    && Start(f) && Tree(ram, f.rootC, tab)
    && Keeps(f.tabC0, tab)
    && free <= f.free0 && free !! tab.Values && tab.Values <= f.tabC0.Values + (f.free0 - free)
    && SameOutside(f.ram0, ram, tab.Values + (f.free0 - free))
    && (forall v: nat | v < k && ToCopy(f, v) :: Fresh(f, ram, tab, free, v))
    && (forall v: nat | v >= k || !ToCopy(f, v) :: Entry(ram, tab, v) == OldEntry(f, v))
    && (forall u: nat, v: nat | u < v < k && ToCopy(f, u) && ToCopy(f, v) ::
          PtePpn(Entry(ram, tab, u)) != PtePpn(Entry(ram, tab, v)))
  }

  ghost predicate Keeps(tab1: map<Label, nat>, tab: map<Label, nat>) {
    forall l | l in tab1 :: l in tab && tab[l] == tab1[l]
  }

  // ------------------------------------------------------------ order of the traversal

  function Span(lv: nat): nat
    requires lv < N_VPN
  {
    match lv
    case 0 => 1
    case 1 => 512
    case 2 => 262144
  }

  /** The first virtual page behind entry `i` of the table `l`. */
  function First(l: Label, i: nat): nat
    requires l.lv < N_VPN
  {
    (l.pre * N_ENTRIES + i) * Span(l.lv)
  }

  lemma FirstOfChild(l: Label, i: nat)
    requires 0 < l.lv < N_VPN
    ensures First(Child(l, i), 0) == First(l, i) && First(Child(l, i), N_ENTRIES) == First(l, i + 1)
  {
  }

  lemma FirstOfPage(l: Label, i: nat)
    requires l.lv == 0 && i < N_ENTRIES
    ensures First(l, i) / N_ENTRIES == l.pre && First(l, i) % N_ENTRIES == i && First(l, i + 1) == First(l, i) + 1
  {
  }

  /** Behind an empty entry of the parent there is nothing to copy. */
  lemma NothingBehind(f: Fork, l: Label, i: nat, v: nat)
    requires Start(f) && l in f.tabP && 0 < l.lv && i < N_ENTRIES && Child(l, i) !in f.tabP
    requires First(l, i) <= v < First(l, i + 1)
    ensures !ToCopy(f, v)
  {
    if l.lv == 1 {
      Quotient(v, N_ENTRIES, l.pre * N_ENTRIES + i);
    } else {
      assert l == Root;
      Quotient(v, N_ENTRIES * N_ENTRIES, i);
      assert (v / N_ENTRIES) / N_ENTRIES == v / (N_ENTRIES * N_ENTRIES);
    }
  }

  lemma Quotient(v: nat, d: nat, q: nat)
    requires d > 0 && q * d <= v < (q + 1) * d
    ensures v / d == q
  {
    DivModIs(v, d, q, v - q * d);
  }

  lemma SkipTo(f: Fork, ram: Ram, tab: map<Label, nat>, free: set<nat>, k: nat, k': nat)
    requires State(f, ram, tab, free, k) && k <= k'
    requires forall v: nat | k <= v < k' :: !ToCopy(f, v)
    ensures State(f, ram, tab, free, k')
  {
  }

  // ------------------------------------------------------------ the two steps

  /** A table for the child, taken without clearing it: it holds zeros because free pages do. */
  lemma AddSubTable(f: Fork, ram: Ram, tab: map<Label, nat>, free: set<nat>, k: nat, l: Label, i: nat, p: nat)
    requires State(f, ram, tab, free, k) && l in tab && l.lv > 0 && i < N_ENTRIES && Child(l, i) !in tab && p in free
    ensures IsTable(ram, tab[l])
    ensures State(f, Written(ram, tab[l], i, Pte(p, FLAG_V)), tab[Child(l, i) := p], free - {p}, k)
  {
    assert EntryOk(ram[tab[l]][i], l, i, tab);
    AddTable(ram, f.rootC, tab, l, i, p);
    HookZero(ram, tab[l], i, p);
    ValuesAfterAdd(tab, Child(l, i), p);
    assert tab[l] in tab.Values;
    SubTableKeeps(f, ram, tab, free, k, Hooked(ram, tab[l], i, p), tab[Child(l, i) := p], p);
  }

  lemma HookZero(ram: Ram, t: nat, i: nat, p: nat)
    requires IsTable(ram, t) && i < N_ENTRIES && p in ram && ram[p] == ZeroPage()
    ensures Hooked(ram, t, i, p) == Written(ram, t, i, Pte(p, FLAG_V))
    ensures SameOutside(ram, Hooked(ram, t, i, p), {t})
  {
  }

  lemma SubTableKeeps(f: Fork, ram: Ram, tab: map<Label, nat>, free: set<nat>, k: nat, ram': Ram, tab': map<Label, nat>,
                      p: nat)
    requires State(f, ram, tab, free, k) && Tree(ram', f.rootC, tab') && p in free
    requires SameOutside(ram, ram', tab.Values) && tab'.Values == tab.Values + {p}
    requires Keeps(tab, tab')
    requires forall v: nat :: Entry(ram', tab', v) == Entry(ram, tab, v)
    ensures State(f, ram', tab', free - {p}, k)
  {
    SubTableKeepsCopies(f, ram, tab, free, k, ram', tab', p);
    SubTableSets(f.ram0, ram, ram', f.tabC0.Values, tab.Values, tab'.Values, f.free0, free, p);
    assert Keeps(f.tabC0, tab');
  }

  lemma SubTableKeepsCopies(f: Fork, ram: Ram, tab: map<Label, nat>, free: set<nat>, k: nat, ram': Ram,
                          tab': map<Label, nat>, p: nat)
    requires State(f, ram, tab, free, k) && Tree(ram', f.rootC, tab') && p in free
    requires SameOutside(ram, ram', tab.Values) && tab'.Values == tab.Values + {p}
    requires forall v: nat :: Entry(ram', tab', v) == Entry(ram, tab, v)
    ensures forall v: nat | v < k && ToCopy(f, v) :: Fresh(f, ram', tab', free - {p}, v)
  {
    forall v: nat | v < k && ToCopy(f, v) ensures Fresh(f, ram', tab', free - {p}, v) {
      assert Fresh(f, ram, tab, free, v);
    }
  }

  lemma SubTableSets(ram0: Ram, ram: Ram, ram': Ram, t0: set<nat>, t: set<nat>, t': set<nat>, free0: set<nat>,
                     free: set<nat>, p: nat)
    requires free <= free0 && free !! t && t <= t0 + (free0 - free) && SameOutside(ram0, ram, t + (free0 - free))
    requires p in free && SameOutside(ram, ram', t) && t' == t + {p}
    ensures free - {p} <= free0 && free - {p} !! t' && t' <= t0 + (free0 - (free - {p}))
    ensures SameOutside(ram0, ram', t' + (free0 - (free - {p})))
  {
  }

  /** Memory after the page of the parent's entry `e` was copied to `p` and entry `i` of table `t` set. */
  function Copied(ram: Ram, t: nat, i: nat, e: nat, p: nat): Ram
    requires IsTable(ram, t) && i < N_ENTRIES && PtePpn(e) in ram && t != p
  {
    Written(ram[p := ram[PtePpn(e)]], t, i, Pte(p, PteFlags(e)))
  }

  lemma CopyFacts(f: Fork, ram: Ram, tab: map<Label, nat>, free: set<nat>, v: nat, p: nat)
    requires State(f, ram, tab, free, v) && L(0, v / N_ENTRIES) in tab && p in free && ToCopy(f, v)
    ensures var e, t := ParentEntry(f, v), tab[L(0, v / N_ENTRIES)];
            IsTable(ram, t) && t != p && IsTable(ram, PtePpn(e)) && ram[PtePpn(e)] == f.ram0[PtePpn(e)]
  {
    assert SourceOk(f, PtePpn(ParentEntry(f, v)));
    assert tab[L(0, v / N_ENTRIES)] in tab.Values;
  }

  lemma CopyTree(ram: Ram, root: nat, tab: map<Label, nat>, v: nat, e: nat, p: nat)
    requires Tree(ram, root, tab) && L(0, v / N_ENTRIES) in tab && p !in tab.Values && PtePpn(e) in ram && p in ram
    ensures tab[L(0, v / N_ENTRIES)] != p
    ensures var ram' := Copied(ram, tab[L(0, v / N_ENTRIES)], v % N_ENTRIES, e, p);
            && Tree(ram', root, tab) && Updated(ram, tab, ram', tab, root, true, v, Pte(p, PteFlags(e)))
            && SameOutside(ram, ram', tab.Values + {p}) && ram'[p] == ram[PtePpn(e)]
  {
    var ram1 := ram[p := ram[PtePpn(e)]];
    forall k | k in tab ensures tab[k] in ram1 && ram1[tab[k]] == ram[tab[k]] {
      assert tab[k] in tab.Values;
    }
    assert tab[L(0, v / N_ENTRIES)] in tab.Values;
    TreeFrame(ram, ram1, root, tab);
    SetLeaf(ram1, root, tab, v, Pte(p, PteFlags(e)));
  }

  /** Copying one page. */
  lemma CopyStep(f: Fork, ram: Ram, tab: map<Label, nat>, free: set<nat>, v: nat, p: nat)
    requires State(f, ram, tab, free, v) && L(0, v / N_ENTRIES) in tab && p in free && ToCopy(f, v)
    ensures var e, t := ParentEntry(f, v), tab[L(0, v / N_ENTRIES)];
            && IsTable(ram, t) && t != p && IsTable(ram, PtePpn(e))
            && State(f, Copied(ram, t, v % N_ENTRIES, e, p), tab, free - {p}, v + 1)
  {
    CopyFacts(f, ram, tab, free, v, p);
    var e := ParentEntry(f, v);
    CopyTree(ram, f.rootC, tab, v, e, p);
    var ram' := Copied(ram, tab[L(0, v / N_ENTRIES)], v % N_ENTRIES, e, p);
    PteFacts(p, PteFlags(e));
    forall u: nat | u < v + 1 && ToCopy(f, u) ensures Fresh(f, ram', tab, free - {p}, u) {
      if u < v {
        assert Fresh(f, ram, tab, free, u);
      } else {
        assert SourceOk(f, PtePpn(e));
      }
    }
    forall u: nat, w: nat | u < w < v + 1 && ToCopy(f, u) && ToCopy(f, w)
      ensures PtePpn(Entry(ram', tab, u)) != PtePpn(Entry(ram', tab, w))
    {
      assert Fresh(f, ram, tab, free, u);
    }
  }

  // ------------------------------------------------------------ vm_uvmcpy_recursive

  /** What the two tables at place `l` hold when entry `i` is reached. */
  lemma ReadTables(f: Fork, ram: Ram, tab: map<Label, nat>, free: set<nat>, k: nat, l: Label)
    requires State(f, ram, tab, free, k) && l in f.tabP && l in tab
    ensures l.lv < N_VPN && IsTable(f.ram0, f.tabP[l])
    ensures IsTable(ram, f.tabP[l]) && ram[f.tabP[l]] == f.ram0[f.tabP[l]] && IsTable(ram, tab[l])
  {
    assert f.tabP[l] in f.tabP.Values;
  }

  lemma NonLeaf(ram: Ram, root: nat, tab: map<Label, nat>, l: Label, i: nat)
    requires Tree(ram, root, tab) && l in tab && l.lv > 0 && i < N_ENTRIES
    ensures IsTable(ram, tab[l])
    ensures IsValid(ram[tab[l]][i]) <==> Child(l, i) in tab
    ensures Child(l, i) in tab ==>
              var e := ram[tab[l]][i];
              !HasRX(e) && PtePpn(e) == tab[Child(l, i)] && PteFlags(e) == FLAG_V && e != 0
    ensures Child(l, i) !in tab ==> ram[tab[l]][i] == 0
  {
    EntryMeaning(ram, root, tab, l, i);
    assert EntryOk(ram[tab[l]][i], l, i, tab);
    if Child(l, i) in tab {
      PtePermissions(tab[Child(l, i)], FLAG_V);
      PteFacts(tab[Child(l, i)], FLAG_V);
    }
  }

  lemma ReadLeaf(f: Fork, ram: Ram, tab: map<Label, nat>, free: set<nat>, v: nat)
    requires State(f, ram, tab, free, v) && L(0, v / N_ENTRIES) in f.tabP && L(0, v / N_ENTRIES) in tab
    ensures var t, t' := f.tabP[L(0, v / N_ENTRIES)], tab[L(0, v / N_ENTRIES)];
            && IsTable(ram, t) && IsTable(ram, t')
            && ram[t][v % N_ENTRIES] == ParentEntry(f, v) && ram[t'][v % N_ENTRIES] == OldEntry(f, v)
  {
    ReadTables(f, ram, tab, free, v, L(0, v / N_ENTRIES));
    assert Entry(ram, tab, v) == OldEntry(f, v);
  }

  lemma SkipOne(f: Fork, ram: Ram, tab: map<Label, nat>, free: set<nat>, v: nat)
    requires State(f, ram, tab, free, v) && !ToCopy(f, v)
    ensures State(f, ram, tab, free, v + 1)
  {
    forall u: nat | v <= u < v + 1 ensures !ToCopy(f, u) {
      assert u == v;
    }
    SkipTo(f, ram, tab, free, v, v + 1);
  }

  /** The leaf branch of page `v`: a fresh page, a copy of the contents, and the entry; false if
      there is no page left. */
  method CopyPage(m: Machine, pte: nat, ct: nat, i: nat, ghost f: Fork, ghost v: nat, ghost tab: map<Label, nat>)
    returns (ok: bool)
    requires m.Valid() && State(f, m.ram, tab, m.Free(), v) && i == v % N_ENTRIES
    requires ToCopy(f, v) && pte == ParentEntry(f, v)
    requires L(0, v / N_ENTRIES) in tab && tab[L(0, v / N_ENTRIES)] == ct
    modifies m`ram, m.pm.Repr
    ensures m.Valid()
    ensures ok ==> State(f, m.ram, tab, m.Free(), v + 1)
    ensures !ok ==> m.Free() == {}
  {
    ghost var ram, free := m.ram, m.Free();
    var p := m.AllocPage();
    if p.None? {
      return false;
    }
    CopyStep(f, ram, tab, free, v, p.value);
    StoreCopy(m, ct, i, pte, p.value);
    return true;
  }

  /** memcpy into page `p`, and the entry for it. */
  method StoreCopy(m: Machine, ct: nat, i: nat, pte: nat, p: nat)
    requires m.Valid() && IsTable(m.ram, ct) && i < N_ENTRIES && IsTable(m.ram, PtePpn(pte)) && p != ct
    modifies m`ram
    ensures m.Valid() && m.ram == Copied(old(m.ram), ct, i, pte, p) && m.Free() == old(m.Free())
  {
    PagesAfterCopy(m.ram, ct, i, pte, p, m.pm.beginPpn, m.pm.beginPpn + m.pm.numPpn);
    m.ram := Copied(m.ram, ct, i, pte, p);
  }

  /** Entry `i` of a last-level table, that of page `v`. */
  method CopyLeaf(m: Machine, pt: nat, ct: nat, overwrite: bool, i: nat, ghost f: Fork, ghost v: nat,
                  ghost tab: map<Label, nat>)
    returns (ok: bool)
    requires m.Valid() && State(f, m.ram, tab, m.Free(), v) && f.overwrite == overwrite && i == v % N_ENTRIES
    requires L(0, v / N_ENTRIES) in f.tabP && f.tabP[L(0, v / N_ENTRIES)] == pt
    requires L(0, v / N_ENTRIES) in tab && tab[L(0, v / N_ENTRIES)] == ct
    modifies m`ram, m.pm.Repr
    ensures m.Valid()
    ensures ok ==> State(f, m.ram, tab, m.Free(), v + 1)
    ensures !ok ==> m.Free() == {}
  {
    ReadLeaf(f, m.ram, tab, m.Free(), v);
    var pte := m.ram[pt][i];
    if IsValid(pte) && HasRX(pte) && (overwrite || m.ram[ct][i] == 0) {
      ok := CopyPage(m, pte, ct, i, f, v, tab);
    } else {
      SkipOne(f, m.ram, tab, m.Free(), v);
      ok := true;
    }
  }

  lemma PagesAfterCopy(ram: Ram, t: nat, i: nat, e: nat, p: nat, from: nat, to: nat)
    requires Pages(ram, from, to) && IsTable(ram, t) && i < N_ENTRIES && IsTable(ram, PtePpn(e)) && t != p
    ensures Pages(Copied(ram, t, i, e, p), from, to)
  {
    forall q | from <= q < to ensures IsTable(Copied(ram, t, i, e, p), q) {
      assert IsTable(ram, q);
    }
  }

  /** The non-leaf branch up to the recursive call: the child's table behind entry `i`, which
      gets the flags of the parent's entry if it is new. */
  method SubTable(m: Machine, pte: nat, ct: nat, i: nat, ghost f: Fork, ghost l: Label, ghost tab1: map<Label, nat>,
                  ghost k: nat)
    returns (sub: Option<nat>, ghost tab: map<Label, nat>)
    requires m.Valid() && l.lv > 0 && i < N_ENTRIES && State(f, m.ram, tab1, m.Free(), k)
    requires l in tab1 && tab1[l] == ct && PteFlags(pte) == FLAG_V
    modifies m`ram, m.pm.Repr
    ensures m.Valid()
    ensures sub.Some? ==> State(f, m.ram, tab, m.Free(), k) && Child(l, i) in tab && tab[Child(l, i)] == sub.value
    ensures sub.Some? ==> Keeps(tab1, tab)
    ensures sub.None? ==> m.Free() == {}
  {
    tab := tab1;
    ghost var ram, free := m.ram, m.Free();
    NonLeaf(ram, f.rootC, tab, l, i);
    if m.ram[ct][i] != 0 {
      return Some(PtePpn(m.ram[ct][i])), tab;
    }
    sub := m.AllocPage();
    if sub.Some? {
      AddSubTable(f, ram, tab, free, k, l, i, sub.value);
      m.Write(ct, i, Pte(sub.value, PteFlags(pte)));
      tab := tab[Child(l, i) := sub.value];
    }
  }

  lemma SkipBehind(f: Fork, ram: Ram, tab: map<Label, nat>, free: set<nat>, l: Label, i: nat)
    requires 0 < l.lv < N_VPN && i < N_ENTRIES && State(f, ram, tab, free, First(l, i))
    requires l in f.tabP && Child(l, i) !in f.tabP
    ensures State(f, ram, tab, free, First(l, i + 1))
  {
    NothingIn(f, l, i);
  }

  lemma NothingIn(f: Fork, l: Label, i: nat)
    requires Start(f) && l in f.tabP && 0 < l.lv < N_VPN && i < N_ENTRIES && Child(l, i) !in f.tabP
    ensures First(l, i) <= First(l, i + 1)
    ensures forall v: nat | First(l, i) <= v < First(l, i + 1) :: !ToCopy(f, v)
  {
    forall v: nat | First(l, i) <= v < First(l, i + 1) ensures !ToCopy(f, v) {
      NothingBehind(f, l, i, v);
    }
  }

  /** The body of the loop of vm_uvmcpy_recursive, for entry `i` of the tables at place `l`. */
  method CopyEntry(m: Machine, pt: nat, ct: nat, overwrite: bool, i: nat,
                   ghost f: Fork, ghost l: Label, ghost tab1: map<Label, nat>, level: nat)
    returns (ok: bool, ghost tab: map<Label, nat>)
    requires m.Valid() && l.lv == level < N_VPN && i < N_ENTRIES && State(f, m.ram, tab1, m.Free(), First(l, i))
    requires f.overwrite == overwrite && l in f.tabP && f.tabP[l] == pt && l in tab1 && tab1[l] == ct
    modifies m`ram, m.pm.Repr
    ensures m.Valid()
    ensures ok ==> State(f, m.ram, tab, m.Free(), First(l, i + 1)) && Keeps(tab1, tab)
    ensures !ok ==> m.Free() == {}
    decreases level, 0
  {
    tab := tab1;
    if level == 0 {
      FirstOfPage(l, i);
      ok := CopyLeaf(m, pt, ct, overwrite, i, f, First(l, i), tab);
    } else {
      ReadTables(f, m.ram, tab, m.Free(), First(l, i), l);
      NonLeaf(f.ram0, f.rootP, f.tabP, l, i);
      var pte := m.ram[pt][i];
      if IsValid(pte) {
        var sub;
        sub, tab := SubTable(m, pte, ct, i, f, l, tab, First(l, i));
        if sub.None? {
          return false, tab;
        }
        FirstOfChild(l, i);
        ok, tab := CopyTable(m, PtePpn(pte), sub.value, overwrite, f, Child(l, i), tab, level - 1);
      } else {
        SkipBehind(f, m.ram, tab, m.Free(), l, i);
        ok := true;
      }
    }
  }

  /** vm_uvmcpy_recursive: false if the page manager ran out of pages on the way. */
  method CopyTable(m: Machine, pt: nat, ct: nat, overwrite: bool, ghost f: Fork, ghost l: Label,
                   ghost tab1: map<Label, nat>, level: nat)
    returns (ok: bool, ghost tab: map<Label, nat>)
    requires m.Valid() && l.lv == level < N_VPN && State(f, m.ram, tab1, m.Free(), First(l, 0))
    requires f.overwrite == overwrite && l in f.tabP && f.tabP[l] == pt && l in tab1 && tab1[l] == ct
    modifies m`ram, m.pm.Repr
    ensures m.Valid()
    ensures ok ==> State(f, m.ram, tab, m.Free(), First(l, N_ENTRIES)) && Keeps(tab1, tab)
    ensures !ok ==> m.Free() == {}
    decreases level, 1
  {
    tab, ok := tab1, true;
    var i := 0;
    while ok && i != N_ENTRIES
      invariant 0 <= i <= N_ENTRIES && m.Valid()
      invariant if ok then State(f, m.ram, tab, m.Free(), First(l, i)) && Keeps(tab1, tab) else m.Free() == {}
      decreases ok, N_ENTRIES - i
    {
      ok, tab := CopyEntry(m, pt, ct, overwrite, i, f, l, tab, level);
      i := i + 1;
    }
  }

  /** Everything a caller may rely on after vm_uvmcpy, page by page. */
  ghost predicate Isolated(f: Fork, ram: Ram, tab: map<Label, nat>, free: set<nat>) {
    && Start(f) && Tree(ram, f.rootC, tab) && Tree(ram, f.rootP, f.tabP)
    && (forall v: nat :: Entry(ram, f.tabP, v) == ParentEntry(f, v))
    && (forall v: nat :: if ToCopy(f, v) then Fresh(f, ram, tab, free, v) else Entry(ram, tab, v) == OldEntry(f, v))
    && (forall u: nat, v: nat | u < v && ToCopy(f, u) && ToCopy(f, v) ::
          PtePpn(Entry(ram, tab, u)) != PtePpn(Entry(ram, tab, v)))
    && Untouched(f, ram, tab, free)
  }

  /** The child keeps its tables, new ones and the copies come from the free pages, and no other
      page is written: neither the pages the parent maps nor those the child had before. */
  ghost predicate Untouched(f: Fork, ram: Ram, tab: map<Label, nat>, free: set<nat>) {
    && Keeps(f.tabC0, tab)
    && free <= f.free0 && free !! tab.Values && tab.Values <= f.tabC0.Values + (f.free0 - free)
    && SameOutside(f.ram0, ram, tab.Values + (f.free0 - free))
    && (forall p | SourceOk(f, p) :: p in ram && ram[p] == f.ram0[p])
  }

  /** No tree reaches beyond the virtual address space. */
  lemma InSpace(f: Fork, v: nat)
    requires Start(f) && ToCopy(f, v)
    ensures v < First(Root, N_ENTRIES)
  {
    var l := L(0, v / N_ENTRIES);
    assert l in f.tabP;
    assert L(1, l.pre / N_ENTRIES) in f.tabP;
    assert L(2, (l.pre / N_ENTRIES) / N_ENTRIES) in f.tabP;
  }

  lemma CopyDone(f: Fork, ram: Ram, tab: map<Label, nat>, free: set<nat>)
    requires State(f, ram, tab, free, First(Root, N_ENTRIES))
    ensures Isolated(f, ram, tab, free)
  {
    forall l | l in f.tabP ensures f.tabP[l] in ram && ram[f.tabP[l]] == f.ram0[f.tabP[l]] {
      assert IsTable(f.ram0, f.tabP[l]) && f.tabP[l] in f.tabP.Values;
    }
    TreeFrame(f.ram0, ram, f.rootP, f.tabP);
    forall p | SourceOk(f, p) ensures p in ram && ram[p] == f.ram0[p] {
      assert p !in tab.Values + (f.free0 - free);
    }
    forall v: nat | ToCopy(f, v) ensures v < First(Root, N_ENTRIES) {
      InSpace(f, v);
    }
  }

  /** vm_uvmcpy. It fails only when the page manager runs out of pages. */
  method CopySpace(m: Machine, rootP: nat, rootC: nat, overwrite: bool, ghost tabP: map<Label, nat>,
                   ghost tabC: map<Label, nat>)
    returns (ok: bool, ghost tab: map<Label, nat>)
    requires m.Valid() && Start(Fork(m.ram, m.Free(), rootP, tabP, rootC, tabC, overwrite))
    modifies m`ram, m.pm.Repr
    ensures m.Valid()
    ensures ok ==> Isolated(Fork(old(m.ram), old(m.Free()), rootP, tabP, rootC, tabC, overwrite), m.ram, tab, m.Free())
    ensures !ok ==> m.Free() == {}
  {
    ghost var f := Fork(m.ram, m.Free(), rootP, tabP, rootC, tabC, overwrite);
    ok, tab := CopyTable(m, rootP, rootC, overwrite, f, Root, tabC, N_VPN - 1);
    if ok {
      CopyDone(f, m.ram, tab, m.Free());
    }
  }

  // ------------------------------------------------------------ what is not copied

  /** Page `v` is mapped in the parent and has no entry in the child that is to stay. */
  ghost predicate Wanted(f: Fork, v: nat)
    requires Tree(f.ram0, f.rootP, f.tabP) && Tree(f.ram0, f.rootC, f.tabC0)
  {
    IsValid(ParentEntry(f, v)) && (f.overwrite || OldEntry(f, v) == 0)
  }

  /** No entry of the child maps a page that is free. */
  ghost predicate NoFreeMapped(f: Fork)
    requires Tree(f.ram0, f.rootC, f.tabC0)
  {
    forall v: nat | OldEntry(f, v) != 0 :: PtePpn(OldEntry(f, v)) !in f.free0
  }

  /** A page with V (1) and with R (2) or X (8), by the bits of its entry, is copied unless the child has an entry
      to keep: onto a page of its own that was free, with the same flags and contents. */
  lemma PermittedCopied(f: Fork, ram: Ram, tab: map<Label, nat>, free: set<nat>, v: nat)
    requires Isolated(f, ram, tab, free)
    requires var e := ParentEntry(f, v); e % 2 == 1 && ((e / 2) % 2 == 1 || (e / 8) % 2 == 1)
    requires f.overwrite || OldEntry(f, v) == 0
    ensures Fresh(f, ram, tab, free, v)
    ensures var e, c := ParentEntry(f, v), Entry(ram, tab, v);
            && c % 1024 == e % 1024 && c / 1024 in f.free0 && c / 1024 !in free && c / 1024 !in tab.Values
            && c / 1024 in ram && e / 1024 in f.ram0 && ram[c / 1024] == f.ram0[e / 1024]
  {
    assert ToCopy(f, v);
  }

  /** A page mapped with neither R nor X is left out: the entry of the child stays as it was. */
  lemma NotCopied(f: Fork, ram: Ram, tab: map<Label, nat>, free: set<nat>, v: nat)
    requires Isolated(f, ram, tab, free) && NoFreeMapped(f) && Wanted(f, v)
    requires var e := ParentEntry(f, v); (e / 2) % 2 == 0 && (e / 8) % 2 == 0
    ensures Entry(ram, tab, v) == OldEntry(f, v) && !Fresh(f, ram, tab, free, v)
  {
    assert !ToCopy(f, v);
    ValidFlags(ParentEntry(f, v));
    assert PteFlags(0) == 0;
  }

  lemma ValidFlags(e: nat)
    requires IsValid(e)
    ensures PteFlags(e) != 0
  {
    assert e == 2 * (512 * (e / 1024)) + PteFlags(e);
  }

  /** A page mapped without the bits R (2) and X (8), with the flag U or W alone, is such a page. */
  lemma BareFlags(f: Fork, v: nat, ppn: nat, flags: nat)
    requires Start(f) && flags < 1024 && (flags / 2) % 2 == 0 && (flags / 8) % 2 == 0
    requires ParentEntry(f, v) == Pte(ppn, WithV(flags))
    ensures ParentEntry(f, v) % 2 == 1 && !ToCopy(f, v)
  {
    PteCarries(ppn, flags);
  }

  /** All mapped pages of the parent are copied exactly if each that is still to be copied carries R or X. */
  lemma AllCopiedIff(f: Fork, ram: Ram, tab: map<Label, nat>, free: set<nat>)
    requires Isolated(f, ram, tab, free) && NoFreeMapped(f)
    ensures (forall v: nat | Wanted(f, v) :: Fresh(f, ram, tab, free, v)) <==>
            (forall v: nat | Wanted(f, v) :: (ParentEntry(f, v) / 2) % 2 == 1 || (ParentEntry(f, v) / 8) % 2 == 1)
  {
    forall v: nat | Wanted(f, v)
      ensures Fresh(f, ram, tab, free, v) <==> (ParentEntry(f, v) / 2) % 2 == 1 || (ParentEntry(f, v) / 8) % 2 == 1
    {
      if (ParentEntry(f, v) / 2) % 2 == 1 || (ParentEntry(f, v) / 8) % 2 == 1 {
        PermittedCopied(f, ram, tab, free, v);
      } else {
        NotCopied(f, ram, tab, free, v);
      }
    }
  }

  // ------------------------------------------------------------ tables that are not cleared

  /** Zero-filled pages are needed, at either level: hooking in a table `p` without clearing it leaves
      a tree with the same abstract map exactly if the page holds zeros. */
  lemma UnclearedTable(ram: Ram, root: nat, tab: map<Label, nat>, l: Label, i: nat, p: nat)
    requires Tree(ram, root, tab) && l in tab && l.lv > 0 && i < N_ENTRIES && Child(l, i) !in tab
    requires p !in tab.Values && IsTable(ram, p)
    ensures var ram', tab' := Written(ram, tab[l], i, Pte(p, FLAG_V)), tab[Child(l, i) := p];
            && (forall k | k in tab' :: IsTable(ram', tab'[k]))
            && (Tree(ram', root, tab') && (forall v: nat :: Entry(ram', tab', v) == Entry(ram, tab, v)) <==>
                ram[p] == ZeroPage())
  {
    var ram', tab' := Written(ram, tab[l], i, Pte(p, FLAG_V)), tab[Child(l, i) := p];
    assert tab[l] in tab.Values;
    forall k | k in tab' ensures IsTable(ram', tab'[k]) {}
    if ram[p] == ZeroPage() {
      assert EntryOk(ram[tab[l]][i], l, i, tab);
      assert ram' == Hooked(ram, tab[l], i, p);
      AddTable(ram, root, tab, l, i, p);
    } else {
      var j :| 0 <= j < N_ENTRIES && ram[p][j] != 0;
      assert ram'[p] == ram[p];
      if l.lv == 1 {
        FirstOfPage(Child(l, i), j);
        var v: nat := First(Child(l, i), j);
        assert Entry(ram', tab', v) != Entry(ram, tab, v);
      } else {
        NoGrandchild(root, tab, l, i, j);
        assert Child(l, i) in tab' && !EntryOk(ram'[tab'[Child(l, i)]][j], Child(l, i), j, tab');
      }
    }
  }

  lemma NoGrandchild(root: nat, tab: map<Label, nat>, l: Label, i: nat, j: nat)
    requires Shape(root, tab) && l in tab && l.lv > 1 && i < N_ENTRIES && j < N_ENTRIES && Child(l, i) !in tab
    ensures Child(Child(l, i), j) !in tab
  {
    var c := Child(l, i);
    assert (c.pre * N_ENTRIES + j) / N_ENTRIES == c.pre;
  }
}
