/** The radix tree of page tables as a plain map from virtual page to entry.

    A table is a physical page of 512 words. Its place in the tree is a label: its level
    and the virtual page number bits above it. The tree of a root is given by `tab`, the
    physical page of every table it has; `Tree` says that the entries in memory and `tab`
    agree, so in particular that no table is shared. */
module PageTable {
  import opened Arith

  const N_VPN := 3
  const N_ENTRIES := 512
  const FLAG_V := 1

  type Page = seq<nat>
  type Ram = map<nat, Page>

  datatype Label = L(lv: nat, pre: nat)

  /** `PA_PTE` of physical page `ppn`, or-ed with `flags`. */
  function Pte(ppn: nat, flags: nat): nat
    requires flags < 1024
  {
    ppn * 1024 + flags
  }

  function PtePpn(e: nat): nat { e / 1024 }
  function PteFlags(e: nat): nat { e % 1024 }
  predicate IsValid(e: nat) { e % 2 == 1 }
  predicate HasRX(e: nat) { (e / 2) % 2 == 1 || (e / 8) % 2 == 1 }
  predicate HasRWX(e: nat) { HasRX(e) || (e / 4) % 2 == 1 }

  /** `flags | PTE_FLAG_V` */
  function WithV(flags: nat): (r: nat)
    ensures IsValid(r)
    ensures flags < 1024 ==> r < 1024
  {
    if flags % 2 == 1 then flags else flags + 1
  }

  lemma PteFacts(ppn: nat, flags: nat)
    requires flags < 1024
    ensures PtePpn(Pte(ppn, flags)) == ppn && PteFlags(Pte(ppn, flags)) == flags
    ensures IsValid(Pte(ppn, flags)) <==> flags % 2 == 1
  {
    DivModIs(Pte(ppn, flags), 1024, ppn, flags);
    DivModIs(Pte(ppn, flags), 2, ppn * 512 + flags / 2, flags % 2);
  }

  /** A flag bit of an entry is that bit of its flags. */
  lemma SameBit(ppn: nat, flags: nat, bit: nat, up: nat)
    requires flags < 1024 && bit > 0 && 2 * up * bit == 1024
    ensures (Pte(ppn, flags) / bit) % 2 == (flags / bit) % 2
  {
    var f := flags / bit;
    assert ppn * 1024 == (ppn * (2 * up)) * bit;
    assert Pte(ppn, flags) == (ppn * (2 * up) + f) * bit + flags % bit;
    DivModIs(Pte(ppn, flags), bit, ppn * (2 * up) + f, flags % bit);
    assert ppn * (2 * up) + f == (ppn * up + f / 2) * 2 + f % 2;
    DivModIs(ppn * (2 * up) + f, 2, ppn * up + f / 2, f % 2);
  }

  lemma PtePermissions(ppn: nat, flags: nat)
    requires flags < 1024
    ensures HasRX(Pte(ppn, flags)) == HasRX(flags) && HasRWX(Pte(ppn, flags)) == HasRWX(flags)
  {
    SameBit(ppn, flags, 2, 256);
    SameBit(ppn, flags, 4, 128);
    SameBit(ppn, flags, 8, 64);
  }

  /** Entry `e` maps page `ppn` with bit V (1) and, of all other flag bits, exactly those of `flags`: bits R (2),
      W (4), X (8), U (16), G (32), A (64), D (128) and the two for software (256, 512). */
  predicate Carries(e: nat, ppn: nat, flags: nat) {
    && e / 1024 == ppn && e % 2 == 1
    && (e / 2) % 2 == (flags / 2) % 2 && (e / 4) % 2 == (flags / 4) % 2 && (e / 8) % 2 == (flags / 8) % 2
    && (e / 16) % 2 == (flags / 16) % 2 && (e / 32) % 2 == (flags / 32) % 2 && (e / 64) % 2 == (flags / 64) % 2
    && (e / 128) % 2 == (flags / 128) % 2 && (e / 256) % 2 == (flags / 256) % 2 && (e / 512) % 2 == (flags / 512) % 2
  }

  /** Or-ing V into the flags changes no other bit. */
  lemma WithVBits(flags: nat, half: nat)
    requires half > 0
    ensures WithV(flags) / (2 * half) == flags / (2 * half)
  {
    assert WithV(flags) / 2 == flags / 2;
    Halved(WithV(flags), half);
    Halved(flags, half);
  }

  lemma Halved(x: nat, half: nat)
    requires half > 0
    ensures x / (2 * half) == (x / 2) / half
  {
    var y := x / 2;
    assert x == (y / half) * (2 * half) + (2 * (y % half) + x % 2);
    DivModIs(x, 2 * half, y / half, 2 * (y % half) + x % 2);
  }

  /** A flag bit of an entry made by vm_mappages. */
  lemma EnteredBit(ppn: nat, flags: nat, half: nat, up: nat)
    requires flags < 1024 && half > 0 && 4 * up * half == 1024
    ensures (Pte(ppn, WithV(flags)) / (2 * half)) % 2 == (flags / (2 * half)) % 2
  {
    assert 2 * up * (2 * half) == 1024;
    SameBit(ppn, WithV(flags), 2 * half, up);
    WithVBits(flags, half);
  }

  lemma PteCarries(ppn: nat, flags: nat)
    requires flags < 1024
    ensures Carries(Pte(ppn, WithV(flags)), ppn, flags)
  {
    PteFacts(ppn, WithV(flags));
    EnteredBit(ppn, flags, 1, 256);
    EnteredBit(ppn, flags, 2, 128);
    EnteredBit(ppn, flags, 4, 64);
    EnteredBit(ppn, flags, 8, 32);
    EnteredBit(ppn, flags, 16, 16);
    EnteredBit(ppn, flags, 32, 8);
    EnteredBit(ppn, flags, 64, 4);
    EnteredBit(ppn, flags, 128, 2);
    EnteredBit(ppn, flags, 256, 1);
  }

  /** Words that agree above a bit and at it agree from it on. */
  lemma OneBitDown(x: nat, y: nat, bit: nat)
    requires bit > 0 && x / (2 * bit) == y / (2 * bit) && (x / bit) % 2 == (y / bit) % 2
    ensures x / bit == y / bit
  {
    UpperBits(x, bit);
    UpperBits(y, bit);
  }

  lemma UpperBits(x: nat, bit: nat)
    requires bit > 0
    ensures x / (2 * bit) == (x / bit) / 2
  {
    var q := x / bit;
    assert x == (q / 2) * (2 * bit) + (q % 2 * bit + x % bit) by {
      assert q * bit == (q / 2 * 2 + q % 2) * bit;
    }
    DivModIs(x, 2 * bit, q / 2, q % 2 * bit + x % bit);
  }

  /** So these bits are the whole entry. */
  lemma CarriesIs(e: nat, ppn: nat, flags: nat)
    requires flags < 1024 && Carries(e, ppn, flags)
    ensures e == ppn * 1024 + flags - flags % 2 + 1
  {
    PteCarries(ppn, flags);
    SameEntry(e, Pte(ppn, WithV(flags)), ppn, flags);
  }

  lemma SameEntry(e: nat, e': nat, ppn: nat, flags: nat)
    requires Carries(e, ppn, flags) && Carries(e', ppn, flags)
    ensures e == e'
  {
    OneBitDown(e, e', 512);
    OneBitDown(e, e', 256);
    OneBitDown(e, e', 128);
    OneBitDown(e, e', 64);
    OneBitDown(e, e', 32);
    OneBitDown(e, e', 16);
    OneBitDown(e, e', 8);
    OneBitDown(e, e', 4);
    OneBitDown(e, e', 2);
  }

  /** The label of the table behind entry `i` of the table `l`. */
  function Child(l: Label, i: nat): Label
    requires l.lv > 0
  {
    L(l.lv - 1, l.pre * N_ENTRIES + i)
  }

  const Root := L(N_VPN - 1, 0)

  ghost predicate IsTable(ram: Ram, p: nat) {
    p in ram && |ram[p]| == N_ENTRIES
  }

  ghost predicate EntryOk(e: nat, l: Label, i: nat, tab: map<Label, nat>)
    requires l.lv > 0
  {
    if Child(l, i) in tab then e == Pte(tab[Child(l, i)], FLAG_V) else e == 0
  }

  ghost predicate Shape(root: nat, tab: map<Label, nat>) {
    && Root in tab && tab[Root] == root
    && (forall l | l in tab :: l.lv < N_VPN && (l.lv == N_VPN - 1 ==> l == Root))
    && (forall l | l in tab :: l.lv < N_VPN - 1 ==> L(l.lv + 1, l.pre / N_ENTRIES) in tab)
    && (forall l, l' | l in tab && l' in tab :: tab[l] == tab[l'] ==> l == l')
  }

  ghost predicate Tree(ram: Ram, root: nat, tab: map<Label, nat>) {
    && Shape(root, tab)
    && (forall l | l in tab :: IsTable(ram, tab[l]))
    && (forall l, i | l in tab && l.lv > 0 && 0 <= i < N_ENTRIES :: EntryOk(ram[tab[l]][i], l, i, tab))
  }

  /** The abstract map: the last-level entry of virtual page `v`, 0 if there is no table for it. */
  ghost function Entry(ram: Ram, tab: map<Label, nat>, v: nat): nat
    requires L(0, v / N_ENTRIES) in tab ==> IsTable(ram, tab[L(0, v / N_ENTRIES)])
  {
    if L(0, v / N_ENTRIES) in tab then ram[tab[L(0, v / N_ENTRIES)]][v % N_ENTRIES] else 0
  }

  function ZeroPage(): (r: Page)
    ensures |r| == N_ENTRIES
  {
    seq(N_ENTRIES, _ => 0)
  }

  // ------------------------------------------------------------ addresses

  /** The virtual page number that the walk of `va` uses. */
  function Vpn(va: nat): nat { (va / 4096) % 0x8000000 }

  /** `VA_GET_PN(lv, va)` */
  function Pn(lv: nat, va: nat): (r: nat)
    requires lv < N_VPN
    ensures r < N_ENTRIES
  {
    match lv
    case 0 => (va / 0x1000) % 512
    case 1 => (va / 0x200000) % 512
    case 2 => (va / 0x40000000) % 512
  }

  /** Label of the level-`lv` table on the way to `va`. */
  function OnPath(lv: nat, va: nat): Label
    requires lv < N_VPN
  {
    match lv
    case 0 => L(0, Vpn(va) / 0x200)
    case 1 => L(1, Vpn(va) / 0x40000)
    case 2 => L(2, 0)
  }

  lemma DivDiv(va: nat)
    ensures va / 0x200000 == (va / 4096) / 512 && va / 0x40000000 == (va / 4096) / 0x40000
  {
    var x, r := va / 4096, va % 4096;
    DivModIs(va, 0x200000, x / 512, (x % 512) * 4096 + r);
    DivModIs(va, 0x40000000, x / 0x40000, (x % 0x40000) * 4096 + r);
  }

  lemma Digits(x: nat)
    ensures (x / 0x40000) % 512 == (x % 0x8000000) / 0x40000
    ensures (x % 0x8000000) / 0x40000 * 512 + (x / 512) % 512 == (x % 0x8000000) / 512
  {
    // x = ((q * 512 + a) * 512 + b) * 512 + c, digit by digit
    var y, c := x / 512, x % 512;
    var z, b := y / 512, y % 512;
    var q, a := z / 512, z % 512;
    DivModIs(x, 0x40000, z, b * 512 + c);
    DivModIs(x, 0x8000000, q, a * 0x40000 + b * 512 + c);
    DivModIs(a * 0x40000 + b * 512 + c, 0x40000, a, b * 512 + c);
    DivModIs(a * 0x40000 + b * 512 + c, 512, a * 512 + b, c);
  }

  lemma PathStep(lv: nat, va: nat)
    requires 0 < lv < N_VPN
    ensures Child(OnPath(lv, va), Pn(lv, va)) == OnPath(lv - 1, va)
  {
    DivDiv(va);
    Digits(va / 4096);
  }

  lemma PathEnd(va: nat)
    ensures OnPath(0, va) == L(0, Vpn(va) / N_ENTRIES) && Pn(0, va) == Vpn(va) % N_ENTRIES
  {
  }

  /** Without a table at some level there is none below. */
  lemma NoTableBelow(root: nat, tab: map<Label, nat>, lv: nat, va: nat)
    requires Shape(root, tab) && lv < N_VPN && OnPath(lv, va) !in tab
    ensures OnPath(0, va) !in tab
  {
    if lv == 1 {
      assert Vpn(va) / 0x40000 == (Vpn(va) / 0x200) / 512;
    }
  }

  // ------------------------------------------------------------ growing the tree

  /** Memory after `memset` of a fresh table `p` and the write that hooks it into entry `i` of table `t`. */
  function Hooked(ram: Ram, t: nat, i: nat, p: nat): Ram
    requires t in ram && |ram[t]| == N_ENTRIES && i < N_ENTRIES
  {
    var page: Page := ram[t][i := Pte(p, FLAG_V)];
    ram[p := ZeroPage()][t := page]
  }

  /** A fresh table keeps the tree unshared and the abstract map as it was. */
  lemma AddTable(ram: Ram, root: nat, tab: map<Label, nat>, l: Label, i: nat, p: nat)
    requires Tree(ram, root, tab) && l in tab && l.lv > 0 && i < N_ENTRIES
    requires ram[tab[l]][i] == 0 && p !in tab.Values
    ensures Tree(Hooked(ram, tab[l], i, p), root, tab[Child(l, i) := p])
    ensures Child(l, i) !in tab
    ensures forall v :: Entry(Hooked(ram, tab[l], i, p), tab[Child(l, i) := p], v) == Entry(ram, tab, v)
  {
    var c := Child(l, i);
    var ram', tab' := Hooked(ram, tab[l], i, p), tab[c := p];
    assert EntryOk(ram[tab[l]][i], l, i, tab);
    AddTableShape(root, tab, l, i, p);
    forall k | k in tab' ensures IsTable(ram', tab'[k]) {}
    forall k, j | k in tab' && k.lv > 0 && 0 <= j < N_ENTRIES ensures EntryOk(ram'[tab'[k]][j], k, j, tab') {
      AddTableEntry(ram, root, tab, l, i, p, k, j);
    }
    forall v: nat ensures Entry(ram', tab', v) == Entry(ram, tab, v) {
      if L(0, v / N_ENTRIES) in tab {
        assert tab[L(0, v / N_ENTRIES)] != tab[l] && tab[L(0, v / N_ENTRIES)] != p;
      }
    }
  }

  lemma AddTableShape(root: nat, tab: map<Label, nat>, l: Label, i: nat, p: nat)
    requires Shape(root, tab) && l in tab && l.lv > 0 && i < N_ENTRIES && p !in tab.Values && Child(l, i) !in tab
    ensures Shape(root, tab[Child(l, i) := p])
  {
    assert (l.pre * N_ENTRIES + i) / N_ENTRIES == l.pre;
  }

  lemma ChildInjective(l: Label, i: nat, k: Label, j: nat)
    requires l.lv > 0 && k.lv > 0 && i < N_ENTRIES && j < N_ENTRIES && Child(l, i) == Child(k, j)
    ensures l == k && i == j
  {
    assert l.pre == (l.pre * N_ENTRIES + i) / N_ENTRIES;
    assert k.pre == (k.pre * N_ENTRIES + j) / N_ENTRIES;
  }

  lemma AddTableEntry(ram: Ram, root: nat, tab: map<Label, nat>, l: Label, i: nat, p: nat, k: Label, j: nat)
    requires Tree(ram, root, tab) && l in tab && l.lv > 0 && i < N_ENTRIES
    requires p !in tab.Values && Child(l, i) !in tab
    requires k in tab[Child(l, i) := p] && k.lv > 0 && j < N_ENTRIES
    ensures EntryOk(Hooked(ram, tab[l], i, p)[tab[Child(l, i) := p][k]][j], k, j, tab[Child(l, i) := p])
  {
    var c := Child(l, i);
    if k == c {
      assert (c.pre * N_ENTRIES + j) / N_ENTRIES == c.pre;
    } else {
      assert EntryOk(ram[tab[k]][j], k, j, tab);
      if Child(k, j) == c {
        ChildInjective(k, j, l, i);
      }
    }
  }

  // ------------------------------------------------------------ writing a leaf

  /** Memory after entry `i` of table `t` has been set to `e`. */
  function Written(ram: Ram, t: nat, i: nat, e: nat): Ram
    requires t in ram && |ram[t]| == N_ENTRIES && i < N_ENTRIES
  {
    var page: Page := ram[t][i := e];
    ram[t := page]
  }

  /** Writing a last-level entry changes the abstract map at that one page. */
  lemma SetLeaf(ram: Ram, root: nat, tab: map<Label, nat>, v: nat, e: nat)
    requires Tree(ram, root, tab) && L(0, v / N_ENTRIES) in tab
    ensures var ram' := Written(ram, tab[L(0, v / N_ENTRIES)], v % N_ENTRIES, e);
            && Tree(ram', root, tab)
            && Updated(ram, tab, ram', tab, root, true, v, e)
  {
    var l := L(0, v / N_ENTRIES);
    var ram' := Written(ram, tab[l], v % N_ENTRIES, e);
    forall k, j | k in tab && k.lv > 0 && 0 <= j < N_ENTRIES ensures EntryOk(ram'[tab[k]][j], k, j, tab) {
      assert tab[k] != tab[l];
      assert EntryOk(ram[tab[k]][j], k, j, tab);
    }
    forall u: nat ensures Entry(ram', tab, u) == if u == v then e else Entry(ram, tab, u) {
      if L(0, u / N_ENTRIES) in tab && u / N_ENTRIES != v / N_ENTRIES {
        assert tab[L(0, u / N_ENTRIES)] != tab[l];
      }
    }
  }

  /** Memory outside the tables may change freely. */
  lemma TreeFrame(ram: Ram, ram': Ram, root: nat, tab: map<Label, nat>)
    requires Tree(ram, root, tab)
    requires forall l | l in tab :: tab[l] in ram' && ram'[tab[l]] == ram[tab[l]]
    ensures Tree(ram', root, tab)
    ensures forall v: nat :: Entry(ram', tab, v) == Entry(ram, tab, v)
  {
    forall k, j | k in tab && k.lv > 0 && 0 <= j < N_ENTRIES ensures EntryOk(ram'[tab[k]][j], k, j, tab) {
      assert EntryOk(ram[tab[k]][j], k, j, tab);
    }
  }

  // ------------------------------------------------------------ trees and free pages

  /** From `(ram0, tab0, free0)` to `(ram, tab, free)` the tree kept its tables and gained some,
      each of them a page that was free; no page that is not a table changed. */
  ghost predicate Extends(ram0: Ram, tab0: map<Label, nat>, free0: set<nat>,
                          ram: Ram, tab: map<Label, nat>, free: set<nat>, root: nat)
  {
    && Tree(ram0, root, tab0) && Tree(ram, root, tab)
    && (forall l | l in tab0 :: l in tab && tab[l] == tab0[l])
    && free <= free0 && tab.Values !! free && tab.Values == tab0.Values + (free0 - free)
    && SameOutside(ram0, ram, tab.Values)
  }

  ghost predicate SameMap(ram0: Ram, root: nat, tab0: map<Label, nat>, ram: Ram, tab: map<Label, nat>)
    requires Tree(ram0, root, tab0) && Tree(ram, root, tab)
  {
    forall v: nat :: Entry(ram, tab, v) == Entry(ram0, tab0, v)
  }

  /** The abstract map is the old one, except that page `v` has entry `e` if `hit`. */
  ghost predicate Updated(ram0: Ram, tab0: map<Label, nat>, ram: Ram, tab: map<Label, nat>, root: nat, hit: bool,
                          v: nat, e: nat)
    requires Tree(ram0, root, tab0) && Tree(ram, root, tab)
  {
    forall u: nat :: Entry(ram, tab, u) == if hit && u == v then e else Entry(ram0, tab0, u)
  }

  /** ... and the abstract map is the same. */
  ghost predicate Grown(ram0: Ram, tab0: map<Label, nat>, free0: set<nat>,
                        ram: Ram, tab: map<Label, nat>, free: set<nat>, root: nat)
  {
    Extends(ram0, tab0, free0, ram, tab, free, root) && SameMap(ram0, root, tab0, ram, tab)
  }

  lemma ExtendsTransitive(ram0: Ram, tab0: map<Label, nat>, free0: set<nat>, ram1: Ram, tab1: map<Label, nat>,
                          free1: set<nat>, ram2: Ram, tab2: map<Label, nat>, free2: set<nat>, root: nat)
    requires Extends(ram0, tab0, free0, ram1, tab1, free1, root)
    requires Extends(ram1, tab1, free1, ram2, tab2, free2, root)
    ensures Extends(ram0, tab0, free0, ram2, tab2, free2, root)
  {
    assert tab2.Values == tab0.Values + (free0 - free2);
    assert tab1.Values <= tab2.Values;
  }

  /** Same pages, and the same contents outside `s`. */
  ghost predicate SameOutside(ram0: Ram, ram: Ram, s: set<nat>) {
    ram.Keys == ram0.Keys && forall p | p in ram && p !in s :: ram[p] == ram0[p]
  }

  lemma ValuesAfterAdd(tab: map<Label, nat>, c: Label, p: nat)
    requires c !in tab
    ensures tab[c := p].Values == tab.Values + {p}
  {
    var tab' := tab[c := p];
    forall q: nat ensures q in tab'.Values <==> q in tab.Values + {p} {
      if q in tab.Values {
        var l :| l in tab && tab[l] == q;
        assert tab'[l] == q;
      }
      assert tab'[c] == p;
    }
  }

  lemma GrowStep(ram0: Ram, tab0: map<Label, nat>, free0: set<nat>,
                 ram: Ram, tab: map<Label, nat>, free: set<nat>, root: nat, l: Label, i: nat, p: nat)
    requires Grown(ram0, tab0, free0, ram, tab, free, root)
    requires l in tab && l.lv > 0 && i < N_ENTRIES && ram[tab[l]][i] == 0
    requires p in free && p in ram
    ensures Child(l, i) !in tab
    ensures Grown(ram0, tab0, free0, Hooked(ram, tab[l], i, p), tab[Child(l, i) := p], free - {p}, root)
  {
    AddTable(ram, root, tab, l, i, p);
    GrowExtends(ram0, tab0, free0, ram, tab, free, root, l, i, p);
    SameMapNext(ram0, root, tab0, ram, tab, Hooked(ram, tab[l], i, p), tab[Child(l, i) := p]);
  }

  lemma SameMapNext(ram0: Ram, root: nat, tab0: map<Label, nat>, ram: Ram, tab: map<Label, nat>, ram': Ram,
                    tab': map<Label, nat>)
    requires Tree(ram0, root, tab0) && Tree(ram, root, tab) && Tree(ram', root, tab')
    requires SameMap(ram0, root, tab0, ram, tab) && forall v :: Entry(ram', tab', v) == Entry(ram, tab, v)
    ensures SameMap(ram0, root, tab0, ram', tab')
  {
  }

  lemma GrowExtends(ram0: Ram, tab0: map<Label, nat>, free0: set<nat>,
                    ram: Ram, tab: map<Label, nat>, free: set<nat>, root: nat, l: Label, i: nat, p: nat)
    requires Extends(ram0, tab0, free0, ram, tab, free, root) && l in tab && l.lv > 0 && i < N_ENTRIES
    requires p in free && p in ram && Child(l, i) !in tab
    requires Tree(Hooked(ram, tab[l], i, p), root, tab[Child(l, i) := p])
    ensures Extends(ram0, tab0, free0, Hooked(ram, tab[l], i, p), tab[Child(l, i) := p], free - {p}, root)
  {
    ValuesAfterAdd(tab, Child(l, i), p);
    GrowSets(tab0.Values, free0, tab.Values, free, p);
    assert tab[l] in tab.Values;
    GrowFrame(ram0, ram, tab.Values, tab[l], i, p);
  }

  lemma GrowSets(t0: set<nat>, free0: set<nat>, t: set<nat>, free: set<nat>, p: nat)
    requires p in free && free <= free0 && t == t0 + (free0 - free) && t !! free
    ensures t + {p} == t0 + (free0 - (free - {p})) && t + {p} !! free - {p}
  {
  }

  lemma GrowFrame(ram0: Ram, ram: Ram, s: set<nat>, t: nat, i: nat, p: nat)
    requires SameOutside(ram0, ram, s) && t in s && t in ram && |ram[t]| == N_ENTRIES && i < N_ENTRIES && p in ram
    ensures SameOutside(ram0, Hooked(ram, t, i, p), s + {p})
  {
  }

  /** What the walk reads off an entry of a non-leaf table. */
  lemma EntryMeaning(ram: Ram, root: nat, tab: map<Label, nat>, l: Label, i: nat)
    requires Tree(ram, root, tab) && l in tab && l.lv > 0 && i < N_ENTRIES
    ensures IsTable(ram, tab[l])
    ensures IsValid(ram[tab[l]][i]) <==> Child(l, i) in tab
    ensures Child(l, i) in tab ==> PtePpn(ram[tab[l]][i]) == tab[Child(l, i)]
    ensures Child(l, i) !in tab ==> ram[tab[l]][i] == 0
  {
    assert EntryOk(ram[tab[l]][i], l, i, tab);
    if Child(l, i) in tab {
      PteFacts(tab[Child(l, i)], FLAG_V);
    }
  }

  ghost predicate Pages(ram: Ram, from: nat, to: nat) {
    forall p | from <= p < to :: IsTable(ram, p)
  }

  lemma PagesAfterHook(ram: Ram, t: nat, i: nat, p: nat, from: nat, to: nat)
    requires Pages(ram, from, to) && IsTable(ram, t) && i < N_ENTRIES
    ensures Pages(Hooked(ram, t, i, p), from, to)
  {
    forall q | from <= q < to ensures IsTable(Hooked(ram, t, i, p), q) {
      assert IsTable(ram, q);
    }
  }

  // ------------------------------------------------------------ mapping a range

  /** Virtual page number of the `i`-th page from page `first` on. */
  function VpnAt(first: nat, i: nat): nat {
    (first + i) % 0x8000000
  }

  lemma VpnOfPage(va: nat, i: nat)
    ensures Vpn(va + i * 4096) == VpnAt(va / 4096, i)
  {
    DivModIs(va + i * 4096, 4096, va / 4096 + i, va % 4096);
  }

  ghost predicate Hit(first: nat, count: nat, v: nat) {
    exists i: nat :: i < count && VpnAt(first, i) == v
  }

  /** The first `j` pages of the range are mapped to consecutive physical pages, had not been
      mapped before, and the abstract map is otherwise the old one. */
  ghost predicate MappedUpTo(ram0: Ram, tab0: map<Label, nat>, ram: Ram, tab: map<Label, nat>, root: nat,
                             first: nat, ppn: nat, flags: nat, j: nat)
    requires Tree(ram0, root, tab0) && Tree(ram, root, tab) && flags < 1024
  {
    && (forall i: nat | i < j :: Entry(ram, tab, VpnAt(first, i)) == Pte(ppn + i, WithV(flags)))
    && (forall i: nat | i < j :: !IsValid(Entry(ram0, tab0, VpnAt(first, i))))
    && (forall v: nat | !Hit(first, j, v) :: Entry(ram, tab, v) == Entry(ram0, tab0, v))
  }

  /** The first `j` pages of the range lead to consecutive physical pages with exactly these flags. */
  ghost predicate CarriedUpTo(ram: Ram, tab: map<Label, nat>, root: nat, first: nat, ppn: nat, flags: nat, j: nat)
    requires Tree(ram, root, tab)
  {
    forall i: nat | i < j :: Carries(Entry(ram, tab, VpnAt(first, i)), ppn + i, flags)
  }

  lemma MappedCarries(ram0: Ram, tab0: map<Label, nat>, ram: Ram, tab: map<Label, nat>, root: nat,
                      first: nat, ppn: nat, flags: nat, j: nat)
    requires Tree(ram0, root, tab0) && Tree(ram, root, tab) && flags < 1024
    requires MappedUpTo(ram0, tab0, ram, tab, root, first, ppn, flags, j)
    ensures CarriedUpTo(ram, tab, root, first, ppn, flags, j)
  {
    forall i: nat | i < j ensures Carries(Entry(ram, tab, VpnAt(first, i)), ppn + i, flags) {
      PteCarries(ppn + i, flags);
    }
  }

  lemma MapStep(ram0: Ram, tab0: map<Label, nat>, ram1: Ram, tab1: map<Label, nat>, ram2: Ram, tab2: map<Label, nat>,
                root: nat, first: nat, ppn: nat, flags: nat, j: nat, v: nat)
    requires Tree(ram0, root, tab0) && Tree(ram1, root, tab1) && Tree(ram2, root, tab2) && flags < 1024
    requires MappedUpTo(ram0, tab0, ram1, tab1, root, first, ppn, flags, j)
    requires v == VpnAt(first, j) && !IsValid(Entry(ram1, tab1, v))
    requires Updated(ram1, tab1, ram2, tab2, root, true, v, Pte(ppn + j, WithV(flags)))
    ensures MappedUpTo(ram0, tab0, ram2, tab2, root, first, ppn, flags, j + 1)
    ensures !Hit(first, j, v)
  {
    if Hit(first, j, v) {
      var i: nat :| i < j && VpnAt(first, i) == v;
      PteFacts(ppn + i, WithV(flags));
      assert false;
    }
    forall u: nat | !Hit(first, j + 1, u) ensures Entry(ram2, tab2, u) == Entry(ram0, tab0, u) {
      assert VpnAt(first, j) != u;
    }
    forall i: nat | i < j + 1
      ensures Entry(ram2, tab2, VpnAt(first, i)) == Pte(ppn + i, WithV(flags))
      ensures !IsValid(Entry(ram0, tab0, VpnAt(first, i)))
    {
      if i < j {
        assert Hit(first, j, VpnAt(first, i));
      }
    }
  }

  lemma ExtendsByLeaf(ram0: Ram, tab0: map<Label, nat>, free0: set<nat>, ram: Ram, tab: map<Label, nat>, free: set<nat>,
                      root: nat, v: nat, e: nat)
    requires Extends(ram0, tab0, free0, ram, tab, free, root) && L(0, v / N_ENTRIES) in tab
    ensures Extends(ram0, tab0, free0, Written(ram, tab[L(0, v / N_ENTRIES)], v % N_ENTRIES, e), tab, free, root)
  {
    SetLeaf(ram, root, tab, v, e);
    assert tab[L(0, v / N_ENTRIES)] in tab.Values;
  }

  lemma PagesAfterWrite(ram: Ram, t: nat, i: nat, e: nat, from: nat, to: nat)
    requires Pages(ram, from, to) && IsTable(ram, t) && i < N_ENTRIES
    ensures Pages(Written(ram, t, i, e), from, to)
  {
    forall q | from <= q < to ensures IsTable(Written(ram, t, i, e), q) {
      assert IsTable(ram, q);
    }
  }

  // ------------------------------------------------------------ unmapping a range

  /** A last-level entry that vm_unmappages accepts: valid, and more than the valid bit alone. */
  predicate IsLeaf(e: nat) {
    IsValid(e) && PteFlags(e) != FLAG_V
  }

  /** The physical page that the `i`-th page of the range maps to. */
  ghost function Target(ram: Ram, tab: map<Label, nat>, root: nat, first: nat, i: nat): nat
    requires Tree(ram, root, tab)
  {
    PtePpn(Entry(ram, tab, VpnAt(first, i)))
  }

  /** The first `j` pages of the range were leaves and are cleared now; the abstract map is
      otherwise the old one. */
  ghost predicate UnmappedUpTo(ram0: Ram, ram: Ram, tab: map<Label, nat>, root: nat, first: nat, j: nat)
    requires Tree(ram0, root, tab) && Tree(ram, root, tab)
  {
    && (forall i: nat | i < j :: Entry(ram, tab, VpnAt(first, i)) == 0)
    && (forall i: nat | i < j :: IsLeaf(Entry(ram0, tab, VpnAt(first, i))))
    && (forall v: nat | !Hit(first, j, v) :: Entry(ram, tab, v) == Entry(ram0, tab, v))
  }

  /** The targets of the first `j` pages. */
  ghost function Targets(ram: Ram, tab: map<Label, nat>, root: nat, first: nat, j: nat): seq<nat>
    requires Tree(ram, root, tab)
  {
    seq(j, i requires 0 <= i < j && Tree(ram, root, tab) => Target(ram, tab, root, first, i))
  }

  lemma TargetsStep(ram: Ram, tab: map<Label, nat>, root: nat, first: nat, j: nat)
    requires Tree(ram, root, tab)
    ensures Targets(ram, tab, root, first, j + 1) ==
              Targets(ram, tab, root, first, j) + [Target(ram, tab, root, first, j)]
  {
  }

  /** The pages in `ts`, all different and none of them free before, are what became free. */
  ghost predicate ReturnedOnce(ts: seq<nat>, free0: set<nat>, free: set<nat>) {
    && (forall i, k | 0 <= i < k < |ts| :: ts[i] != ts[k])
    && (forall i | 0 <= i < |ts| :: ts[i] !in free0)
    && free == free0 + (set p | p in ts)
  }

  lemma ReturnStep(ts: seq<nat>, free0: set<nat>, free: set<nat>, t: nat)
    requires ReturnedOnce(ts, free0, free) && t !in free
    ensures ReturnedOnce(ts + [t], free0, free + {t})
  {
    assert (set p | p in ts + [t]) == (set p | p in ts) + {t};
    forall i | 0 <= i < |ts| ensures ts[i] != t {
      assert ts[i] in ts;
    }
  }

  lemma UnmapStep(ram0: Ram, ram1: Ram, ram2: Ram, tab: map<Label, nat>, root: nat, first: nat, j: nat)
    requires Tree(ram0, root, tab) && Tree(ram1, root, tab) && Tree(ram2, root, tab)
    requires UnmappedUpTo(ram0, ram1, tab, root, first, j)
    requires IsLeaf(Entry(ram1, tab, VpnAt(first, j)))
    requires Updated(ram1, tab, ram2, tab, root, true, VpnAt(first, j), 0)
    ensures UnmappedUpTo(ram0, ram2, tab, root, first, j + 1)
    ensures Entry(ram1, tab, VpnAt(first, j)) == Entry(ram0, tab, VpnAt(first, j))
  {
    assert !Hit(first, j, VpnAt(first, j));
    forall u: nat | !Hit(first, j + 1, u) ensures Entry(ram2, tab, u) == Entry(ram0, tab, u) {
      assert VpnAt(first, j) != u;
    }
    forall i: nat | i < j + 1
      ensures Entry(ram2, tab, VpnAt(first, i)) == 0 && IsLeaf(Entry(ram0, tab, VpnAt(first, i)))
    {
      if i < j {
        assert Entry(ram1, tab, VpnAt(first, i)) == 0;
      }
    }
  }

  /** Once a mapped range has been cleared the map from virtual to physical pages is the old one. */
  lemma Restored(ram0: Ram, tab0: map<Label, nat>, ram1: Ram, ram2: Ram, tab: map<Label, nat>, root: nat,
                     first: nat, ppn: nat, flags: nat, n: nat, v: nat)
    requires Tree(ram0, root, tab0) && Tree(ram1, root, tab) && Tree(ram2, root, tab) && flags < 1024
    requires MappedUpTo(ram0, tab0, ram1, tab, root, first, ppn, flags, n)
    requires UnmappedUpTo(ram1, ram2, tab, root, first, n)
    ensures Lookup(ram2, tab, v) == Lookup(ram0, tab0, v)
  {
    if Hit(first, n, v) {
      var i: nat :| i < n && VpnAt(first, i) == v;
    }
  }

  datatype Mapping = Unmapped | Mapping(ppn: nat, flags: nat)

  /** The plain map from virtual page to physical page and flags. */
  ghost function Lookup(ram: Ram, tab: map<Label, nat>, v: nat): Mapping
    requires L(0, v / N_ENTRIES) in tab ==> IsTable(ram, tab[L(0, v / N_ENTRIES)])
  {
    var e := Entry(ram, tab, v);
    if IsValid(e) then Mapping(PtePpn(e), PteFlags(e)) else Unmapped
  }

  /** vm_mappages as an update of the plain map. */
  lemma MappedLookup(ram0: Ram, tab0: map<Label, nat>, ram: Ram, tab: map<Label, nat>, root: nat,
                     first: nat, ppn: nat, flags: nat, n: nat, v: nat)
    requires Tree(ram0, root, tab0) && Tree(ram, root, tab) && flags < 1024
    requires MappedUpTo(ram0, tab0, ram, tab, root, first, ppn, flags, n)
    ensures !Hit(first, n, v) ==> Lookup(ram, tab, v) == Lookup(ram0, tab0, v)
    ensures forall i: nat | i < n && VpnAt(first, i) == v ::
              Lookup(ram0, tab0, v) == Unmapped && Lookup(ram, tab, v) == Mapping(ppn + i, WithV(flags))
    ensures forall i: nat | i < n && VpnAt(first, i) == v :: Carries(Entry(ram, tab, v), ppn + i, flags)
  {
    forall i: nat | i < n && VpnAt(first, i) == v
      ensures Lookup(ram0, tab0, v) == Unmapped && Lookup(ram, tab, v) == Mapping(ppn + i, WithV(flags))
    {
      PteFacts(ppn + i, WithV(flags));
    }
    MappedCarries(ram0, tab0, ram, tab, root, first, ppn, flags, n);
  }
}
