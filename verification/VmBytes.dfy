/** Copying between the kernel and a user address space: vm_translate, vm_memcpyin and
    vm_memcpyout of kernel/memory/vmem.c. */
module VmBytes {
  import opened Addr
  import opened Arith
  import opened PageTable
  import opened Vm
  import opened Types

  // ------------------------------------------------------------ bytes of a page

  /** Byte `j` of a word, the lowest first. */
  function Byte(w: nat, j: nat): byte {
    if j == 0 then w % 256 else Byte(w / 256, j - 1)
  }

  function WithByte(w: nat, j: nat, b: byte): nat {
    if j == 0 then (w / 256) * 256 + b else WithByte(w / 256, j - 1, b) * 256 + w % 256
  }

  lemma {:induction false} ByteOfWord(w: nat, j: nat, b: byte, k: nat)
    ensures Byte(WithByte(w, j, b), k) == if k == j then b else Byte(w, k)
  {
    if j == 0 {
      assert WithByte(w, j, b) / 256 == w / 256;
    } else if k > 0 {
      assert WithByte(w, j, b) / 256 == WithByte(w / 256, j - 1, b);
      ByteOfWord(w / 256, j - 1, b, k - 1);
    }
  }

  function GetByte(page: Page, off: nat): byte
    requires |page| == N_ENTRIES && off < PAGE_SIZE
  {
    Byte(page[off / 8], off % 8)
  }

  function SetByte(page: Page, off: nat, b: byte): (r: Page)
    requires |page| == N_ENTRIES && off < PAGE_SIZE
    ensures |r| == N_ENTRIES
    ensures forall o: nat | o < PAGE_SIZE :: GetByte(r, o) == if o == off then b else GetByte(page, o)
  {
    var r: Page := page[off / 8 := WithByte(page[off / 8], off % 8, b)];
    assert forall o: nat | o < PAGE_SIZE :: GetByte(r, o) == if o == off then b else GetByte(page, o) by {
      forall o: nat | o < PAGE_SIZE ensures GetByte(r, o) == if o == off then b else GetByte(page, o) {
        ByteOfWord(page[off / 8], off % 8, b, o % 8);
      }
    }
    r
  }

  // ------------------------------------------------------------ where an address leads

  /** The physical page and offset that `va` translates to, given that its table is there. */
  ghost function Loc(ram: Ram, root: nat, tab: map<Label, nat>, va: nat): (nat, nat)
    requires Tree(ram, root, tab)
  {
    (PtePpn(Entry(ram, tab, Vpn(va))), va % PAGE_SIZE)
  }

  ghost predicate Reaches(ram: Ram, root: nat, tab: map<Label, nat>, va: nat) {
    Tree(ram, root, tab) && OnPath(0, va) in tab
  }

  /** vm_translate: the physical address, or nothing when a table is missing on the way. */
  method Translate(m: Machine, root: nat, va: nat, ghost tab: map<Label, nat>) returns (r: Option<nat>)
    requires m.Valid() && Tree(m.ram, root, tab) && tab.Values !! m.Free()
    modifies m`ram, m.pm.Repr
    ensures m.Valid() && m.ram == old(m.ram) && m.Free() == old(m.Free())
    ensures r.Some? <==> Reaches(m.ram, root, tab, va)
    ensures r.Some? ==> (r.value / PAGE_SIZE, r.value % PAGE_SIZE) == Loc(m.ram, root, tab, va)
  {
    PathEnd(va);
    var slot;
    ghost var tab';
    slot, tab' := m.Walk(root, va, false, tab);
    if slot.None? {
      return None;
    }
    assert IsTable(m.ram, tab[OnPath(0, va)]);
    r := Some(PtePpn(m.ram[slot.value.0][slot.value.1]) * PAGE_SIZE + va % PAGE_SIZE);
  }

  /** A mapped page translates to its frame: after vm_mappages every address of the range leads
      to the matching physical address. */
  lemma MappedTranslates(ram0: Ram, tab0: map<Label, nat>, ram: Ram, tab: map<Label, nat>, root: nat,
                         va: nat, pa: nat, siz: nat, flags: nat, a: nat)
    requires Tree(ram0, root, tab0) && Tree(ram, root, tab) && flags < 1024 && siz > 0
    requires MappedUpTo(ram0, tab0, ram, tab, root, va / PAGE_SIZE, pa / PAGE_SIZE, flags, PageCount(va, siz))
    requires va <= a < va + siz && va % PAGE_SIZE == pa % PAGE_SIZE
    ensures Reaches(ram, root, tab, a)
    ensures var (p, o) := Loc(ram, root, tab, a); p * PAGE_SIZE + o == pa + (a - va)
    ensures PteFlags(Entry(ram, tab, Vpn(a))) == WithV(flags)
  {
    var i := a / PAGE_SIZE - va / PAGE_SIZE;
    InRange(va, pa, siz, a);
    MappedEntry(ram0, tab0, ram, tab, root, va / PAGE_SIZE, pa / PAGE_SIZE, flags, PageCount(va, siz), i, Vpn(a));
    PathEnd(a);
  }

  lemma DivMono(x: nat, y: nat)
    requires x <= y
    ensures x / PAGE_SIZE <= y / PAGE_SIZE
  {
  }

  lemma InRange(va: nat, pa: nat, siz: nat, a: nat)
    requires va <= a < va + siz && va % PAGE_SIZE == pa % PAGE_SIZE
    ensures 0 <= a / PAGE_SIZE - va / PAGE_SIZE < PageCount(va, siz)
    ensures Vpn(a) == VpnAt(va / PAGE_SIZE, a / PAGE_SIZE - va / PAGE_SIZE)
    ensures (pa / PAGE_SIZE + (a / PAGE_SIZE - va / PAGE_SIZE)) * PAGE_SIZE + a % PAGE_SIZE == pa + (a - va)
  {
    var last := va + siz + PAGE_SIZE - 1;
    assert a + PAGE_SIZE <= last;
    DivMono(va, a);
    DivMono(a + PAGE_SIZE, last);
    DivModIs(a + PAGE_SIZE, PAGE_SIZE, a / PAGE_SIZE + 1, a % PAGE_SIZE);
  }

  lemma MappedEntry(ram0: Ram, tab0: map<Label, nat>, ram: Ram, tab: map<Label, nat>, root: nat,
                    first: nat, ppn: nat, flags: nat, n: nat, i: nat, v: nat)
    requires Tree(ram0, root, tab0) && Tree(ram, root, tab) && flags < 1024 && i < n && v == VpnAt(first, i)
    requires MappedUpTo(ram0, tab0, ram, tab, root, first, ppn, flags, n)
    ensures PtePpn(Entry(ram, tab, v)) == ppn + i && PteFlags(Entry(ram, tab, v)) == WithV(flags)
    ensures L(0, v / N_ENTRIES) in tab
  {
    var e := Entry(ram, tab, VpnAt(first, i));
    assert e == Pte(ppn + i, WithV(flags));
    PteFacts(ppn + i, WithV(flags));
  }

  // ------------------------------------------------------------ vm_memcpyout

  /** Where the `i`-th byte of a range goes, as long as the tables are those of `ram0`. */
  datatype Range = Range(ram0: Ram, root: nat, tab: map<Label, nat>, va: nat, size: nat)

  ghost function At(r: Range, i: nat): (nat, nat)
    requires Tree(r.ram0, r.root, r.tab)
  {
    Loc(r.ram0, r.root, r.tab, r.va + i)
  }

  ghost predicate HasTable(tab: map<Label, nat>, va: nat, i: nat) {
    OnPath(0, va + i) in tab
  }

  /** The last-level tables for the first `n` bytes exist. */
  ghost predicate Tables(tab: map<Label, nat>, va: nat, n: nat) {
    forall i: nat | i < n :: HasTable(tab, va, i)
  }

  lemma TablesNext(tab: map<Label, nat>, va: nat, n: nat)
    requires Tables(tab, va, n) && HasTable(tab, va, n)
    ensures Tables(tab, va, n + 1)
  {
  }

  /** As far as the range has tables, it leads to memory that is not a page table, every byte to a
      place of its own. */
  ghost predicate Apart(r: Range) {
    && Tree(r.ram0, r.root, r.tab)
    && (forall i: nat | i < r.size && HasTable(r.tab, r.va, i) ::
        IsTable(r.ram0, At(r, i).0) && At(r, i).0 !in r.tab.Values)
    && (forall i: nat, k: nat | i < k < r.size && HasTable(r.tab, r.va, i) && HasTable(r.tab, r.va, k) ::
        At(r, i) != At(r, k))
  }

  ghost predicate Hits(r: Range, j: nat, p: nat, o: nat)
    requires Tree(r.ram0, r.root, r.tab)
  {
    exists i: nat :: i < j && At(r, i) == (p, o)
  }

  ghost predicate ByteIn(r: Range, ram: Ram, src: seq<byte>, i: nat)
    requires Tree(r.ram0, r.root, r.tab) && i < |src|
  {
    var (p, o) := At(r, i);
    IsTable(ram, p) && GetByte(ram[p], o) == src[i]
  }

  ghost predicate SameByte(ram0: Ram, ram: Ram, p: nat, o: nat)
    requires o < PAGE_SIZE
  {
    IsTable(ram0, p) && IsTable(ram, p) ==> GetByte(ram[p], o) == GetByte(ram0[p], o)
  }

  /** The first `j` bytes of `src` are in place and no other byte of memory has changed. */
  ghost predicate Written(r: Range, ram: Ram, src: seq<byte>, j: nat)
    requires Apart(r) && j <= r.size == |src|
  {
    && ram.Keys == r.ram0.Keys
    && (forall p | p in r.ram0 && IsTable(r.ram0, p) :: IsTable(ram, p))
    && (forall p | p in r.tab.Values && p in r.ram0 :: ram[p] == r.ram0[p])
    && (forall i: nat | i < j :: ByteIn(r, ram, src, i))
    && (forall p: nat, o: nat | o < PAGE_SIZE && !Hits(r, j, p, o) :: SameByte(r.ram0, ram, p, o))
  }

  lemma WrittenTree(r: Range, ram: Ram, src: seq<byte>, j: nat)
    requires Apart(r) && j <= r.size == |src| && Written(r, ram, src, j)
    ensures Tree(ram, r.root, r.tab)
    ensures forall i: nat :: Loc(ram, r.root, r.tab, r.va + i) == At(r, i)
  {
    forall l | l in r.tab ensures r.tab[l] in ram && ram[r.tab[l]] == r.ram0[r.tab[l]] {
      assert IsTable(r.ram0, r.tab[l]) && r.tab[l] in r.tab.Values;
    }
    TreeFrame(r.ram0, ram, r.root, r.tab);
  }

  /** Where the next byte goes. */
  lemma Spot(r: Range, ram: Ram, src: seq<byte>, j: nat)
    requires Apart(r) && j < r.size == |src| && Written(r, ram, src, j) && HasTable(r.tab, r.va, j)
    ensures var p := At(r, j).0; p in r.ram0 && IsTable(r.ram0, p) && IsTable(ram, p) && p !in r.tab.Values
  {
  }

  lemma EarlierByte(r: Range, ram: Ram, src: seq<byte>, j: nat, i: nat)
    requires Apart(r) && i < j < r.size == |src| && ByteIn(r, ram, src, i) && IsTable(ram, At(r, j).0)
    requires HasTable(r.tab, r.va, i) && HasTable(r.tab, r.va, j)
    ensures ByteIn(r, ram[At(r, j).0 := SetByte(ram[At(r, j).0], At(r, j).1, src[j])], src, i)
  {
    assert At(r, i) != At(r, j);
  }

  lemma OtherByte(r: Range, ram: Ram, src: seq<byte>, j: nat, p: nat, o: nat)
    requires Apart(r) && j < r.size == |src| && o < PAGE_SIZE && IsTable(r.ram0, At(r, j).0) && IsTable(ram, At(r, j).0)
    requires !Hits(r, j + 1, p, o) && (!Hits(r, j, p, o) ==> SameByte(r.ram0, ram, p, o))
    ensures SameByte(r.ram0, ram[At(r, j).0 := SetByte(ram[At(r, j).0], At(r, j).1, src[j])], p, o)
  {
    assert At(r, j) != (p, o);
    assert !Hits(r, j, p, o);
  }

  lemma BytesIn(r: Range, ram: Ram, src: seq<byte>, j: nat)
    requires Apart(r) && j < r.size == |src| && Written(r, ram, src, j) && Tables(r.tab, r.va, j + 1)
    requires IsTable(ram, At(r, j).0)
    ensures var ram' := ram[At(r, j).0 := SetByte(ram[At(r, j).0], At(r, j).1, src[j])];
            forall i: nat | i < j + 1 :: ByteIn(r, ram', src, i)
  {
    var ram' := ram[At(r, j).0 := SetByte(ram[At(r, j).0], At(r, j).1, src[j])];
    assert HasTable(r.tab, r.va, j);
    forall i: nat | i < j + 1 ensures ByteIn(r, ram', src, i) {
      if i < j {
        assert HasTable(r.tab, r.va, i);
        EarlierByte(r, ram, src, j, i);
      }
    }
  }

  lemma OutStep(r: Range, ram: Ram, src: seq<byte>, j: nat)
    requires Apart(r) && j < r.size == |src| && Written(r, ram, src, j) && Tables(r.tab, r.va, j + 1)
    ensures IsTable(ram, At(r, j).0)
    ensures Written(r, ram[At(r, j).0 := SetByte(ram[At(r, j).0], At(r, j).1, src[j])], src, j + 1)
  {
    assert HasTable(r.tab, r.va, j);
    Spot(r, ram, src, j);
    var (p, o) := At(r, j);
    var ram' := ram[p := SetByte(ram[p], o, src[j])];
    BytesIn(r, ram, src, j);
    forall q: nat, u: nat | u < PAGE_SIZE && !Hits(r, j + 1, q, u) ensures SameByte(r.ram0, ram', q, u) {
      OtherByte(r, ram, src, j, q, u);
    }
  }

  /** Storing one byte of the range; false if its table is missing. */
  method PutOne(m: Machine, root: nat, va: nat, b: byte, ghost r: Range, ghost src: seq<byte>, ghost j: nat)
      returns (ok: bool)
    requires m.Valid() && r.tab.Values !! m.Free() && Apart(r) && j < r.size == |src| && Written(r, m.ram, src, j)
    requires root == r.root && va == r.va + j && b == src[j] && Tables(r.tab, r.va, j)
    modifies m`ram, m.pm.Repr
    ensures m.Valid() && r.tab.Values !! m.Free()
    ensures ok <==> HasTable(r.tab, r.va, j)
    ensures Written(r, m.ram, src, if ok then j + 1 else j)
  {
    ghost var ram := m.ram;
    WrittenTree(r, ram, src, j);
    var pa := Translate(m, root, va, r.tab);
    if pa.None? {
      return false;
    }
    TablesNext(r.tab, r.va, j);
    OutStep(r, ram, src, j);
    var p, o := pa.value / PAGE_SIZE, pa.value % PAGE_SIZE;
    assert (p, o) == At(r, j);
    PagesAfterSet(m.ram, p, SetByte(m.ram[p], o, b), m.pm.beginPpn, m.pm.beginPpn + m.pm.numPpn);
    m.ram := m.ram[p := SetByte(m.ram[p], o, b)];
    return true;
  }

  lemma PagesAfterSet(ram: Ram, p: nat, page: Page, from: nat, to: nat)
    requires Pages(ram, from, to) && |page| == N_ENTRIES
    ensures Pages(ram[p := page], from, to)
  {
    var ram' := ram[p := page];
    forall q | from <= q < to ensures IsTable(ram', q) {
      assert IsTable(ram, q);
    }
  }

  /** vm_memcpyout: copies byte by byte and stops at the first address without a table. */
  method CopyOut(m: Machine, root: nat, va: nat, src: seq<byte>, ghost r: Range) returns (ok: bool, done: nat)
    requires m.Valid() && r.tab.Values !! m.Free() && Apart(r) && r == Range(m.ram, root, r.tab, va, |src|)
    modifies m`ram, m.pm.Repr
    ensures m.Valid() && r.tab.Values !! m.Free()
    ensures done <= |src| && Written(r, m.ram, src, done)
    ensures ok <==> done == |src|
    ensures Tables(r.tab, r.va, done) && (!ok ==> !HasTable(r.tab, r.va, done))
  {
    ok, done := true, 0;
    while ok && done < |src|
      invariant done <= |src| && m.Valid() && r.tab.Values !! m.Free()
      invariant if done <= |src| then Written(r, m.ram, src, done) else false
      invariant Tables(r.tab, r.va, done)
      invariant ok || (done < |src| && !HasTable(r.tab, r.va, done))
      decreases ok, |src| - done
    {
      ok := PutOne(m, root, va + done, src[done], r, src, done);
      if ok {
        TablesNext(r.tab, r.va, done);
        done := done + 1;
      }
    }
  }

  // ------------------------------------------------------------ vm_memcpyin

  /** Byte `i` of the range is `b`. */
  ghost predicate Holds(ram: Ram, root: nat, tab: map<Label, nat>, va: nat, i: nat, b: byte)
    requires Tree(ram, root, tab)
  {
    var (p, o) := Loc(ram, root, tab, va + i);
    IsTable(ram, p) && GetByte(ram[p], o) == b
  }

  ghost predicate Backed(ram: Ram, root: nat, tab: map<Label, nat>, va: nat, i: nat)
    requires Tree(ram, root, tab)
  {
    HasTable(tab, va, i) ==> IsTable(ram, Loc(ram, root, tab, va + i).0)
  }

  method GetOne(m: Machine, root: nat, va: nat, i: nat, ghost tab: map<Label, nat>) returns (b: Option<byte>)
    requires m.Valid() && tab.Values !! m.Free() && Tree(m.ram, root, tab) && Backed(m.ram, root, tab, va, i)
    modifies m`ram, m.pm.Repr
    ensures m.Valid() && m.ram == old(m.ram) && m.Free() == old(m.Free())
    ensures b.Some? <==> HasTable(tab, va, i)
    ensures b.Some? ==> Holds(m.ram, root, tab, va, i, b.value)
  {
    var pa := Translate(m, root, va + i, tab);
    if pa.None? {
      return None;
    }
    b := Some(GetByte(m.ram[pa.value / PAGE_SIZE], pa.value % PAGE_SIZE));
  }

  /** vm_memcpyin: the bytes of the range as physical memory holds them. */
  method CopyIn(m: Machine, root: nat, va: nat, size: nat, ghost tab: map<Label, nat>)
      returns (ok: bool, dst: seq<byte>)
    requires m.Valid() && tab.Values !! m.Free() && Tree(m.ram, root, tab)
    requires forall i: nat | i < size :: Backed(m.ram, root, tab, va, i)
    modifies m`ram, m.pm.Repr
    ensures m.Valid() && m.ram == old(m.ram) && m.Free() == old(m.Free())
    ensures ok <==> Tables(tab, va, size)
    ensures |dst| <= size && (ok ==> |dst| == size)
    ensures forall i: nat | i < |dst| :: Holds(m.ram, root, tab, va, i, dst[i])
  {
    dst := [];
    while |dst| < size
      invariant |dst| <= size
      invariant m.Valid() && m.ram == old(m.ram) && m.Free() == old(m.Free())
      invariant Tables(tab, va, |dst|)
      invariant forall i: nat | i < |dst| :: Holds(m.ram, root, tab, va, i, dst[i])
    {
      assert Backed(m.ram, root, tab, va, |dst|);
      var b := GetOne(m, root, va, |dst|, tab);
      if b.None? {
        return false, dst;
      }
      TablesNext(tab, va, |dst|);
      dst := dst + [b.value];
    }
    ok := true;
  }

  lemma ReadBack(r: Range, ram: Ram, src: seq<byte>, dst: seq<byte>)
    requires Apart(r) && r.size == |src| == |dst| && Written(r, ram, src, |src|) && Tree(ram, r.root, r.tab)
    requires forall i: nat | i < |dst| :: Holds(ram, r.root, r.tab, r.va, i, dst[i])
    ensures dst == src
  {
    WrittenTree(r, ram, src, |src|);
    forall i: nat | i < |src| ensures dst[i] == src[i] {
      assert Loc(ram, r.root, r.tab, r.va + i) == At(r, i);
      assert ByteIn(r, ram, src, i);
      assert Holds(ram, r.root, r.tab, r.va, i, dst[i]);
    }
  }

  /** What vm_memcpyout stored, vm_memcpyin reads back. */
  method OutThenIn(m: Machine, root: nat, va: nat, src: seq<byte>, ghost r: Range) returns (ok: bool, dst: seq<byte>)
    requires m.Valid() && r.tab.Values !! m.Free() && Apart(r) && r == Range(m.ram, root, r.tab, va, |src|)
    modifies m`ram, m.pm.Repr
    ensures m.Valid()
    ensures ok <==> Tables(r.tab, va, |src|)
    ensures ok ==> dst == src
  {
    var done;
    ok, done := CopyOut(m, root, va, src, r);
    dst := [];
    if ok {
      WrittenTree(r, m.ram, src, |src|);
      forall i: nat | i < |src| ensures Backed(m.ram, root, r.tab, va, i) {
        assert HasTable(r.tab, r.va, i) && ByteIn(r, m.ram, src, i);
        assert Loc(m.ram, root, r.tab, va + i) == At(r, i);
      }
      ok, dst := CopyIn(m, root, va, |src|, r.tab);
      ReadBack(r, m.ram, src, dst);
    }
  }
}
