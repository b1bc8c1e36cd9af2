/** The memory reservation map of a blob: entries of two 64-bit words, up to the first one of size 0. */
module FdtReserve {
  import opened Fdt
  import opened Types

  const U64 := U32 * U32

  datatype Rsv = Rsv(addr: nat, size: nat)

  /** The entry that ends the map. */
  const TERMINATOR := Rsv(0, 0)

  predicate Fits64(e: Rsv) { e.addr < U64 && e.size < U64 }

  /** `fdt64_ld_` */
  function Load64(b: seq<byte>, p: nat): nat
    requires p + 8 <= |b|
  {
    Load32(b, p) * U32 + Load32(b, p + 4)
  }

  /** `cpu_to_fdt64` */
  function Bytes64(w: nat): (s: seq<byte>)
    requires w < U64
    ensures |s| == 8
  {
    Bytes32(w / U32) + Bytes32(w % U32)
  }

  lemma LoadStored64(b: seq<byte>, p: nat, w: nat)
    requires p + 8 <= |b| && w < U64 && b[p..p + 8] == Bytes64(w)
    ensures Load64(b, p) == w
  {
    var s := b[p..p + 8];
    assert b[p..p + 4] == s[..4] == Bytes32(w / U32);
    assert b[p + 4..p + 8] == s[4..] == Bytes32(w % U32);
    LoadStored(b, p, w / U32);
    LoadStored(b, p + 4, w % U32);
  }

  /** Entry `e` stands at `p`. */
  ghost predicate Holds(b: seq<byte>, p: nat, e: Rsv) {
    p + 16 <= |b| && Load64(b, p) == e.addr && Load64(b, p + 8) == e.size
  }

  /** The entries `rs` stand one behind the other from `at` on. */
  ghost predicate Listed(b: seq<byte>, at: nat, rs: seq<Rsv>) {
    forall i | 0 <= i < |rs| :: Holds(b, at + 16 * i, rs[i])
  }

  lemma HoldsFrame(b: seq<byte>, b': seq<byte>, p: nat, e: Rsv)
    requires Holds(b, p, e) && p + 16 <= |b'| && b'[p..p + 16] == b[p..p + 16]
    ensures Holds(b', p, e)
  {
    forall q | p <= q < p + 16 ensures b'[q] == b[q] {
      assert b'[p..p + 16][q - p] == b[p..p + 16][q - p];
    }
  }

  lemma HoldsStored(b: seq<byte>, b': seq<byte>, p: nat, e: Rsv)
    requires p + 16 <= |b| && Fits64(e) && b' == Patch(b, p, Bytes64(e.addr) + Bytes64(e.size))
    ensures Holds(b', p, e)
  {
    var s := Bytes64(e.addr) + Bytes64(e.size);
    assert b'[p..p + 8] == s[..8] == Bytes64(e.addr);
    assert b'[p + 8..p + 16] == s[8..] == Bytes64(e.size);
    LoadStored64(b', p, e.addr);
    LoadStored64(b', p + 8, e.size);
  }

  // ------------------------------------------------------------ reading it

  /** fdt_num_mem_rsv from entry `i` on: the number of entries before the terminating one. */
  function NumRsv(h: Header, b: seq<byte>, i: nat): int
    requires h.totalsize <= |b|
    decreases h.totalsize - (h.offRsv + 16 * i)
  {
    var p := h.offRsv + 16 * i;
    if p + 16 > h.totalsize then ERR_TRUNCATED
    else if Load64(b, p + 8) == 0 then i
    else NumRsv(h, b, i + 1)
  }

  /** fdt_num_mem_rsv */
  method CountRsv(h: Header, buf: array<byte>) returns (n: int)
    requires h.totalsize <= buf.Length
    ensures n == NumRsv(h, buf[..], 0)
  {
    n := 0;
    while h.offRsv + 16 * n + 16 <= h.totalsize
      invariant n >= 0 && NumRsv(h, buf[..], 0) == NumRsv(h, buf[..], n)
    {
      if Load64(buf[..], h.offRsv + 16 * n + 8) == 0 {
        return;
      }
      n := n + 1;
    }
    n := ERR_TRUNCATED;
  }

  /** fdt_get_mem_rsv */
  method GetRsv(h: Header, buf: array<byte>, n: nat) returns (e: Option<Rsv>)
    requires h.totalsize <= buf.Length
    ensures e.Some? <==> h.offRsv + 16 * n + 16 <= h.totalsize
    ensures e.Some? ==> Holds(buf[..], h.offRsv + 16 * n, e.value)
  {
    var p := h.offRsv + 16 * n;
    if p + 16 > h.totalsize {
      return None;
    }
    return Some(Rsv(Load64(buf[..], p), Load64(buf[..], p + 8)));
  }

  /** The entries before the first one of size 0. */
  function UpToZero(rs: seq<Rsv>): (r: seq<Rsv>)
    ensures r <= rs && (|r| == |rs| <==> forall i | 0 <= i < |rs| :: rs[i].size != 0)
  {
    if rs == [] || rs[0].size == 0 then [] else [rs[0]] + UpToZero(rs[1..])
  }

  lemma ListedAt(b: seq<byte>, at: nat, rs: seq<Rsv>, i: nat)
    requires Listed(b, at, rs + [TERMINATOR]) && i <= |rs|
    ensures Holds(b, at + 16 * i, if i < |rs| then rs[i] else TERMINATOR)
  {
    var all := rs + [TERMINATOR];
    assert Holds(b, at + 16 * i, all[i]);
  }

  /** The number of entries found is that of the entries before the first one of size 0. */
  lemma {:induction false} CountListed(h: Header, b: seq<byte>, rs: seq<Rsv>, i: nat)
    requires h.totalsize <= |b| && Listed(b, h.offRsv, rs + [TERMINATOR]) && i <= |rs|
    requires h.offRsv + 16 * (|rs| + 1) <= h.totalsize
    ensures NumRsv(h, b, i) == i + |UpToZero(rs[i..])|
    decreases |rs| - i
  {
    ListedAt(b, h.offRsv, rs, i);
    if i < |rs| {
      var rest := rs[i..];
      assert rest[0] == rs[i] && rest[1..] == rs[i + 1..];
      CountListed(h, b, rs, i + 1);
    }
  }

  /** All entries of a terminated list are found exactly if none has size 0. */
  lemma AllFoundIff(h: Header, b: seq<byte>, rs: seq<Rsv>)
    requires h.totalsize <= |b| && Listed(b, h.offRsv, rs + [TERMINATOR]) && h.offRsv + 16 * (|rs| + 1) <= h.totalsize
    ensures NumRsv(h, b, 0) == |rs| <==> forall i | 0 <= i < |rs| :: rs[i].size != 0
    ensures NumRsv(h, b, 0) == |UpToZero(rs)|
  {
    CountListed(h, b, rs, 0);
    assert rs[0..] == rs;
  }
}
