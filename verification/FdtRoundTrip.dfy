/** From fdt_create to fdt_check_full: what the sequential writer makes is what readers and checker find. */
module FdtRoundTrip {
  import opened Fdt
  import opened FdtCheck
  import opened FdtFinish
  import opened FdtReserve
  import opened FdtWalk
  import opened FdtWriter
  import opened Types

  /** The header left by fdt_finish passes fdt_check_header. */
  lemma FinalAccepted(h: Header)
    requires h.version == LAST_SUPPORTED_VERSION && h.offRsv == HDRSIZE && HDRSIZE <= h.offStruct
    requires Final(h).totalsize <= INT_MAX
    ensures Words(Final(h)) && CheckHeader(Final(h)) == 0
  {
    HeaderAccepted(Final(h));
  }

  /** A finished blob with a terminated reservation map is good exactly if its tokens are well nested. */
  lemma GoodIff(h: Header, b: seq<byte>, rs: seq<Rsv>, toks: seq<Tok>)
    requires CheckHeader(h) == 0 && h.totalsize <= |b| && Walk(h, b, 0) == Some(toks)
    requires RsvOk(h, b, rs + [TERMINATOR]) && h.offStruct <= h.totalsize
    ensures Good(h, b, h.totalsize) <==> WellNested(toks)
    ensures NumRsv(h, b, 0) == |UpToZero(rs)|
    ensures NumRsv(h, b, 0) == |rs| <==> forall i | 0 <= i < |rs| :: rs[i].size != 0
  {
    AllFoundIff(h, b, rs);
    AcceptedIff(toks);
  }

  /** What readers and fdt_check_full find in the blob. */
  ghost predicate Found(h: Header, b: seq<byte>, rs: seq<Rsv>, toks: seq<Tok>) {
    && h.totalsize <= |b| && Walk(h, b, 0) == Some(toks)
    && Listed(b, h.offRsv, rs + [TERMINATOR])
    && NumRsv(h, b, 0) == |UpToZero(rs)|
    && (NumRsv(h, b, 0) == |rs| <==> forall i | 0 <= i < |rs| :: rs[i].size != 0)
  }

  /** A finished tree is accepted by fdt_check_full exactly if its tokens are well nested. */
  method WriteThenCheck(w: Writer, toks: seq<Tok>, ghost rs: seq<Rsv>) returns (ok: bool, err: int)
    requires w.Valid() && w.phase == Struct && w.y.log == [] && w.rsv == rs
    requires forall i | 0 <= i < |toks| :: Writable(toks[i])
    modifies w, w.buf
    ensures ok <==>
            Total(old(w.h).offStruct, Block(old(w.h), old(w.buf[..])), toks, Shares(old(w.h))) <= old(w.h).totalsize
    ensures ok ==>
              w.h.totalsize == Total(old(w.h).offStruct, Block(old(w.h), old(w.buf[..])), toks, Shares(old(w.h)))
    ensures ok && w.h.totalsize < INT_MAX ==>
              Found(w.h, w.buf[..], rs, toks) && (err == 0 <==> WellNested(toks))
  {
    ghost var h0 := w.h;
    ok := WriteAll(w, toks);
    err := ERR_NOSPACE;
    if ok {
      ghost var h1 := h0.(sizeStruct := w.h.sizeStruct - 4, sizeStrings := w.h.sizeStrings);
      assert w.h == Final(h1);
      FinalAccepted(h1);
      if w.h.totalsize < INT_MAX {
        GoodIff(w.h, w.buf[..], rs, toks);
      }
      err := CheckFull(w.h, w.buf, w.h.totalsize);
    }
  }

  lemma FirstEntries(rs: seq<Rsv>, i: nat)
    requires i < |rs|
    ensures rs[..i] + [Rsv(rs[i].addr, rs[i].size)] == rs[..i + 1]
  {
  }

  /** The reservations one after the other, until a call fails. */
  method AddAll(w: Writer, rs: seq<Rsv>) returns (ok: bool)
    requires w.Valid() && w.phase == Reserve && w.rsv == [] && forall i | 0 <= i < |rs| :: Fits64(rs[i])
    modifies w, w.buf
    ensures w.Valid() && w.phase == Reserve
    ensures ok <==> old(w.h).offStruct + 16 * |rs| <= old(w.h).totalsize
    ensures ok ==> w.rsv == rs && w.h == old(w.h).(offStruct := old(w.h).offStruct + 16 * |rs|)
  {
    for i := 0 to |rs|
      invariant w.Valid() && w.phase == Reserve && w.rsv == rs[..i]
      invariant w.h == old(w.h).(offStruct := old(w.h).offStruct + 16 * i)
    {
      FirstEntries(rs, i);
      var err := w.AddReserve(rs[i].addr, rs[i].size);
      if err != 0 {
        return false;
      }
    }
    assert rs[..|rs|] == rs;
    return true;
  }

  /** Everything up to the structure. */
  method Begin(w: Writer, size: nat, flags: nat, rs: seq<Rsv>) returns (ok: bool)
    requires size <= INT_MAX && size <= w.buf.Length && flags <= 1 && forall i | 0 <= i < |rs| :: Fits64(rs[i])
    modifies w, w.buf
    ensures ok <==> HDRSIZE + 16 * (|rs| + 1) <= size
    ensures ok ==> w.Valid() && w.phase == Struct && w.y.log == [] && w.rsv == rs
    ensures ok ==>
              && w.h.offStruct == HDRSIZE + 16 * (|rs| + 1) && w.h.totalsize == size && w.h.lastComp == flags
              && w.h.sizeStrings == 0
  {
    var err := w.Create(size, flags);
    if err != 0 {
      return false;
    }
    ok := AddAll(w, rs);
    if ok {
      err := w.FinishReserve();
      ok := err == 0;
    }
  }

  lemma NoRoomAtAll(from: nat, size: nat, toks: seq<Tok>, share: bool)
    requires from > size
    ensures Total(from, [], toks, share) > size
  {
  }

  /** The strings block is still empty. */
  lemma SameTotal(h: Header, b: seq<byte>, toks: seq<Tok>, from: nat, flags: nat)
    requires h.sizeStrings == 0 && h.totalsize <= |b| && h.offStruct == from && h.lastComp == flags <= 1
    ensures Total(h.offStruct, Block(h, b), toks, Shares(h)) == Total(from, [], toks, flags == 0)
  {
    assert Block(h, b) == [];
    assert Shares(h) == (flags == 0);
  }

  /** A whole blob, from fdt_create with the reservations `rs` and the tokens `toks` to fdt_finish. It is made
      exactly if it fits into `size` bytes. Its readers then find exactly these tokens and these reservations
      (all of them, if none has size 0), and fdt_check_full accepts it exactly if the tokens are well nested. */
  method WriteTree(w: Writer, size: nat, flags: nat, rs: seq<Rsv>, toks: seq<Tok>) returns (ok: bool, err: int)
    requires size <= INT_MAX && size <= w.buf.Length && flags <= 1 && forall i | 0 <= i < |rs| :: Fits64(rs[i])
    requires forall i | 0 <= i < |toks| :: Writable(toks[i])
    modifies w, w.buf
    ensures ok <==> Total(HDRSIZE + 16 * (|rs| + 1), [], toks, flags == 0) <= size
    ensures ok ==> w.h.totalsize == Total(HDRSIZE + 16 * (|rs| + 1), [], toks, flags == 0)
    ensures ok && w.h.totalsize < INT_MAX ==> Found(w.h, w.buf[..], rs, toks) && (err == 0 <==> WellNested(toks))
  {
    ok := Begin(w, size, flags, rs);
    err := ERR_NOSPACE;
    if ok {
      SameTotal(w.h, w.buf[..], toks, HDRSIZE + 16 * (|rs| + 1), flags);
      ok, err := WriteThenCheck(w, toks, rs);
    } else {
      NoRoomAtAll(HDRSIZE + 16 * (|rs| + 1), size, toks, flags == 0);
    }
  }

  lemma RootOnly(from: nat)
    ensures StructLen([Tok.Begin([]), Tok.End]) == 12 && Total(from, [], [Tok.Begin([]), Tok.End], true) == from + 16
  {
    var toks := [Tok.Begin([]), Tok.End];
    RootLen();
    assert toks[..1] == [Tok.Begin([])] && toks[..1][..0] == [];
    assert BlockAfter([], toks[..1], true) == [];
  }

  /** An entry of size 0 hides those behind it: of two reservations none is found. */
  method HiddenReservation() returns (w: Writer, ok: bool)
    ensures fresh(w) && fresh(w.buf) && ok && w.h.totalsize <= w.buf.Length
    ensures Listed(w.buf[..], w.h.offRsv, [Rsv(4096, 0), Rsv(8192, 4096), TERMINATOR]) && NumRsv(w.h, w.buf[..], 0) == 0
  {
    var buf := new byte[200];
    w := new Writer(buf);
    var rs := [Rsv(4096, 0), Rsv(8192, 4096)];
    RootOnly(HDRSIZE + 48);
    var err;
    ok, err := WriteTree(w, 200, 0, rs, [Tok.Begin([]), Tok.End]);
    assert rs + [TERMINATOR] == [Rsv(4096, 0), Rsv(8192, 4096), TERMINATOR];
  }
}
