/** The sequential writer of kernel/device/libfdt/fdt_sw.c. */
module FdtWriter {
  import opened Fdt
  import opened FdtReserve
  import opened FdtWalk
  import opened Types

  const HDRSIZE := 48 // sizeof(struct fdt_header), rounded up to reserve entries

  // ------------------------------------------------------------ layouts that grow

  ghost function Snoc(y: Layout, t: Tok, noff: nat): Layout
    requires Sized(y)
  {
    Layout(y.log + [t], y.offs + [y.offs[|y.log|] + TokLen(t)], y.noffs + [noff])
  }

  ghost predicate Same(b: seq<byte>, b': seq<byte>, q: int) {
    0 <= q < |b| && q < |b'| && b'[q] == b[q]
  }

  /** The same bytes in a range. */
  ghost predicate SameOn(b: seq<byte>, b': seq<byte>, from: nat, to: nat) {
    to <= |b| && to <= |b'| && forall q | from <= q < to :: Same(b, b', q)
  }

  lemma LoadFrame(b: seq<byte>, b': seq<byte>, p: nat)
    requires SameOn(b, b', p, p + 4)
    ensures Load32(b', p) == Load32(b, p)
  {
    assert Same(b, b', p) && Same(b, b', p + 1) && Same(b, b', p + 2) && Same(b, b', p + 3);
  }

  lemma SliceFrame(b: seq<byte>, b': seq<byte>, p: nat, q: nat)
    requires p <= q && SameOn(b, b', p, q)
    ensures b'[p..q] == b[p..q]
  {
    forall i | p <= i < q ensures b'[i] == b[i] {
      assert Same(b, b', i);
    }
  }

  lemma StrFrame(b: seq<byte>, b': seq<byte>, p: nat, s: seq<byte>)
    requires StrAt(b, p, s) && SameOn(b, b', p, p + |s| + 1)
    ensures StrAt(b', p, s)
  {
    SliceFrame(b, b', p, p + |s|);
    assert Same(b, b', p + |s|);
  }

  lemma TokFrame(b: seq<byte>, b': seq<byte>, p: nat, t: Tok, noff: nat)
    requires TokAt(b, p, t, noff) && SameOn(b, b', p, p + TokLen(t))
    ensures TokAt(b', p, t, noff)
  {
    LoadFrame(b, b', p);
    match t
    case Begin(n) =>
      Align4Facts(|n| + 1);
      StrFrame(b, b', p + 4, n);
    case Prop(_, d) =>
      Align4Facts(|d|);
      LoadFrame(b, b', p + 4);
      LoadFrame(b, b', p + 8);
      SliceFrame(b, b', p + 12, p + 12 + |d|);
    case End =>
    case Nop =>
  }

  ghost predicate SameAt(b: seq<byte>, from: nat, b': seq<byte>, to: nat, i: int) {
    0 <= i && from + i < |b| && to + i < |b'| && b'[to + i] == b[from + i]
  }

  /** `n` bytes at `from` have been moved to `to`. */
  ghost predicate Moved(b: seq<byte>, from: nat, b': seq<byte>, to: nat, n: nat) {
    from + n <= |b| && to + n <= |b'| && forall i | 0 <= i < n :: SameAt(b, from, b', to, i)
  }

  lemma MovedPart(b: seq<byte>, p: nat, b': seq<byte>, p': nat, n: nat, d: nat, m: nat)
    requires Moved(b, p, b', p', n) && d + m <= n
    ensures Moved(b, p + d, b', p' + d, m)
  {
    var q, q' := p + d, p' + d;
    forall i | 0 <= i < m ensures SameAt(b, q, b', q', i) {
      assert SameAt(b, p, b', p', d + i);
    }
  }

  lemma SliceMoved(b: seq<byte>, p: nat, b': seq<byte>, p': nat, n: nat)
    requires Moved(b, p, b', p', n)
    ensures b'[p'..p' + n] == b[p..p + n]
  {
    var s, s' := b[p..p + n], b'[p'..p' + n];
    forall i | 0 <= i < n ensures s'[i] == s[i] {
      assert SameAt(b, p, b', p', i);
    }
  }

  lemma StrMoved(b: seq<byte>, from: nat, b': seq<byte>, to: nat, n: nat, d: nat, s: seq<byte>)
    requires Moved(b, from, b', to, n) && d + |s| + 1 <= n && StrAt(b, from + d, s)
    ensures StrAt(b', to + d, s)
  {
    MovedPart(b, from, b', to, n, d, |s|);
    SliceMoved(b, from + d, b', to + d, |s|);
    assert SameAt(b, from, b', to, d + |s|);
  }

  /** Tokens already laid out stay so while the bytes up to their end stay. */
  lemma LaidFrame(h: Header, b: seq<byte>, h': Header, b': seq<byte>, y: Layout)
    requires Laid(h, b, y) && h'.offStruct == h.offStruct
    requires SameOn(b, b', h.offStruct, h.offStruct + y.offs[|y.log|])
    ensures Laid(h', b', y)
  {
    forall i | 0 <= i < |y.log| ensures TokHere(h', b', y, i) {
      assert TokHere(h, b, y, i);
      OffsMono(y, i + 1, |y.log|);
      TokFrame(b, b', h.offStruct + y.offs[i], y.log[i], y.noffs[i]);
    }
  }

  lemma SizedSnoc(y: Layout, t: Tok, noff: nat)
    requires Sized(y)
    ensures Sized(Snoc(y, t, noff)) && Snoc(y, t, noff).offs[|y.log| + 1] == y.offs[|y.log|] + TokLen(t)
  {
  }

  lemma SnocAt(y: Layout, t: Tok, noff: nat, i: nat)
    requires Sized(y) && i <= |y.log|
    ensures var y' := Snoc(y, t, noff);
            y'.offs[i] == y.offs[i] && y'.log[i] == (if i < |y.log| then y.log[i] else t) &&
            y'.noffs[i] == (if i < |y.log| then y.noffs[i] else noff)
  {
  }

  lemma LaidSnoc(h: Header, b: seq<byte>, y: Layout, t: Tok, noff: nat)
    requires Laid(h, b, y) && TokAt(b, h.offStruct + y.offs[|y.log|], t, noff)
    ensures Laid(h, b, Snoc(y, t, noff))
  {
    SizedSnoc(y, t, noff);
    var y' := Snoc(y, t, noff);
    forall i | 0 <= i < |y'.log| ensures TokHere(h, b, y', i) {
      assert i < |y.log| ==> TokHere(h, b, y, i);
      SnocAt(y, t, noff, i);
    }
  }

  // ------------------------------------------------------------ names counted from the end of the buffer

  /** The name offset that stands for `k` bytes before the end of the buffer: `-k` as a 32-bit word. */
  function Back(k: nat): nat
    requires 0 < k <= INT_MAX
  {
    U32 - k
  }

  /** The strings block grows downwards from the end: `noff` is `-k`, and the name starts `k` bytes before the end. */
  ghost predicate NameBack(h: Header, b: seq<byte>, noff: nat, name: seq<byte>) {
    && U32 - h.sizeStrings <= noff < U32 && h.sizeStrings <= h.totalsize <= |b|
    && NoNul(name) && |name| + 1 <= U32 - noff && StrAt(b, h.totalsize - (U32 - noff), name)
  }

  ghost predicate NamedBack(h: Header, b: seq<byte>, y: Layout)
    requires Sized(y)
  {
    forall i | 0 <= i < |y.log| && y.log[i].Prop? :: NameBack(h, b, y.noffs[i], y.log[i].name)
  }

  lemma NamedBackFrame(h: Header, b: seq<byte>, h': Header, b': seq<byte>, y: Layout)
    requires Sized(y) && NamedBack(h, b, y)
    requires h'.totalsize == h.totalsize <= |b'| && h.sizeStrings <= h'.sizeStrings <= h'.totalsize
    requires h.sizeStrings <= h.totalsize && SameOn(b, b', h.totalsize - h.sizeStrings, h.totalsize)
    ensures NamedBack(h', b', y)
  {
    forall i | 0 <= i < |y.log| && y.log[i].Prop? ensures NameBack(h', b', y.noffs[i], y.log[i].name) {
      assert NameBack(h, b, y.noffs[i], y.log[i].name);
      StrFrame(b, b', h.totalsize - (U32 - y.noffs[i]), y.log[i].name);
    }
  }

  lemma NamedBackSnoc(h: Header, b: seq<byte>, y: Layout, t: Tok, noff: nat)
    requires Sized(y) && NamedBack(h, b, y) && (t.Prop? ==> NameBack(h, b, noff, t.name))
    ensures Sized(Snoc(y, t, noff)) && NamedBack(h, b, Snoc(y, t, noff))
  {
    SizedSnoc(y, t, noff);
    var y' := Snoc(y, t, noff);
    forall i | 0 <= i < |y'.log| && y'.log[i].Prop? ensures NameBack(h, b, y'.noffs[i], y'.log[i].name) {
      if i < |y.log| {
        assert NameBack(h, b, y.noffs[i], y.log[i].name);
      }
    }
  }

  // ------------------------------------------------------------ the writer

  /** What may be called: memory reservations, then the structure, then nothing more. */
  datatype Phase = Reserve | Struct | Done

  ghost predicate Frame(h: Header, size: nat) {
    && h.version == LAST_SUPPORTED_VERSION && HDRSIZE <= h.totalsize <= INT_MAX && h.totalsize <= size
    && h.offRsv == HDRSIZE && h.lastComp < U32 && h.offStruct % 4 == 0 && HDRSIZE <= h.offStruct
    && h.offStruct + h.sizeStruct + h.sizeStrings <= h.totalsize
  }

  /** A structure being written: the tokens so far, with names counted from the end. */
  ghost predicate Building(h: Header, b: seq<byte>, y: Layout) {
    && h.magic == FDT_SW_MAGIC && h.offStrings == h.totalsize
    && Laid(h, b, y) && y.offs[|y.log|] == h.sizeStruct && NamedBack(h, b, y)
  }

  ghost predicate Complete(h: Header, b: seq<byte>, y: Layout) {
    && h.magic == FDT_MAGIC && h.totalsize <= |b|
    && (h.totalsize < INT_MAX ==> Finished(h, b) && Walk(h, b, 0) == Some(y.log))
  }

  /** The reservation map is `all`, and the structure begins behind it. */
  ghost predicate RsvOk(h: Header, b: seq<byte>, all: seq<Rsv>) {
    h.offRsv == HDRSIZE && h.offStruct == HDRSIZE + 16 * |all| && h.offStruct <= |b| && Listed(b, HDRSIZE, all)
  }

  /** It stays while the bytes before the structure stay. */
  lemma RsvFrame(h: Header, b: seq<byte>, h': Header, b': seq<byte>, all: seq<Rsv>)
    requires RsvOk(h, b, all) && h'.offRsv == h.offRsv && h'.offStruct == h.offStruct && SameOn(b, b', 0, h.offStruct)
    ensures RsvOk(h', b', all)
  {
    forall i | 0 <= i < |all| ensures Holds(b', HDRSIZE + 16 * i, all[i]) {
      RsvMoved(b, b', h.offStruct, HDRSIZE + 16 * i, all[i]);
    }
  }

  lemma RsvMoved(b: seq<byte>, b': seq<byte>, n: nat, p: nat, e: Rsv)
    requires SameOn(b, b', 0, n) && p + 16 <= n && Holds(b, p, e)
    ensures Holds(b', p, e)
  {
    SliceFrame(b, b', p, p + 16);
    HoldsFrame(b, b', p, e);
  }

  lemma SameHead(b: seq<byte>, b1: seq<byte>, b2: seq<byte>, n: nat)
    requires SameOn(b, b1, 0, n) && SameOn(b1, b2, 0, n)
    ensures SameOn(b, b2, 0, n)
  {
    forall q | 0 <= q < n ensures Same(b, b2, q) {
      assert Same(b, b1, q) && Same(b1, b2, q);
    }
  }

  /** One more entry. */
  lemma RsvSnoc(h: Header, b: seq<byte>, all: seq<Rsv>, b': seq<byte>, e: Rsv)
    requires RsvOk(h, b, all) && Fits64(e) && h.offStruct + 16 <= |b|
    requires b' == Patch(b, h.offStruct, Bytes64(e.addr) + Bytes64(e.size))
    ensures RsvOk(h.(offStruct := h.offStruct + 16), b', all + [e])
  {
    HoldsStored(b, b', h.offStruct, e);
    var all' := all + [e];
    forall i | 0 <= i < |all'| ensures Holds(b', HDRSIZE + 16 * i, all'[i]) {
      if i < |all| {
        RsvMoved(b, b', h.offStruct, HDRSIZE + 16 * i, all[i]);
      }
    }
  }

  /** The next token fits between structure and strings. */
  predicate Room(h: Header, len: nat) {
    h.offStruct + h.sizeStruct + len + h.sizeStrings <= h.totalsize
  }

  /** One more token behind the structure, everything else in place. */
  lemma BuildingSnoc(h: Header, b: seq<byte>, y: Layout, h': Header, b': seq<byte>, t: Tok, noff: nat)
    requires Frame(h, |b|) && Building(h, b, y) && Room(h, TokLen(t)) && |b'| == |b|
    requires h' == h.(sizeStruct := h.sizeStruct + TokLen(t))
    requires SameOn(b, b', h.offStruct, h.offStruct + h.sizeStruct)
    requires SameOn(b, b', h.totalsize - h.sizeStrings, h.totalsize)
    requires TokAt(b', h.offStruct + h.sizeStruct, t, noff) && (t.Prop? ==> NameBack(h, b', noff, t.name))
    ensures Frame(h', |b'|) && Building(h', b', Snoc(y, t, noff))
  {
    LaidFrame(h, b, h', b', y);
    LaidSnoc(h', b', y, t, noff);
    SizedSnoc(y, t, noff);
    NamedBackFrame(h, b, h', b', y);
    NamedBackSnoc(h', b', y, t, noff);
  }

  /** `s` stands with its NUL at `p`, inside the table of `size` bytes at `from`. */
  ghost predicate StringIn(b: seq<byte>, from: nat, size: nat, s: seq<byte>, p: nat) {
    from <= p && p + |s| + 1 <= from + size <= |b| && StrAt(b, p, s)
  }

  ghost function Tail(h: Header): nat
    requires h.sizeStrings <= h.totalsize
  {
    h.totalsize - h.sizeStrings
  }

  /** The name is in the strings block already and names are to be shared. */
  ghost predicate Shared(h: Header, b: seq<byte>, s: seq<byte>) {
    h.lastComp % 2 == 0 && h.sizeStrings <= h.totalsize &&
    exists p: nat :: StringIn(b, Tail(h), h.sizeStrings, s, p)
  }

  /** fdt_find_string_: the first place in the table where `s` stands with its NUL, or -1. */
  method FindString(buf: array<byte>, strtab: nat, tabsize: nat, s: seq<byte>) returns (p: int)
    requires strtab + tabsize <= buf.Length
    ensures p >= 0 ==> StringIn(buf[..], strtab, tabsize, s, p)
    ensures p >= 0 ==> forall q: nat | q < p :: !StringIn(buf[..], strtab, tabsize, s, q)
    ensures p < 0 ==> forall q: nat :: !StringIn(buf[..], strtab, tabsize, s, q)
  {
    var len := |s| + 1;
    p := strtab;
    while p <= strtab + tabsize - len
      invariant strtab <= p
      invariant forall q: nat | q < p :: !StringIn(buf[..], strtab, tabsize, s, q)
    {
      assert buf[..][p..p + |s|] == buf[p..p + |s|];
      if buf[p..p + |s|] == s && buf[p + |s|] == 0 {
        return;
      }
      p := p + 1;
    }
    p := -1;
  }

  /** The strings block, which ends where the buffer ends. */
  ghost function Block(h: Header, b: seq<byte>): seq<byte>
    requires h.sizeStrings <= h.totalsize <= |b|
  {
    b[Tail(h)..h.totalsize]
  }

  lemma BlockFrame(h: Header, b: seq<byte>, h': Header, b': seq<byte>)
    requires h.sizeStrings <= h.totalsize <= |b| && SameOn(b, b', Tail(h), h.totalsize)
    requires h'.sizeStrings == h.sizeStrings && h'.totalsize == h.totalsize <= |b'|
    ensures Block(h', b') == Block(h, b)
  {
    forall i | 0 <= i < h.sizeStrings ensures Block(h', b')[i] == Block(h, b)[i] {
      assert Same(b, b', Tail(h) + i);
    }
  }

  /** A name put in front of the strings block. */
  lemma StringAdded(h: Header, b: seq<byte>, s: seq<byte>, h': Header, b': seq<byte>)
    requires Frame(h, |b|) && Room(h, |s| + 1) && NoNul(s)
    requires h' == h.(sizeStrings := h.sizeStrings + |s| + 1) && b' == Patch(b, Tail(h'), s + [0])
    ensures Block(h', b') == s + [0] + Block(h, b) && NameBack(h', b', Back(h'.sizeStrings), s)
    ensures SameOn(b, b', 0, h.offStruct + h.sizeStruct) && SameOn(b, b', h.totalsize - h.sizeStrings, h.totalsize)
  {
    assert b'[Tail(h')..Tail(h') + |s|] == s;
  }

  /** The room test of fdt_add_string_ subtracts on wrapping numbers. It answers whether the
      string fits exactly when the strings block with the new string is no larger than the
      whole buffer; beyond that it always answers yes. */
  lemma StringGuard(total: nat, offset: nat, top: nat)
    requires total <= INT_MAX && offset < U32 && top <= total && top > 0
    ensures ((total - offset) % U32 < top <==> total < offset + top) <==> offset <= total
    ensures offset > total ==> !((total - offset) % U32 < top)
  {
    if offset > total {
      WrapNegative(total - offset);
    }
  }

  /** With the new name the strings block would be larger than the buffer. */
  predicate TooLong(h: Header, s: seq<byte>) {
    h.sizeStrings + |s| + 1 > h.totalsize
  }

  lemma WrapNegative(x: int)
    requires -U32 <= x < 0
    ensures x % U32 == x + U32
  {
  }

  /** The structure stays as written when only the gap before the strings changes. */
  lemma BuildingFrame(h: Header, b: seq<byte>, h': Header, b': seq<byte>, y: Layout)
    requires Frame(h, |b|) && Building(h, b, y) && |b'| == |b|
    requires h' == h.(sizeStrings := h'.sizeStrings) && h.sizeStrings <= h'.sizeStrings && Room(h', 0)
    requires SameOn(b, b', 0, h.offStruct + h.sizeStruct) && SameOn(b, b', h.totalsize - h.sizeStrings, h.totalsize)
    ensures Frame(h', |b'|) && Building(h', b', y)
  {
    LaidFrame(h, b, h', b', y);
    NamedBackFrame(h, b, h', b', y);
  }

  lemma AddProp(h: Header, b: seq<byte>, y: Layout, h': Header, b': seq<byte>, name: seq<byte>, data: seq<byte>,
                noff: nat)
    requires Frame(h, |b|) && Building(h, b, y) && Room(h, 12 + Align4(|data|)) && |b'| == |b|
    requires h' == h.(sizeStruct := h.sizeStruct + 12 + Align4(|data|)) && NameBack(h, b, noff, name)
    requires TokAt(b', h.offStruct + h.sizeStruct, Prop(name, data), noff)
    requires SameOn(b, b', 0, h.offStruct + h.sizeStruct)
    requires SameOn(b, b', h.offStruct + h.sizeStruct + 12 + |data|, |b|)
    ensures Frame(h', |b'|) && Building(h', b', Snoc(y, Prop(name, data), noff))
  {
    Align4Facts(|data|);
    StrFrame(b, b', h.totalsize - (U32 - noff), name);
    BuildingSnoc(h, b, y, h', b', Prop(name, data), noff);
  }

  /** Bytes that fdt_property takes from the free gap. */
  ghost function Needed(h: Header, b: seq<byte>, name: seq<byte>, data: seq<byte>): nat {
    12 + Align4(|data|) + if Shared(h, b, name) then 0 else |name| + 1
  }

  /** memcpy into the buffer. */
  method Put(buf: array<byte>, p: nat, s: seq<byte>)
    requires p + |s| <= buf.Length
    modifies buf
    ensures buf[..] == Patch(old(buf[..]), p, s)
  {
    var i := 0;
    while i < |s|
      invariant 0 <= i <= |s|
      invariant forall q | 0 <= q < buf.Length :: buf[q] == if p <= q < p + i then s[q - p] else old(buf[q])
    {
      buf[p + i] := s[i];
      i := i + 1;
    }
  }

  /** Storing `cpu_to_fdt32(w)`. */
  method Put32(buf: array<byte>, p: nat, w: nat)
    requires p + 4 <= buf.Length && w < U32
    modifies buf
    ensures buf[..] == Patch(old(buf[..]), p, Bytes32(w)) && Load32(buf[..], p) == w
  {
    Put(buf, p, Bytes32(w));
    assert buf[..][p..p + 4] == Bytes32(w);
    LoadStored(buf[..], p, w);
  }

  class Writer {
    const buf: array<byte>
    var h: Header
    ghost var y: Layout
    ghost var phase: Phase
    ghost var rsv: seq<Rsv>

    constructor (buf: array<byte>)
      ensures this.buf == buf && h.magic == 0
    {
      this.buf := buf;
      h := Header(0, 0, 0, 0, 0, 0, 0, 0, 0);
      y := Layout([], [0], []);
      phase := Done;
      rsv := [];
    }

    ghost predicate Valid()
      reads this, buf
    {
      RsvOk(h, buf[..], if phase == Reserve then rsv else rsv + [TERMINATOR]) &&
      match phase
      case Reserve =>
        && Frame(h, buf.Length) && h.magic == FDT_SW_MAGIC
        && h.offStrings == 0 && h.sizeStruct == 0 && h.sizeStrings == 0
        && y == Layout([], [0], [])
      case Struct => Frame(h, buf.Length) && Building(h, buf[..], y)
      case Done => Complete(h, buf[..], y)
    }

    /** fdt_create_with_flags */
    method Create(bufsize: int, flags: nat) returns (err: int)
      requires bufsize <= INT_MAX && bufsize <= buf.Length
      modifies this, buf
      ensures err == 0 <==> bufsize >= HDRSIZE && flags <= 1
      ensures err == 0 ==> Valid() && phase == Reserve && y.log == [] && h.totalsize == bufsize && h.lastComp == flags
      ensures err == 0 ==> h.offStruct == HDRSIZE && rsv == []
      ensures err != 0 ==> buf[..] == old(buf[..]) && h == old(h) && y == old(y)
      ensures err != 0 ==> phase == old(phase) && rsv == old(rsv)
    {
      if bufsize < HDRSIZE {
        return ERR_NOSPACE;
      }
      if flags > 1 {
        return ERR_BADFLAGS;
      }
      var i := 0;
      while i < bufsize
        invariant 0 <= i <= bufsize
      {
        buf[i] := 0;
        i := i + 1;
      }
      h := Header(FDT_SW_MAGIC, bufsize, HDRSIZE, 0, HDRSIZE, LAST_SUPPORTED_VERSION, flags, 0, 0);
      y, phase, rsv := Layout([], [0], []), Reserve, [];
      return 0;
    }

    /** fdt_add_reservemap_entry */
    method AddReserve(addr: nat, size: nat) returns (err: int)
      requires Valid() && addr < U64 && size < U64
      modifies this, buf
      ensures Valid() && phase == old(phase) && y == old(y)
      ensures rsv == if err == 0 then old(rsv) + [Rsv(addr, size)] else old(rsv)
      ensures err != 0 ==> buf[..] == old(buf[..])
      ensures err == 0 <==> phase == Reserve && old(h).offStruct + 16 <= old(h).totalsize
      ensures h == if err == 0 then old(h).(offStruct := old(h).offStruct + 16) else old(h)
    {
      err := Probe(false);
      if err != 0 {
        return;
      }
      if h.offStruct + 16 > h.totalsize {
        return ERR_NOSPACE;
      }
      PutReserve(addr, size);
    }

    /** The entry behind those already there. */
    method PutReserve(addr: nat, size: nat)
      requires RsvOk(h, buf[..], rsv) && addr < U64 && size < U64 && h.offStruct + 16 <= buf.Length
      modifies this`h, this`rsv, buf
      ensures RsvOk(h, buf[..], rsv) && rsv == old(rsv) + [Rsv(addr, size)]
      ensures h == old(h).(offStruct := old(h).offStruct + 16)
    {
      ghost var b := buf[..];
      var offset := h.offStruct;
      Put(buf, offset, Bytes64(addr) + Bytes64(size));
      RsvSnoc(h, b, rsv, buf[..], Rsv(addr, size));
      h := h.(offStruct := offset + 16);
      rsv := rsv + [Rsv(addr, size)];
    }

    /** fdt_finish_reservemap */
    method FinishReserve() returns (err: int)
      requires Valid()
      modifies this, buf
      ensures Valid() && y == old(y) && rsv == old(rsv)
      ensures err == 0 <==> old(phase) == Reserve && old(h).offStruct + 16 <= old(h).totalsize
      ensures phase == if err == 0 then Struct else old(phase)
      ensures err == 0 ==> h == old(h).(offStruct := old(h).offStruct + 16, offStrings := old(h).totalsize)
      ensures err == 0 ==> h.sizeStruct == 0 && h.sizeStrings == 0
    {
      err := AddReserve(0, 0);
      if err == 0 {
        rsv := old(rsv);
        h := h.(offStrings := h.totalsize);
        phase := Struct;
      }
    }

    /** fdt_sw_probe_memrsv_ and fdt_sw_probe_struct_. */
    method Probe(struct_: bool) returns (err: int)
      requires Valid()
      ensures err == 0 <==> phase == if struct_ then Struct else Reserve
      ensures err == 0 || err == ERR_BADSTATE
    {
      if h.magic == FDT_MAGIC {
        return ERR_BADSTATE;
      } else if h.magic != FDT_SW_MAGIC {
        return ERR_BADMAGIC;
      }
      if h.offStrings != if struct_ then h.totalsize else 0 {
        return ERR_BADSTATE;
      }
      return 0;
    }

    /** fdt_grab_space_: where the new token goes, or -1. */
    method GrabSpace(len: nat) returns (p: int)
      requires Frame(h, buf.Length)
      modifies this`h
      ensures p >= 0 <==> Room(old(h), len)
      ensures p >= 0 ==> p == h.offStruct + old(h).sizeStruct && h == old(h).(sizeStruct := old(h).sizeStruct + len)
      ensures p < 0 ==> h == old(h)
    {
      var offset := h.sizeStruct;
      var spaceleft := h.totalsize - h.offStruct - h.sizeStrings;
      if offset + len > spaceleft {
        return -1;
      }
      h := h.(sizeStruct := offset + len);
      return h.offStruct + offset;
    }

    method PutBegin(p: nat, name: seq<byte>)
      requires p + 4 + |name| + 1 <= buf.Length && NoNul(name)
      modifies buf
      ensures TokAt(buf[..], p, Begin(name), 0)
      ensures SameOn(old(buf[..]), buf[..], 0, p) && SameOn(old(buf[..]), buf[..], p + 4 + |name| + 1, buf.Length)
    {
      Put32(buf, p, FDT_BEGIN_NODE);
      ghost var b1 := buf[..];
      Put(buf, p + 4, name + [0]);
      BeginStored(b1, buf[..], p, name);
    }

    /** fdt_begin_node */
    method BeginNode(name: seq<byte>) returns (err: int)
      requires Valid() && NoNul(name)
      modifies this, buf
      ensures Valid() && phase == old(phase)
      ensures err == 0 <==> phase == Struct && Room(old(h), TokLen(Begin(name)))
      ensures err == 0 ==>
                y.log == old(y).log + [Begin(name)] && Grown(old(h), old(buf[..]), h, buf[..], TokLen(Begin(name)), [])
      ensures rsv == old(rsv)
      ensures err != 0 ==> h == old(h) && y == old(y) && buf[..] == old(buf[..])
      ensures h.sizeStrings == old(h).sizeStrings && h.totalsize == old(h).totalsize && h.lastComp == old(h).lastComp
    {
      err := Probe(true);
      if err == 0 {
        var ok := PlaceBegin(name);
        RsvFrame(old(h), old(buf[..]), h, buf[..], rsv + [TERMINATOR]);
        err := if ok then 0 else ERR_NOSPACE;
      }
    }

    /** The rest of it, in the structure phase. */
    method PlaceBegin(name: seq<byte>) returns (ok: bool)
      requires Frame(h, buf.Length) && Building(h, buf[..], y) && NoNul(name)
      modifies this`h, this`y, buf
      ensures Frame(h, buf.Length) && Building(h, buf[..], y) && SameOn(old(buf[..]), buf[..], 0, h.offStruct)
      ensures ok <==> Room(old(h), TokLen(Begin(name)))
      ensures ok ==>
                y.log == old(y).log + [Begin(name)] && Grown(old(h), old(buf[..]), h, buf[..], TokLen(Begin(name)), [])
      ensures !ok ==> h == old(h) && y == old(y) && buf[..] == old(buf[..])
    {
      ghost var h0, b0 := h, buf[..];
      var p := GrabSpace(4 + Align4(|name| + 1));
      if p < 0 {
        return false;
      }
      Align4Facts(|name| + 1);
      PutBegin(p, name);
      BuildingSnoc(h0, b0, y, h, buf[..], Begin(name), 0);
      BlockFrame(h0, b0, h, buf[..]);
      y := Snoc(y, Begin(name), 0);
      return true;
    }

    /** fdt_end_node */
    method EndNode() returns (err: int)
      requires Valid()
      modifies this, buf
      ensures Valid() && phase == old(phase)
      ensures err == 0 <==> phase == Struct && Room(old(h), TokLen(End))
      ensures err == 0 ==> y.log == old(y).log + [End] && Grown(old(h), old(buf[..]), h, buf[..], TokLen(End), [])
      ensures rsv == old(rsv)
      ensures err != 0 ==> h == old(h) && y == old(y) && buf[..] == old(buf[..])
      ensures h.sizeStrings == old(h).sizeStrings && h.totalsize == old(h).totalsize && h.lastComp == old(h).lastComp
    {
      err := Probe(true);
      if err == 0 {
        var ok := PlaceEnd();
        RsvFrame(old(h), old(buf[..]), h, buf[..], rsv + [TERMINATOR]);
        err := if ok then 0 else ERR_NOSPACE;
      }
    }

    /** The rest of it, in the structure phase. */
    method PlaceEnd() returns (ok: bool)
      requires Frame(h, buf.Length) && Building(h, buf[..], y)
      modifies this`h, this`y, buf
      ensures Frame(h, buf.Length) && Building(h, buf[..], y) && SameOn(old(buf[..]), buf[..], 0, h.offStruct)
      ensures ok <==> Room(old(h), TokLen(End))
      ensures ok ==> y.log == old(y).log + [End] && Grown(old(h), old(buf[..]), h, buf[..], TokLen(End), [])
      ensures !ok ==> h == old(h) && y == old(y) && buf[..] == old(buf[..])
    {
      ghost var h0, b0 := h, buf[..];
      var p := GrabSpace(4);
      if p < 0 {
        return false;
      }
      Put32(buf, p, FDT_END_NODE);
      BuildingSnoc(h0, b0, y, h, buf[..], End, 0);
      BlockFrame(h0, b0, h, buf[..]);
      y := Snoc(y, End, 0);
      return true;
    }

    /** fdt_add_string_: the stored name offset, or 0 if there is no room. With a name that is too
        long the test passes although there is none: `stray` says that the copy is to begin before
        the buffer, where the model stops. */
    method AddString(s: seq<byte>) returns (noff: nat, stray: bool)
      requires Frame(h, buf.Length) && NoNul(s) && |s| <= INT_MAX
      modifies this`h, buf
      ensures stray <==> TooLong(old(h), s)
      ensures !stray ==> (noff != 0 <==> Room(old(h), |s| + 1))
      ensures noff == 0 || stray ==> h == old(h) && buf[..] == old(buf[..])
      ensures noff != 0 && !stray ==> h == old(h).(sizeStrings := old(h).sizeStrings + |s| + 1)
      ensures noff != 0 && !stray ==>
                NameBack(h, buf[..], noff, s) && Block(h, buf[..]) == s + [0] + Block(old(h), old(buf[..]))
      ensures SameOn(old(buf[..]), buf[..], 0, h.offStruct + h.sizeStruct)
      ensures SameOn(old(buf[..]), buf[..], h.totalsize - old(h).sizeStrings, h.totalsize)
    {
      var offset := h.sizeStrings + |s| + 1;
      var top := h.offStruct + h.sizeStruct;
      StringGuard(h.totalsize, offset, top);
      if (h.totalsize - offset) % U32 < top {
        return 0, false;
      }
      if offset > h.totalsize {
        return 0, true;
      }
      Put(buf, h.totalsize - offset, s + [0]);
      h := h.(sizeStrings := offset);
      StringAdded(old(h), old(buf[..]), s, h, buf[..]);
      return Back(offset), false;
    }

    /** fdt_find_add_string_, or fdt_add_string_ alone when names are not to be shared. */
    method NameOffset(s: seq<byte>) returns (noff: nat, added: bool, stray: bool)
      requires Frame(h, buf.Length) && h.offStrings == h.totalsize && NoNul(s) && |s| <= INT_MAX
      modifies this`h, buf
      ensures added <==> !Shared(old(h), old(buf[..]), s)
      ensures stray <==> added && TooLong(old(h), s)
      ensures !stray ==> (noff != 0 <==> (added ==> Room(old(h), |s| + 1)))
      ensures h == if added && noff != 0 && !stray then old(h).(sizeStrings := old(h).sizeStrings + |s| + 1) else old(h)
      ensures noff != 0 && !stray ==> NameBack(h, buf[..], noff, s)
      ensures noff != 0 && !stray ==> Block(h, buf[..]) == (if added then s + [0] else []) + Block(old(h), old(buf[..]))
      ensures SameOn(old(buf[..]), buf[..], 0, h.offStruct + h.sizeStruct)
      ensures SameOn(old(buf[..]), buf[..], h.totalsize - old(h).sizeStrings, h.totalsize)
      ensures noff == 0 || stray ==> buf[..] == old(buf[..])
    {
      if h.lastComp % 2 == 0 {
        var p := FindString(buf, h.totalsize - h.sizeStrings, h.sizeStrings, s);
        if p >= 0 {
          assert StringIn(buf[..], Tail(h), h.sizeStrings, s, p);
          return Back(h.totalsize - p), false, false;
        }
      }
      noff, stray := AddString(s);
      added := true;
    }

    method PutProp(p: nat, noff: nat, name: seq<byte>, data: seq<byte>)
      requires p + 12 + |data| <= buf.Length && noff < U32 && |data| < U32
      modifies buf
      ensures TokAt(buf[..], p, Prop(name, data), noff)
      ensures SameOn(old(buf[..]), buf[..], 0, p) && SameOn(old(buf[..]), buf[..], p + 12 + |data|, buf.Length)
    {
      ghost var b0 := buf[..];
      var head := Bytes32(FDT_PROP) + Bytes32(|data|) + Bytes32(noff);
      Put(buf, p, head + data);
      PropStored(b0, buf[..], p, noff, name, data);
    }

    /** fdt_property_placeholder and fdt_property from the point where the name has an offset. */
    method PlaceProp(noff: nat, name: seq<byte>, data: seq<byte>) returns (ok: bool)
      requires Frame(h, buf.Length) && Building(h, buf[..], y) && NameBack(h, buf[..], noff, name) && |data| <= INT_MAX
      modifies this`h, this`y, buf
      ensures ok <==> Room(old(h), 12 + Align4(|data|))
      ensures Frame(h, buf.Length) && Building(h, buf[..], y)
      ensures ok ==> y.log == old(y).log + [Prop(name, data)]
      ensures ok ==> h == old(h).(sizeStruct := old(h).sizeStruct + 12 + Align4(|data|))
      ensures Block(h, buf[..]) == Block(old(h), old(buf[..])) && SameOn(old(buf[..]), buf[..], 0, h.offStruct)
      ensures !ok ==> h == old(h) && y == old(y) && buf[..] == old(buf[..])
    {
      ghost var h1, b1 := h, buf[..];
      Align4Facts(|data|);
      var p := GrabSpace(12 + Align4(|data|));
      if p < 0 {
        return false;
      }
      PutProp(p, noff, name, data);
      AddProp(h1, b1, y, h, buf[..], name, data, noff);
      BlockFrame(h1, b1, h, buf[..]);
      y := Snoc(y, Prop(name, data), noff);
      return true;
    }

    /** fdt_property: on failure the name that was added is taken back. */
    method Property(name: seq<byte>, data: seq<byte>) returns (err: int, stray: bool)
      requires Valid() && NoNul(name) && |name| <= INT_MAX && |data| <= INT_MAX
      modifies this, buf
      ensures Valid() && phase == old(phase)
      ensures stray <==> phase == Struct && !Shared(old(h), old(buf[..]), name) && TooLong(old(h), name)
      ensures !stray ==> (err == 0 <==> phase == Struct && Room(old(h), Needed(old(h), old(buf[..]), name, data)))
      ensures err == 0 && !stray ==> y.log == old(y).log + [Prop(name, data)]
      ensures err == 0 && !stray ==>
                Grown(old(h), old(buf[..]), h, buf[..], 12 + Align4(|data|),
                      if Shared(old(h), old(buf[..]), name) then [] else name + [0])
      ensures err != 0 || stray ==> h == old(h) && y == old(y)
      ensures h.totalsize == old(h).totalsize && h.lastComp == old(h).lastComp && rsv == old(rsv)
    {
      stray := false;
      err := Probe(true);
      if err == 0 {
        err, stray := AddProperty(name, data);
        RsvFrame(old(h), old(buf[..]), h, buf[..], rsv + [TERMINATOR]);
      }
    }

    /** The rest of it, in the structure phase. */
    method AddProperty(name: seq<byte>, data: seq<byte>) returns (err: int, stray: bool)
      requires Frame(h, buf.Length) && Building(h, buf[..], y)
      requires NoNul(name) && |name| <= INT_MAX && |data| <= INT_MAX
      modifies this`h, this`y, buf
      ensures Frame(h, buf.Length) && Building(h, buf[..], y)
      ensures stray <==> !Shared(old(h), old(buf[..]), name) && TooLong(old(h), name)
      ensures !stray ==> (err == 0 <==> Room(old(h), Needed(old(h), old(buf[..]), name, data)))
      ensures err == 0 && !stray ==> y.log == old(y).log + [Prop(name, data)]
      ensures err == 0 && !stray ==>
                Grown(old(h), old(buf[..]), h, buf[..], 12 + Align4(|data|),
                      if Shared(old(h), old(buf[..]), name) then [] else name + [0])
      ensures err != 0 || stray ==> h == old(h) && y == old(y)
      ensures SameOn(old(buf[..]), buf[..], 0, h.offStruct)
    {
      ghost var h0, b0 := h, buf[..];
      var noff, added;
      noff, added, stray := NameOffset(name);
      if stray || noff == 0 {
        return ERR_NOSPACE, stray;
      }
      ghost var b1 := buf[..];
      BuildingFrame(h0, b0, h, b1, y);
      var ok := PlaceProp(noff, name, data);
      SameHead(b0, b1, buf[..], h0.offStruct);
      err := 0;
      if !ok {
        if added {
          h := h.(sizeStrings := h.sizeStrings - (|name| + 1));
        }
        BuildingFrame(h0, b0, h0, b1, y);
        err := ERR_NOSPACE;
      }
    }
  }

  /** `len` bytes more of structure and `front` before the strings. */
  ghost predicate Grown(h: Header, b: seq<byte>, h': Header, b': seq<byte>, len: nat, front: seq<byte>) {
    && h' == h.(sizeStruct := h.sizeStruct + len, sizeStrings := h.sizeStrings + |front|)
    && h.sizeStrings <= h.totalsize <= |b| && h'.sizeStrings <= h.totalsize <= |b'|
    && Block(h', b') == front + Block(h, b)
  }

  lemma RootLen()
    ensures TokLen(Begin([])) == 8
  {
  }

  /** A tree with its root begun, in a buffer of 100 bytes. */
  method SmallTree() returns (w: Writer)
    ensures fresh(w) && fresh(w.buf) && w.Valid() && w.phase == Struct
    ensures w.h.totalsize == 100 && w.h.offStruct + w.h.sizeStruct == 72 && w.h.sizeStrings == 0
  {
    w := EmptyTree(100);
    RootLen();
    var err := w.BeginNode([]);
  }

  /** Nothing written yet behind an empty list of reservations. */
  method EmptyTree(size: nat) returns (w: Writer)
    requires HDRSIZE + 16 <= size <= INT_MAX
    ensures fresh(w) && fresh(w.buf) && w.Valid() && w.phase == Struct && w.y.log == [] && w.rsv == []
    ensures w.h.totalsize == size && w.h.offStruct == HDRSIZE + 16 && w.h.sizeStruct == 0 && w.h.sizeStrings == 0
  {
    var buf := new byte[size];
    w := new Writer(buf);
    var err := w.Create(size, 0);
    err := w.FinishReserve();
  }

  /** A name of 199 bytes for it: there is no room, the test lets the name through, and the copy is
      to begin before the buffer. */
  method StringGuardFails(name: seq<byte>) returns (h: Header, err: int, stray: bool)
    requires |name| == 199 && NoNul(name)
    ensures h.totalsize == 100 && h.offStruct + h.sizeStruct == 72 && h.sizeStrings == 0 && !Room(h, |name| + 1)
    ensures GuardPasses(h, |name|) && stray
  {
    var w := SmallTree();
    h := w.h;
    NoShare(h, w.buf[..], name);
    PassesAnyway(h, |name|);
    err, stray := w.Property(name, []);
  }

  /** The test of fdt_add_string_ lets a name of this length through. */
  predicate GuardPasses(h: Header, len: nat) {
    !((h.totalsize - (h.sizeStrings + len + 1)) % U32 < h.offStruct + h.sizeStruct)
  }

  lemma PassesAnyway(h: Header, len: nat)
    requires h.totalsize <= INT_MAX && 0 < h.offStruct + h.sizeStruct <= h.totalsize < h.sizeStrings + len + 1 < U32
    ensures GuardPasses(h, len)
  {
    StringGuard(h.totalsize, h.sizeStrings + len + 1, h.offStruct + h.sizeStruct);
  }

  lemma NoShare(h: Header, b: seq<byte>, name: seq<byte>)
    requires h.sizeStrings == 0
    ensures !Shared(h, b, name)
  {
  }

  lemma BeginStored(b: seq<byte>, b': seq<byte>, p: nat, name: seq<byte>)
    requires p + 4 + |name| + 1 <= |b| && NoNul(name) && Load32(b, p) == FDT_BEGIN_NODE
    requires b' == Patch(b, p + 4, name + [0])
    ensures TokAt(b', p, Begin(name), 0)
  {
    LoadFrame(b, b', p);
    assert b'[p + 4..p + 4 + |name|] == name;
  }

  lemma PropStored(b: seq<byte>, b': seq<byte>, p: nat, noff: nat, name: seq<byte>, data: seq<byte>)
    requires noff < U32 && |data| < U32 && p + 12 + |data| <= |b|
    requires b' == Patch(b, p, Bytes32(FDT_PROP) + Bytes32(|data|) + Bytes32(noff) + data)
    ensures TokAt(b', p, Prop(name, data), noff)
  {
    var s := Bytes32(FDT_PROP) + Bytes32(|data|) + Bytes32(noff) + data;
    assert s[..4] == Bytes32(FDT_PROP) && s[4..8] == Bytes32(|data|) && s[8..12] == Bytes32(noff) && s[12..] == data;
    assert b'[p..p + 4] == s[..4] && b'[p + 4..p + 8] == s[4..8] && b'[p + 8..p + 12] == s[8..12];
    assert b'[p + 12..p + 12 + |data|] == s[12..];
    LoadStored(b', p, FDT_PROP);
    LoadStored(b', p + 4, |data|);
    LoadStored(b', p + 8, noff);
  }
}
