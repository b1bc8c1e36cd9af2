/** fdt_finish of kernel/device/libfdt/fdt_sw.c: the strings block moves behind the structure
    and every name offset is rebased. */
module FdtFinish {
  import opened Fdt
  import opened FdtWalk
  import opened FdtReader
  import opened FdtReserve
  import opened FdtWriter
  import opened Types

  /** The name offset counted from the start of a strings block of `ss` bytes instead of its end. */
  function Rebase(noff: nat, ss: nat): nat {
    (noff + ss) % U32
  }

  /** The layout after the first `i` tokens have been corrected. */
  ghost function Rebased(y: Layout, i: nat, ss: nat): Layout
    requires |y.noffs| == |y.log|
  {
    y.(noffs := seq(|y.log|, j requires 0 <= j < |y.log| =>
                      if j < i && y.log[j].Prop? then Rebase(y.noffs[j], ss) else y.noffs[j]))
  }

  lemma RebasedSized(y: Layout, i: nat, ss: nat)
    requires Sized(y)
    ensures Sized(Rebased(y, i, ss))
  {
  }

  /** The bytes after the name offset of a property at `p` has been replaced. */
  lemma RenamedProp(b: seq<byte>, b': seq<byte>, p: nat, t: Tok, noff: nat, noff': nat)
    requires TokAt(b, p, t, noff) && t.Prop? && noff' < U32 && b' == Patch(b, p + 8, Bytes32(noff'))
    ensures TokAt(b', p, t, noff')
  {
    LoadFrame(b, b', p);
    LoadFrame(b, b', p + 4);
    SliceFrame(b, b', p + 12, p + 12 + |t.data|);
    assert b'[p + 8..p + 12] == Bytes32(noff');
    LoadStored(b', p + 8, noff');
  }

  /** The name offset of token `i` is outside every other token. */
  lemma OtherToken(h: Header, b: seq<byte>, b': seq<byte>, y: Layout, i: nat, j: nat, w: seq<byte>)
    requires Sized(y) && i < |y.log| && j < |y.log| && i != j && y.log[i].Prop? && |w| == 4
    requires h.offStruct + y.offs[|y.log|] <= |b| && h.offStruct + y.offs[i] + 12 <= |b|
    requires b' == Patch(b, h.offStruct + y.offs[i] + 8, w)
    ensures SameOn(b, b', h.offStruct + y.offs[j], h.offStruct + y.offs[j + 1])
  {
    OffsMono(y, j + 1, |y.log|);
    if j < i {
      OffsMono(y, j + 1, i);
    } else {
      OffsMono(y, i + 1, j);
    }
  }

  /** One turn of the correcting loop: the name offset of token `i`, if it is a property, is rebased. */
  ghost predicate Renamed(h: Header, b: seq<byte>, b': seq<byte>, y: Layout, i: nat, ss: nat)
    requires Sized(y) && i < |y.log|
  {
    && h.offStruct + y.offs[|y.log|] <= |b| && (y.log[i].Prop? ==> h.offStruct + y.offs[i] + 12 <= |b|)
    && b' == if y.log[i].Prop? then Patch(b, h.offStruct + y.offs[i] + 8, Bytes32(Rebase(y.noffs[i], ss))) else b
  }

  lemma RebaseToken(h: Header, b: seq<byte>, b': seq<byte>, y: Layout, i: nat, ss: nat, j: nat)
    requires Sized(y) && Laid(h, b, Rebased(y, i, ss)) && i < |y.log| && j < |y.log| && ss < U32
    requires Renamed(h, b, b', y, i, ss)
    ensures TokAt(b', h.offStruct + y.offs[j], y.log[j], Rebased(y, i + 1, ss).noffs[j])
  {
    var r := Rebased(y, i, ss);
    assert TokHere(h, b, r, j);
    if y.log[i].Prop? {
      if j == i {
        RenamedProp(b, b', h.offStruct + y.offs[i], y.log[i], y.noffs[i], Rebase(y.noffs[i], ss));
      } else {
        OtherToken(h, b, b', y, i, j, Bytes32(Rebase(y.noffs[i], ss)));
        TokFrame(b, b', h.offStruct + y.offs[j], y.log[j], r.noffs[j]);
      }
    }
  }

  /** Correcting token `i` leaves all other tokens as they are. */
  lemma RebaseStep(h: Header, b: seq<byte>, b': seq<byte>, y: Layout, i: nat, ss: nat)
    requires Sized(y) && Laid(h, b, Rebased(y, i, ss)) && i < |y.log| && ss < U32
    requires Renamed(h, b, b', y, i, ss)
    ensures Laid(h, b', Rebased(y, i + 1, ss))
  {
    var r' := Rebased(y, i + 1, ss);
    RebasedSized(y, i + 1, ss);
    assert r'.offs == y.offs && r'.log == y.log;
    forall j | 0 <= j < |y.log| ensures TokHere(h, b', r', j) {
      RebaseToken(h, b, b', y, i, ss, j);
    }
  }

  /** A name counted from the end of the buffer is found counted from the start of the moved block. */
  lemma MovedName(h: Header, b: seq<byte>, h': Header, b': seq<byte>, noff: nat, name: seq<byte>)
    requires NameBack(h, b, noff, name) && h'.sizeStrings == h.sizeStrings < U32
    requires Moved(b, h.totalsize - h.sizeStrings, b', h'.offStrings, h.sizeStrings)
    ensures NameIn(h', b', Rebase(noff, h.sizeStrings), name)
  {
    var k := U32 - noff;
    Wrap(noff + h.sizeStrings);
    assert Rebase(noff, h.sizeStrings) == h.sizeStrings - k;
    StrMoved(b, h.totalsize - h.sizeStrings, b', h'.offStrings, h.sizeStrings, h.sizeStrings - k, name);
  }

  lemma MovedNames(h: Header, b: seq<byte>, h': Header, b': seq<byte>, y: Layout)
    requires Sized(y) && NamedBack(h, b, y) && h'.sizeStrings == h.sizeStrings < U32 && h.sizeStrings <= h.totalsize
    requires Moved(b, h.totalsize - h.sizeStrings, b', h'.offStrings, h.sizeStrings)
    ensures Sized(Rebased(y, |y.log|, h.sizeStrings)) && Named(h', b', Rebased(y, |y.log|, h.sizeStrings))
  {
    RebasedSized(y, |y.log|, h.sizeStrings);
    forall i | 0 <= i < |y.log| && y.log[i].Prop?
      ensures NameIn(h', b', Rebase(y.noffs[i], h.sizeStrings), y.log[i].name)
    {
      MovedName(h, b, h', b', y.noffs[i], y.log[i].name);
    }
  }

  /** The state of the correcting loop after `i` tokens. */
  ghost predicate Correcting(h: Header, b: seq<byte>, y: Layout, i: nat) {
    && Words(h) && h.version >= 16 && h.totalsize <= INT_MAX && h.totalsize <= |b| && Sized(y) && i <= |y.log|
    && h.sizeStruct == y.offs[|y.log|] + 4 && h.offStruct + h.sizeStruct <= h.totalsize
    && Laid(h, b, Rebased(y, i, h.sizeStrings)) && Load32(b, h.offStruct + y.offs[|y.log|]) == FDT_END
  }

  lemma CorrectNext(h: Header, b: seq<byte>, y: Layout, i: nat)
    requires Correcting(h, b, y, i)
    ensures i < |y.log| ==> NextTag(h, b, y.offs[i]) == TagResult(TagOf(y.log[i]), y.offs[i + 1])
    ensures i == |y.log| ==> NextTag(h, b, y.offs[i]) == TagResult(FDT_END, y.offs[i] + 4)
    ensures i < |y.log| ==> h.offStruct + y.offs[i + 1] <= |b| - 4
    ensures i < |y.log| && y.log[i].Prop? ==>
              y.offs[i] + 12 <= y.offs[i + 1] && Load32(b, h.offStruct + y.offs[i] + 8) == y.noffs[i]
  {
    OffsAligned(y, i);
    if i < |y.log| {
      OffsMono(y, i + 1, |y.log|);
      var r := Rebased(y, i, h.sizeStrings);
      assert TokHere(h, b, r, i);
      NextTagAt(h, b, y.offs[i], y.log[i], y.noffs[i]);
    } else {
      WalkEnd(h, b, y.offs[i]);
    }
  }

  lemma CorrectStep(h: Header, b: seq<byte>, b': seq<byte>, y: Layout, i: nat)
    requires Correcting(h, b, y, i) && i < |y.log| && h.offStruct + y.offs[i + 1] <= |b| - 4
    requires y.log[i].Prop? ==> y.offs[i] + 12 <= y.offs[i + 1]
    requires Renamed(h, b, b', y, i, h.sizeStrings)
    ensures Correcting(h, b', y, i + 1) && SameOn(b, b', h.offStruct + h.sizeStruct, |b|)
    ensures SameOn(b, b', 0, h.offStruct)
  {
    OffsMono(y, i + 1, |y.log|);
    RebaseStep(h, b, b', y, i, h.sizeStrings);
    LoadFrame(b, b', h.offStruct + y.offs[|y.log|]);
  }

  /** The body of the correcting loop, for token `i` at `offset`. */
  method CorrectOne(w: Writer, h: Header, offset: nat, tag: nat, ghost y: Layout, ghost i: nat)
    requires Correcting(h, w.buf[..], y, i) && i < |y.log| && offset == y.offs[i] && tag == TagOf(y.log[i])
    modifies w.buf
    ensures Correcting(h, w.buf[..], y, i + 1) && SameOn(old(w.buf[..]), w.buf[..], 0, h.offStruct)
    ensures SameOn(old(w.buf[..]), w.buf[..], h.offStruct + h.sizeStruct, w.buf.Length)
  {
    ghost var b := w.buf[..];
    CorrectNext(h, b, y, i);
    if tag == FDT_PROP {
      var p := h.offStruct + offset + 8;
      var noff := Load32(w.buf[..], p);
      assert noff == y.noffs[i];
      Put32(w.buf, p, Rebase(noff, h.sizeStrings));
      CorrectStep(h, b, w.buf[..], y, i);
    } else {
      CorrectStep(h, b, b, y, i);
    }
  }

  lemma SameTrans(b: seq<byte>, b1: seq<byte>, b2: seq<byte>, from: nat, to: nat)
    requires SameOn(b, b1, from, to) && SameOn(b1, b2, from, to)
    ensures SameOn(b, b2, from, to)
  {
    forall q | from <= q < to ensures Same(b, b2, q) {
      assert Same(b, b1, q) && Same(b1, b2, q);
    }
  }

  /** The loop of fdt_finish that corrects the name offsets; returns the last `nextoffset`. */
  method Correct(w: Writer, h: Header, ghost y: Layout) returns (next: int)
    requires Correcting(h, w.buf[..], y, 0)
    modifies w.buf
    ensures next >= 0 && Correcting(h, w.buf[..], y, |y.log|) && SameOn(old(w.buf[..]), w.buf[..], 0, h.offStruct)
    ensures SameOn(old(w.buf[..]), w.buf[..], h.offStruct + h.sizeStruct, w.buf.Length)
  {
    var offset := 0;
    ghost var i := 0;
    while true
      invariant i <= |y.log| && Correcting(h, w.buf[..], y, i) && offset == y.offs[i]
      invariant SameOn(old(w.buf[..]), w.buf[..], h.offStruct + h.sizeStruct, w.buf.Length)
      invariant SameOn(old(w.buf[..]), w.buf[..], 0, h.offStruct)
      decreases |y.log| - i
    {
      CorrectNext(h, w.buf[..], y, i);
      var tag;
      tag, next := FdtNextTag(h, w.buf, offset);
      if tag == FDT_END {
        return;
      }
      ghost var b := w.buf[..];
      CorrectOne(w, h, offset, tag, y, i);
      SameTrans(old(w.buf[..]), b, w.buf[..], h.offStruct + h.sizeStruct, w.buf.Length);
      SameTrans(old(w.buf[..]), b, w.buf[..], 0, h.offStruct);
      offset, i := next, i + 1;
    }
  }

  lemma FinishStart(h: Header, b: seq<byte>, y: Layout, h': Header, b': seq<byte>)
    requires Frame(h, |b|) && Building(h, b, y) && Room(h, 4) && |b'| == |b|
    requires h' == h.(sizeStruct := h.sizeStruct + 4, offStrings := h.offStruct + h.sizeStruct + 4)
    requires SameOn(b, b', h.offStruct, h.offStruct + h.sizeStruct) && Load32(b', h.offStruct + h.sizeStruct) == FDT_END
    ensures Correcting(h', b', y, 0)
  {
    LaidFrame(h, b, h', b', y);
    assert Rebased(y, 0, h.sizeStrings) == y;
  }

  lemma FinishEnd(h: Header, b: seq<byte>, y: Layout, h1: Header, b1: seq<byte>, h': Header)
    requires Frame(h, |b|) && Building(h, b, y) && Room(h, 4) && |b1| == |b|
    requires h1 == h.(sizeStruct := h.sizeStruct + 4, offStrings := h.offStruct + h.sizeStruct + 4)
    requires Correcting(h1, b1, y, |y.log|) && Moved(b, h.totalsize - h.sizeStrings, b1, h1.offStrings, h.sizeStrings)
    requires h' == h1.(totalsize := h1.offStrings + h.sizeStrings, lastComp := LAST_COMPATIBLE_VERSION,
                       magic := FDT_MAGIC)
    ensures Complete(h', b1, y)
  {
    if h'.totalsize < INT_MAX {
      var r := Rebased(y, |y.log|, h.sizeStrings);
      MovedNames(h, b, h', b1, y);
      LaidFrame(h1, b1, h', b1, r);
      WalkLaid(h', b1, r, 0);
    }
  }

  /** The header that fdt_finish leaves. */
  function Final(h: Header): Header {
    var strings := h.offStruct + h.sizeStruct + 4;
    h.(magic := FDT_MAGIC, totalsize := strings + h.sizeStrings, offStrings := strings, sizeStruct := h.sizeStruct + 4,
       lastComp := LAST_COMPATIBLE_VERSION)
  }

  /** fdt_finish from the terminator on: `p` is its place, `h0` and `b0` the blob before. */
  method Relocate(w: Writer, p: nat, ghost h0: Header, ghost b0: seq<byte>)
    requires Frame(h0, |b0|) && Building(h0, b0, w.y) && Room(h0, 4) && w.buf[..] == b0
    requires w.h == h0.(sizeStruct := h0.sizeStruct + 4) && p == h0.offStruct + h0.sizeStruct
    modifies w`h, w.buf
    ensures Complete(w.h, w.buf[..], w.y) && w.h == Final(h0) && SameOn(b0, w.buf[..], 0, h0.offStruct)
  {
    MoveStrings(w, p);
    var h := w.h.(offStrings := w.h.offStruct + w.h.sizeStruct);
    ghost var b1 := w.buf[..];
    FinishStart(h0, b0, w.y, h, b1);
    var next := Correct(w, h, w.y);
    SameHead(b0, b1, w.buf[..], h0.offStruct);
    MovedStill(b0, h0.totalsize - h0.sizeStrings, b1, w.buf[..], h.offStrings, h.sizeStrings);
    w.h := h.(totalsize := h.offStrings + h.sizeStrings, lastComp := LAST_COMPATIBLE_VERSION, magic := FDT_MAGIC);
    FinishEnd(h0, b0, w.y, h, w.buf[..], w.h);
  }

  /** fdt_finish. Whoever walks the finished blob reads exactly the tokens that were written. */
  method Finish(w: Writer) returns (err: int)
    requires w.Valid()
    modifies w, w.buf
    ensures err == 0 <==> old(w.phase) == Struct && Room(old(w.h), 4)
    ensures w.Valid() && w.y == old(w.y) && w.rsv == old(w.rsv) && w.phase == if err == 0 then Done else old(w.phase)
    ensures err == 0 && w.h.totalsize < INT_MAX ==> Walk(w.h, w.buf[..], 0) == Some(w.y.log)
    ensures err == 0 ==> w.h == Final(old(w.h))
    ensures err != 0 ==> w.h == old(w.h) && w.buf[..] == old(w.buf[..])
  {
    err := w.Probe(true);
    if err == 0 {
      ghost var h0 := w.h;
      var p := w.GrabSpace(4);
      if p < 0 {
        err := ERR_NOSPACE;
      } else {
        Relocate(w, p, h0, w.buf[..]);
        RsvFrame(h0, old(w.buf[..]), w.h, w.buf[..], w.rsv + [TERMINATOR]);
        w.phase := Done;
      }
    }
  }

  lemma MovedStill(b: seq<byte>, from: nat, b1: seq<byte>, b2: seq<byte>, to: nat, n: nat)
    requires Moved(b, from, b1, to, n) && |b2| == |b1| && SameOn(b1, b2, to, |b1|)
    ensures Moved(b, from, b2, to, n)
  {
    forall i | 0 <= i < n ensures SameAt(b, from, b2, to, i) {
      assert SameAt(b, from, b1, to, i) && Same(b1, b2, to + i);
    }
  }

  /** The terminator at `p` and, behind it, the strings block. */
  method MoveStrings(w: Writer, p: nat)
    requires p + 4 + w.h.sizeStrings <= w.h.totalsize <= w.buf.Length
    modifies w.buf
    ensures Load32(w.buf[..], p) == FDT_END && SameOn(old(w.buf[..]), w.buf[..], 0, p)
    ensures Moved(old(w.buf[..]), w.h.totalsize - w.h.sizeStrings, w.buf[..], p + 4, w.h.sizeStrings)
  {
    ghost var b0 := w.buf[..];
    Put32(w.buf, p, FDT_END);
    ghost var b1 := w.buf[..];
    var from, n := w.h.totalsize - w.h.sizeStrings, w.h.sizeStrings;
    assert w.buf[from..from + n] == b1[from..from + n];
    Put(w.buf, p + 4, w.buf[from..from + n]);
    StringsMoved(b0, b1, w.buf[..], p, from, n);
  }

  lemma StringsMoved(b: seq<byte>, b1: seq<byte>, b2: seq<byte>, p: nat, from: nat, n: nat)
    requires p + 4 <= from && from + n <= |b| && b1 == Patch(b, p, Bytes32(FDT_END)) && Load32(b1, p) == FDT_END
    requires b2 == Patch(b1, p + 4, b1[from..from + n])
    ensures Load32(b2, p) == FDT_END && SameOn(b, b2, 0, p) && Moved(b, from, b2, p + 4, n)
  {
    LoadFrame(b1, b2, p);
    var at := p + 4;
    forall i | 0 <= i < n ensures SameAt(b, from, b2, at, i) {
      assert b1[from..from + n][i] == b[from + i];
    }
  }

  // ------------------------------------------------------------ writing a whole tree

  /** Bytes of structure for the tokens. */
  ghost function StructLen(toks: seq<Tok>): nat {
    if toks == [] then 0 else StructLen(toks[..|toks| - 1]) + TokLen(toks[|toks| - 1])
  }

  ghost predicate InBlock(block: seq<byte>, s: seq<byte>) {
    exists p: nat :: StringIn(block, 0, |block|, s, p)
  }

  /** What a token puts before the strings: its name, unless that may be shared. */
  ghost function Front(block: seq<byte>, t: Tok, share: bool): seq<byte> {
    if t.Prop? && !(share && InBlock(block, t.name)) then t.name + [0] else []
  }

  /** The strings block after the tokens. */
  ghost function BlockAfter(block: seq<byte>, toks: seq<Tok>, share: bool): seq<byte> {
    if toks == [] then block
    else
      var before := BlockAfter(block, toks[..|toks| - 1], share);
      Front(before, toks[|toks| - 1], share) + before
  }

  /** Bytes of the finished blob, for a structure that begins at `from`. */
  ghost function Total(from: nat, block: seq<byte>, toks: seq<Tok>, share: bool): nat {
    from + StructLen(toks) + |BlockAfter(block, toks, share)| + 4
  }

  lemma SnocToken(from: nat, block: seq<byte>, toks: seq<Tok>, share: bool, i: nat)
    requires i < |toks|
    ensures StructLen(toks[..i + 1]) == StructLen(toks[..i]) + TokLen(toks[i])
    ensures var before := BlockAfter(block, toks[..i], share);
            BlockAfter(block, toks[..i + 1], share) == Front(before, toks[i], share) + before
  {
    assert toks[..i + 1][..i] == toks[..i];
  }

  lemma {:induction false} TotalGrows(from: nat, block: seq<byte>, toks: seq<Tok>, share: bool, i: nat, j: nat)
    requires i <= j <= |toks|
    ensures Total(from, block, toks[..i], share) <= Total(from, block, toks[..j], share)
    decreases j - i
  {
    if i < j {
      SnocToken(from, block, toks, share, i);
      TotalGrows(from, block, toks, share, i + 1, j);
    }
  }

  /** FDT_CREATE_FLAG_NO_NAME_DEDUP is not set. */
  predicate Shares(h: Header) {
    h.lastComp % 2 == 0
  }

  /** Being shared is a matter of the strings block alone. */
  lemma SharedIn(h: Header, b: seq<byte>, s: seq<byte>)
    requires h.sizeStrings <= h.totalsize <= |b|
    ensures Shared(h, b, s) <==> Shares(h) && InBlock(Block(h, b), s)
  {
    if p: nat :| StringIn(b, Tail(h), h.sizeStrings, s, p) {
      SameString(b, Tail(h), h.sizeStrings, s, p - Tail(h));
    }
    if q: nat :| StringIn(Block(h, b), 0, h.sizeStrings, s, q) {
      SameString(b, Tail(h), h.sizeStrings, s, q);
    }
  }

  lemma SameString(b: seq<byte>, from: nat, size: nat, s: seq<byte>, q: nat)
    requires from + size <= |b| && q + |s| + 1 <= size
    ensures StringIn(b, from, size, s, from + q) <==> StringIn(b[from..from + size], 0, size, s, q)
  {
    var c, n := b[from..from + size], |s|;
    var x, z := c[q..q + n], b[from + q..from + q + n];
    forall k | 0 <= k < n ensures x[k] == z[k] {
      assert c[q + k] == b[from + q + k];
    }
    assert x == z;
  }

  predicate Writable(t: Tok) {
    match t
    case Begin(n) => NoNul(n)
    case Prop(n, d) => NoNul(n) && |n| <= INT_MAX && |d| <= INT_MAX
    case End => true
    case Nop => false
  }

  method WriteOne(w: Writer, t: Tok) returns (ok: bool)
    requires w.Valid() && w.phase == Struct && Writable(t)
    modifies w, w.buf
    ensures w.Valid() && w.phase == Struct && w.rsv == old(w.rsv)
    ensures WroteOne(ok, old(w.h), old(w.buf[..]), t, w.h, w.buf[..])
    ensures ok ==> w.y.log == old(w.y).log + [t]
  {
    match t {
      case Begin(n) =>
        var err := w.BeginNode(n);
        ok := err == 0;
      case End =>
        var err := w.EndNode();
        ok := err == 0;
      case Prop(n, d) =>
        ok := WriteProp(w, n, d);
    }
  }

  method WriteProp(w: Writer, n: seq<byte>, d: seq<byte>) returns (ok: bool)
    requires w.Valid() && w.phase == Struct && Writable(Prop(n, d))
    modifies w, w.buf
    ensures w.Valid() && w.phase == Struct && w.rsv == old(w.rsv)
    ensures WroteOne(ok, old(w.h), old(w.buf[..]), Prop(n, d), w.h, w.buf[..])
    ensures ok ==> w.y.log == old(w.y).log + [Prop(n, d)]
  {
    SharedIn(w.h, w.buf[..], n);
    var err, stray := w.Property(n, d);
    ok := err == 0 && !stray;
  }

  /** One token has been written, or there is no room for it and its name. */
  ghost predicate WroteOne(ok: bool, h: Header, b: seq<byte>, t: Tok, h': Header, b': seq<byte>)
    requires h.sizeStrings <= h.totalsize <= |b|
  {
    var front := Front(Block(h, b), t, Shares(h));
    && (ok <==> Room(h, TokLen(t) + |front|))
    && (ok ==> Grown(h, b, h', b', TokLen(t), front))
  }

  /** The state after the first `i` tokens. */
  ghost predicate Written(h0: Header, block: seq<byte>, toks: seq<Tok>, i: nat, h: Header, b: seq<byte>)
    requires i <= |toks|
  {
    && h.sizeStrings <= h.totalsize <= |b|
    && h == h0.(sizeStruct := StructLen(toks[..i]), sizeStrings := |BlockAfter(block, toks[..i], Shares(h0))|)
    && Block(h, b) == BlockAfter(block, toks[..i], Shares(h0))
  }

  lemma WrittenNext(h0: Header, block: seq<byte>, toks: seq<Tok>, i: nat, h: Header, b: seq<byte>, ok: bool, h': Header,
                    b': seq<byte>)
    requires i < |toks| && Written(h0, block, toks, i, h, b)
    requires WroteOne(ok, h, b, toks[i], h', b')
    ensures toks[..i] + [toks[i]] == toks[..i + 1]
    ensures if ok then Written(h0, block, toks, i + 1, h', b')
            else Total(h0.offStruct, block, toks, Shares(h0)) > h0.totalsize
  {
    var share := Shares(h0);
    SnocToken(h0.offStruct, block, toks, share, i);
    if !ok {
      TotalGrows(h0.offStruct, block, toks, share, i + 1, |toks|);
      assert toks[..|toks|] == toks;
    }
  }

  /** The tokens one after the other, until a call fails. */
  method WriteToks(w: Writer, toks: seq<Tok>) returns (ok: bool)
    requires w.Valid() && w.phase == Struct && w.y.log == []
    requires forall i | 0 <= i < |toks| :: Writable(toks[i])
    modifies w, w.buf
    ensures w.Valid() && w.phase == Struct && w.rsv == old(w.rsv)
    ensures ok ==> w.y.log == toks && Written(old(w.h), Block(old(w.h), old(w.buf[..])), toks, |toks|, w.h, w.buf[..])
    ensures !ok ==>
              Total(old(w.h).offStruct, Block(old(w.h), old(w.buf[..])), toks, Shares(old(w.h))) > old(w.h).totalsize
  {
    ghost var h0, block := w.h, Block(w.h, w.buf[..]);
    for i := 0 to |toks|
      invariant w.Valid() && w.phase == Struct && w.rsv == old(w.rsv)
      invariant w.y.log == toks[..i] && Written(h0, block, toks, i, w.h, w.buf[..])
    {
      ok := WriteNext(w, toks, i, h0, block);
      if !ok {
        return;
      }
    }
    assert toks[..|toks|] == toks;
    return true;
  }

  /** One of them. */
  method WriteNext(w: Writer, toks: seq<Tok>, i: nat, ghost h0: Header, ghost block: seq<byte>) returns (ok: bool)
    requires w.Valid() && w.phase == Struct && i < |toks| && Writable(toks[i])
    requires w.y.log == toks[..i] && Written(h0, block, toks, i, w.h, w.buf[..])
    modifies w, w.buf
    ensures w.Valid() && w.phase == Struct && w.rsv == old(w.rsv)
    ensures if ok then w.y.log == toks[..i + 1] && Written(h0, block, toks, i + 1, w.h, w.buf[..])
            else Total(h0.offStruct, block, toks, Shares(h0)) > h0.totalsize
  {
    ghost var h, b := w.h, w.buf[..];
    ok := WriteOne(w, toks[i]);
    WrittenNext(h0, block, toks, i, h, b, ok, w.h, w.buf[..]);
  }

  /** Writing a whole tree succeeds exactly if the finished blob fits into the buffer, and then a
      reader sees exactly `toks`. */
  method WriteAll(w: Writer, toks: seq<Tok>) returns (ok: bool)
    requires w.Valid() && w.phase == Struct && w.y.log == []
    requires forall i | 0 <= i < |toks| :: Writable(toks[i])
    modifies w, w.buf
    ensures w.Valid() && w.rsv == old(w.rsv)
    ensures ok <==>
            Total(old(w.h).offStruct, Block(old(w.h), old(w.buf[..])), toks, Shares(old(w.h))) <= old(w.h).totalsize
    ensures ok ==> w.phase == Done && w.y.log == toks
    ensures ok ==>
              var block := BlockAfter(Block(old(w.h), old(w.buf[..])), toks, Shares(old(w.h)));
              w.h == Final(old(w.h).(sizeStruct := StructLen(toks), sizeStrings := |block|))
    ensures ok && w.h.totalsize < INT_MAX ==> Walk(w.h, w.buf[..], 0) == Some(toks)
  {
    ok := WriteToks(w, toks);
    if ok {
      assert toks[..|toks|] == toks;
      var err := Finish(w);
      ok := err == 0;
    }
  }
}
