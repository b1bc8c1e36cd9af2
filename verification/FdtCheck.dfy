/** fdt_check_header and fdt_check_full of kernel/device/libfdt: what an accepted blob is like. */
module FdtCheck {
  import opened Fdt
  import opened FdtWalk
  import opened FdtReader
  import opened FdtReserve
  import opened Types

  /** check_off_ */
  predicate CheckOff(hdrsize: nat, total: nat, off: nat) {
    off >= hdrsize && off <= total
  }

  /** check_block_, on wrapping numbers. */
  predicate CheckBlock(hdrsize: nat, total: nat, base: nat, size: nat) {
    CheckOff(hdrsize, total, base) && !((base + size) % U32 < base) && CheckOff(hdrsize, total, (base + size) % U32)
  }

  lemma CheckBlockExact(hdrsize: nat, total: nat, base: nat, size: nat)
    requires total < U32 && base < U32 && size < U32
    ensures CheckBlock(hdrsize, total, base, size) <==> hdrsize <= base && base + size <= total
  {
    Wrap(base + size);
  }

  /** fdt_header_size_ */
  function HeaderSize(version: nat): nat {
    if version <= 1 then 28 else if version <= 2 then 32 else if version <= 16 then 36 else 40
  }

  /** The fields of the header, of one word each, that a blob of this version has. */
  function Fields(version: nat): seq<string> {
    ["magic", "totalsize", "off_dt_struct", "off_dt_strings", "off_mem_rsvmap", "version", "last_comp_version"] +
    (if version >= 2 then ["boot_cpuid_phys"] else []) +
    (if version >= 3 then ["size_dt_strings"] else []) +
    (if version >= 17 then ["size_dt_struct"] else [])
  }

  lemma HeaderSizeIs(version: nat)
    ensures HeaderSize(version) == 4 * |Fields(version)|
  {
  }

  /** fdt_check_header */
  function CheckHeader(h: Header): int {
    var size := HeaderSize(h.version);
    if h.magic != FDT_MAGIC then ERR_BADMAGIC
    else if h.version < FIRST_SUPPORTED_VERSION || h.lastComp > LAST_SUPPORTED_VERSION then ERR_BADVERSION
    else if h.version < h.lastComp then ERR_BADVERSION
    else if h.totalsize < size || h.totalsize > INT_MAX then ERR_TRUNCATED
    else if !CheckOff(size, h.totalsize, h.offRsv) then ERR_TRUNCATED
    else if h.version < 17 && !CheckOff(size, h.totalsize, h.offStruct) then ERR_TRUNCATED
    else if h.version >= 17 && !CheckBlock(size, h.totalsize, h.offStruct, h.sizeStruct) then ERR_TRUNCATED
    else if !CheckBlock(size, h.totalsize, h.offStrings, h.sizeStrings) then ERR_TRUNCATED
    else 0
  }

  /** A header of any version is accepted exactly if the version is supported and both blocks lie
      between the header and the end of the blob, as far as their sizes are known. */
  lemma HeaderAccepted(h: Header)
    requires Words(h)
    ensures CheckHeader(h) == 0 <==>
            && h.magic == FDT_MAGIC && FIRST_SUPPORTED_VERSION <= h.version && h.lastComp <= LAST_SUPPORTED_VERSION
            && h.lastComp <= h.version && HeaderSize(h.version) <= h.offRsv <= h.totalsize <= INT_MAX
            && HeaderSize(h.version) <= h.offStruct
            && h.offStruct + (if h.version >= 17 then h.sizeStruct else 0) <= h.totalsize
            && HeaderSize(h.version) <= h.offStrings && h.offStrings + h.sizeStrings <= h.totalsize
  {
    CheckBlockExact(HeaderSize(h.version), h.totalsize, h.offStruct, h.sizeStruct);
    CheckBlockExact(HeaderSize(h.version), h.totalsize, h.offStrings, h.sizeStrings);
  }

  // ------------------------------------------------------------ well-nested token sequences

  /** What fdt_check_full asks of the tokens from a point on, given the depth there and whether
      the root node has been closed already. */
  predicate Accepts(ts: seq<Tok>, depth: nat, closed: bool) {
    if ts == [] then depth == 0
    else if closed then false
    else
      match ts[0]
      case Begin(n) => (depth == 0 ==> n == []) && Accepts(ts[1..], depth + 1, false)
      case End => depth > 0 && Accepts(ts[1..], depth - 1, depth == 1)
      case Prop(_, _) => Accepts(ts[1..], depth, false)
      case Nop => Accepts(ts[1..], depth, false)
  }

  /** Nodes open after the first `k` tokens. */
  function Depth(ts: seq<Tok>, k: nat): int
    requires k <= |ts|
  {
    if k == 0 then 0
    else Depth(ts, k - 1) + match ts[k - 1] case Begin(_) => 1 case End => -1 case _ => 0
  }

  lemma {:induction false} DepthTail(ts: seq<Tok>, k: nat)
    requires 0 < k <= |ts|
    ensures Depth(ts, k) == Depth(ts, 1) + Depth(ts[1..], k - 1)
  {
    if k > 1 {
      DepthTail(ts, k - 1);
      assert ts[1..][k - 2] == ts[k - 1];
    }
  }

  /** Accepted tokens are well nested: the depth never falls below zero, ends at zero, and every
      node opened at depth zero has an empty name. */
  lemma {:induction false} AcceptedNested(ts: seq<Tok>, depth: nat, closed: bool, k: nat)
    requires Accepts(ts, depth, closed) && k <= |ts|
    ensures depth + Depth(ts, k) >= 0 && depth + Depth(ts, |ts|) == 0
    ensures k < |ts| && ts[k].Begin? && depth + Depth(ts, k) == 0 ==> ts[k].name == []
    decreases |ts|
  {
    if ts != [] {
      var d' := match ts[0] case Begin(_) => depth + 1 case End => depth - 1 case _ => depth;
      var c' := ts[0].End? && depth == 1;
      assert Depth(ts, 1) == d' - depth by { assert Depth(ts, 0) == 0; }
      DepthTail(ts, |ts|);
      if k == 0 {
        AcceptedNested(ts[1..], d', c', 0);
      } else {
        DepthTail(ts, k);
        AcceptedNested(ts[1..], d', c', k - 1);
      }
    }
  }

  /** ... and there is at most one top-level node: once the root is closed nothing follows. */
  lemma {:induction false} AcceptedOneRoot(ts: seq<Tok>, depth: nat, closed: bool, i: nat, j: nat)
    requires Accepts(ts, depth, closed) && i < j < |ts| && ts[i].Begin? && ts[j].Begin?
    ensures !(depth + Depth(ts, i) == 0 && depth + Depth(ts, j) == 0)
    decreases |ts|
  {
    var d' := match ts[0] case Begin(_) => depth + 1 case End => depth - 1 case _ => depth;
    var c' := ts[0].End? && depth == 1;
    assert Depth(ts, 1) == d' - depth by { assert Depth(ts, 0) == 0; }
    DepthTail(ts, j);
    if i == 0 {
      if depth == 0 {
        StaysOpen(ts[1..], 1, j - 1);
      }
    } else {
      DepthTail(ts, i);
      AcceptedOneRoot(ts[1..], d', c', i - 1, j - 1);
    }
  }

  /** Inside the root node the depth is positive until the last token. */
  lemma {:induction false} StaysOpen(ts: seq<Tok>, depth: nat, k: nat)
    requires Accepts(ts, depth, false) && depth > 0 && k < |ts|
    ensures depth + Depth(ts, k) > 0
    decreases |ts|
  {
    if k > 0 {
      var d' := match ts[0] case Begin(_) => depth + 1 case End => depth - 1 case _ => depth;
      assert Depth(ts, 1) == d' - depth by { assert Depth(ts, 0) == 0; }
      DepthTail(ts, k);
      if d' > 0 {
        StaysOpen(ts[1..], d', k - 1);
      }
    }
  }

  /** Position `k` of tokens that begin at depth `depth`: the depth there is not negative, a node that begins at
      depth zero has an empty name, and an end that leads to depth zero is the last token. */
  ghost predicate NestedAt(ts: seq<Tok>, depth: nat, k: nat)
    requires k <= |ts|
  {
    && depth + Depth(ts, k) >= 0
    && (k < |ts| && ts[k].Begin? && depth + Depth(ts, k) == 0 ==> ts[k].name == [])
    && (k > 0 && ts[k - 1].End? && depth + Depth(ts, k) == 0 ==> k == |ts|)
  }

  /** One well-nested tree whose root has an empty name. */
  ghost predicate WellNested(ts: seq<Tok>) {
    Depth(ts, |ts|) == 0 && forall k | 0 <= k <= |ts| :: NestedAt(ts, 0, k)
  }

  ghost predicate NestedFrom(ts: seq<Tok>, depth: nat, closed: bool) {
    && (closed ==> ts == []) && depth + Depth(ts, |ts|) == 0
    && forall k | 0 <= k <= |ts| :: NestedAt(ts, depth, k)
  }

  function After(t: Tok, depth: nat): int {
    match t case Begin(_) => depth + 1 case End => depth - 1 case _ => depth
  }

  lemma NestedTail(ts: seq<Tok>, depth: nat, k: nat)
    requires ts != [] && k < |ts| && After(ts[0], depth) >= 0
    ensures depth + Depth(ts, k + 1) == After(ts[0], depth) + Depth(ts[1..], k)
    ensures NestedAt(ts, depth, k + 1) <==>
            && NestedAt(ts[1..], After(ts[0], depth), k)
            && (k == 0 && ts[0].End? && depth == 1 ==> |ts| == 1)
  {
    assert Depth(ts, 1) == After(ts[0], depth) - depth by { assert Depth(ts, 0) == 0; }
    DepthTail(ts, k + 1);
  }

  lemma NestedStep(ts: seq<Tok>, depth: nat)
    requires ts != [] && After(ts[0], depth) >= 0
    ensures NestedFrom(ts, depth, false) <==>
            && (ts[0].Begin? && depth == 0 ==> ts[0].name == [])
            && NestedFrom(ts[1..], After(ts[0], depth), ts[0].End? && depth == 1)
  {
    var d, rest := After(ts[0], depth), ts[1..];
    NestedTail(ts, depth, |ts| - 1);
    if NestedFrom(ts, depth, false) {
      assert NestedAt(ts, depth, 0);
      NestedTail(ts, depth, 0);
      assert NestedAt(ts, depth, 1);
      forall k | 0 <= k <= |rest| ensures NestedAt(rest, d, k) {
        NestedTail(ts, depth, k);
        assert NestedAt(ts, depth, k + 1);
      }
    }
    if NestedFrom(rest, d, ts[0].End? && depth == 1) && (ts[0].Begin? && depth == 0 ==> ts[0].name == []) {
      forall k | 0 <= k <= |ts| ensures NestedAt(ts, depth, k) {
        if k > 0 {
          NestedTail(ts, depth, k - 1);
          assert NestedAt(rest, d, k - 1);
        }
      }
    }
  }

  /** The walk accepts exactly the well-nested tokens. */
  lemma {:induction false} AcceptsFrom(ts: seq<Tok>, depth: nat, closed: bool)
    ensures Accepts(ts, depth, closed) <==> NestedFrom(ts, depth, closed)
    decreases |ts|
  {
    if ts != [] && !closed {
      if After(ts[0], depth) >= 0 {
        NestedStep(ts, depth);
        AcceptsFrom(ts[1..], After(ts[0], depth), ts[0].End? && depth == 1);
      } else {
        assert Depth(ts, 1) == -1 by { assert Depth(ts, 0) == 0; }
        assert !NestedAt(ts, depth, 1);
      }
    }
  }

  lemma AcceptedIff(ts: seq<Tok>)
    ensures Accepts(ts, 0, false) <==> WellNested(ts)
  {
    AcceptsFrom(ts, 0, false);
  }

  // ------------------------------------------------------------ fdt_check_full

  /** The rest of the walk of fdt_check_full succeeds: the tokens from `off` on are readable and acceptable. */
  ghost predicate GoodFrom(h: Header, b: seq<byte>, off: nat, depth: nat, closed: bool)
    requires h.totalsize <= |b|
  {
    Walk(h, b, off).Some? && Accepts(Walk(h, b, off).value, depth, closed)
  }

  /** What GoodFrom means in terms of the token at `off`. */
  ghost predicate GoodHere(h: Header, b: seq<byte>, off: nat, depth: nat, closed: bool)
    requires h.totalsize <= |b|
  {
    var r := NextTag(h, b, off);
    r.next >= 0 &&
    if r.tag == FDT_END then depth == 0
    else
      && !closed && ReadTok(h, b, off, r.tag).Some?
      && match ReadTok(h, b, off, r.tag).value
         case Begin(n) => (depth == 0 ==> n == []) && GoodFrom(h, b, r.next, depth + 1, false)
         case End => depth > 0 && GoodFrom(h, b, r.next, depth - 1, depth == 1)
         case _ => GoodFrom(h, b, r.next, depth, false)
  }

  lemma GoodStep(h: Header, b: seq<byte>, off: nat, depth: nat, closed: bool)
    requires h.totalsize <= |b|
    ensures GoodFrom(h, b, off, depth, closed) <==> GoodHere(h, b, off, depth, closed)
  {
    NextTagAdvances(h, b, off);
    var r := NextTag(h, b, off);
    if r.tag != FDT_END && ReadTok(h, b, off, r.tag).Some? {
      var t := ReadTok(h, b, off, r.tag).value;
      if Walk(h, b, r.next).Some? {
        var ts := Walk(h, b, r.next).value;
        assert ([t] + ts)[1..] == ts;
      }
    }
  }

  /** When a token can be read, as the loop finds out. */
  lemma Readable(h: Header, b: seq<byte>, off: nat)
    requires h.totalsize <= |b| && NextTag(h, b, off).next >= 0
    ensures var tag := NextTag(h, b, off).tag;
            && (tag == FDT_BEGIN_NODE ==>
                  && h.offStruct + off + 4 < |b|
                  && ReadTok(h, b, off, tag).Some? && ReadTok(h, b, off, tag).value.Begin?
                  && (ReadTok(h, b, off, tag).value.name == [] <==> b[h.offStruct + off + 4] == 0))
            && (tag == FDT_PROP ==>
                  && h.offStruct + off + 12 <= |b|
                  && (ReadTok(h, b, off, tag).Some? <==> GetString(h, b, ToInt(Load32(b, h.offStruct + off + 8))).Str?)
                  && (ReadTok(h, b, off, tag).Some? ==> ReadTok(h, b, off, tag).value.Prop?))
            && (tag == FDT_BEGIN_NODE || tag == FDT_END_NODE || tag == FDT_PROP || tag == FDT_NOP || tag == FDT_END)
  {
    NextTagAdvances(h, b, off);
    if NextTag(h, b, off).tag == FDT_BEGIN_NODE {
      NulFromFacts(h, b, off + 4);
    }
  }

  /** The body of the loop of fdt_check_full for the token at `off`: go on with the new depth, or stop. */
  datatype Verdict = Accept | Reject(err: int) | Continue(depth: nat, closed: bool)

  method CheckToken(h: Header, buf: array<byte>, off: nat, tag: nat, next: int, depth: nat, closed: bool)
      returns (v: Verdict)
    requires h.totalsize <= buf.Length && TagResult(tag, next) == NextTag(h, buf[..], off) && depth < INT_MAX
    ensures v.Accept? ==> GoodFrom(h, buf[..], off, depth, closed)
    ensures v.Reject? ==> v.err < 0 && (RoProbe(h) >= 0 ==> !GoodFrom(h, buf[..], off, depth, closed))
    ensures v.Continue? ==> next >= 0 && tag != FDT_END && v.depth <= depth + 1
    ensures v.Continue? ==>
              (GoodFrom(h, buf[..], off, depth, closed) <==> GoodFrom(h, buf[..], next, v.depth, v.closed))
  {
    GoodStep(h, buf[..], off, depth, closed);
    NextTagAdvances(h, buf[..], off);
    if next < 0 {
      return Reject(next);
    }
    if closed && tag != FDT_END {
      return Reject(ERR_BADSTRUCTURE);
    }
    Readable(h, buf[..], off);
    if tag == FDT_NOP {
      return Continue(depth, false);
    } else if tag == FDT_END {
      return if depth != 0 then Reject(ERR_BADSTRUCTURE) else Accept;
    } else if tag == FDT_BEGIN_NODE {
      if depth == 0 {
        if RoProbe(h) < 0 {
          return Reject(RoProbe(h));
        }
        if buf[h.offStruct + off + 4] != 0 {
          return Reject(ERR_BADSTRUCTURE);
        }
      }
      return Continue(depth + 1, false);
    } else if tag == FDT_END_NODE {
      return if depth == 0 then Reject(ERR_BADSTRUCTURE) else Continue(depth - 1, depth == 1);
    } else {
      var name := FdtGetString(h, buf, ToInt(Load32(buf[..], h.offStruct + off + 8)));
      if name.NoStr? {
        NoStringError(h, buf[..], ToInt(Load32(buf[..], h.offStruct + off + 8)));
        return Reject(name.err);
      }
      return Continue(depth, false);
    }
  }

  lemma NoStringError(h: Header, b: seq<byte>, stroff: int)
    requires h.totalsize <= |b| && GetString(h, b, stroff).NoStr?
    ensures GetString(h, b, stroff).err < 0
  {
  }

  ghost predicate Good(h: Header, b: seq<byte>, bufsize: nat)
    requires h.totalsize <= |b|
  {
    CheckHeader(h) == 0 && h.totalsize <= bufsize && NumRsv(h, b, 0) >= 0 && GoodFrom(h, b, 0, 0, false)
  }

  /** fdt_check_full. A blob it accepts has an acceptable header, a terminated reservation map and
      an acceptable token sequence; and every such blob is accepted, if it is smaller than INT_MAX. */
  method CheckFull(h: Header, buf: array<byte>, bufsize: nat) returns (err: int)
    requires Words(h) && h.version >= 16 && h.totalsize <= buf.Length && bufsize <= buf.Length
    ensures err <= 0
    ensures err == 0 ==> Good(h, buf[..], bufsize)
    ensures h.totalsize < INT_MAX && Good(h, buf[..], bufsize) ==> err == 0
  {
    if bufsize < HeaderSize(1) || bufsize < HeaderSize(h.version) {
      return ERR_TRUNCATED;
    }
    err := CheckHeader(h);
    if err != 0 {
      return;
    }
    HeaderAccepted(h);
    if bufsize < h.totalsize {
      return ERR_TRUNCATED;
    }
    var n := CountRsv(h, buf);
    if n < 0 {
      return ERR_TRUNCATED;
    }
    var offset, depth, closed := 0, 0, false;
    while true
      invariant 4 * depth <= offset && h.offStruct + offset < h.totalsize + 4
      invariant GoodFrom(h, buf[..], 0, 0, false) <==> GoodFrom(h, buf[..], offset, depth, closed)
      decreases h.totalsize + 4 - offset
    {
      var tag, next := FdtNextTag(h, buf, offset);
      NextTagAdvances(h, buf[..], offset);
      var v := CheckToken(h, buf, offset, tag, next, depth, closed);
      match v
      case Accept => return 0;
      case Reject(e) => return e;
      case Continue(d, c) => offset, depth, closed := next, d, c;
    }
  }
}
