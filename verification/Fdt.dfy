/** The flattened device tree: layout and token reader of kernel/device/libfdt (sections 5.2 to 5.5
    of the Devicetree Specification v0.4). The reader follows the version in the header.

    A blob is its header and its bytes. The header fields are kept as a record beside the
    bytes; every offset in this model is at least the size of the header, so no other access
    touches them. */
module Fdt {
  import opened Types

  const U32 := 0x1_0000_0000
  const INT_MAX := 0x7fff_ffff

  const FDT_MAGIC := 0xd00dfeed
  const FDT_SW_MAGIC := 0x2ff20112 // ~FDT_MAGIC
  const FDT_BEGIN_NODE := 1
  const FDT_END_NODE := 2
  const FDT_PROP := 3
  const FDT_NOP := 4
  const FDT_END := 9

  const ERR_NOTFOUND := -1
  const ERR_NOSPACE := -3
  const ERR_BADOFFSET := -4
  const ERR_BADSTATE := -7
  const ERR_TRUNCATED := -8
  const ERR_BADMAGIC := -9
  const ERR_BADVERSION := -10
  const ERR_BADSTRUCTURE := -11
  const ERR_BADLAYOUT := -12
  const ERR_BADFLAGS := -18

  const HEADER_SIZE := 40 // sizeof(struct fdt_header)
  const FIRST_SUPPORTED_VERSION := 2
  const LAST_SUPPORTED_VERSION := 17
  const LAST_COMPATIBLE_VERSION := 16

  datatype Header = Header(magic: nat, totalsize: nat, offStruct: nat, offStrings: nat, offRsv: nat, version: nat,
                           lastComp: nat, sizeStrings: nat, sizeStruct: nat)

  /** Every field is an unsigned 32-bit number. */
  ghost predicate Words(h: Header) {
    && h.magic < U32 && h.totalsize < U32 && h.offStruct < U32 && h.offStrings < U32 && h.offRsv < U32
    && h.version < U32 && h.lastComp < U32 && h.sizeStrings < U32 && h.sizeStruct < U32
  }

  // ------------------------------------------------------------ bytes

  /** The big-endian word at `p`. */
  function Load32(b: seq<byte>, p: nat): (w: nat)
    requires p + 4 <= |b|
    ensures w < U32
  {
    var w0: nat, w1: nat, w2: nat, w3: nat := b[p], b[p + 1], b[p + 2], b[p + 3];
    ((w0 * 256 + w1) * 256 + w2) * 256 + w3
  }

  function Bytes32(w: nat): (s: seq<byte>)
    requires w < U32
    ensures |s| == 4
  {
    [w / 0x1000000, w / 0x10000 % 256, w / 0x100 % 256, w % 256]
  }

  /** `FDT_TAGALIGN` */
  function Align4(n: nat): nat {
    (n + 3) / 4 * 4
  }

  lemma Align4Facts(n: nat)
    ensures n <= Align4(n) < n + 4 && Align4(n) % 4 == 0
  {
  }

  /** Overwriting part of a sequence. */
  function Patch<T>(s: seq<T>, p: nat, t: seq<T>): (r: seq<T>)
    requires p + |t| <= |s|
    ensures |r| == |s|
    ensures forall i | 0 <= i < |s| :: r[i] == if p <= i < p + |t| then t[i - p] else s[i]
  {
    s[..p] + t + s[p + |t|..]
  }

  lemma LoadStored(b: seq<byte>, p: nat, w: nat)
    requires p + 4 <= |b| && w < U32
    requires b[p..p + 4] == Bytes32(w)
    ensures Load32(b, p) == w
  {
    var s := b[p..p + 4];
    assert b[p] == s[0] && b[p + 1] == s[1] && b[p + 2] == s[2] && b[p + 3] == s[3];
    Digits(w);
  }

  lemma Digits(w: nat)
    requires w < U32
    ensures ((w / 0x1000000 * 256 + w / 0x10000 % 256) * 256 + w / 0x100 % 256) * 256 + w % 256 == w
  {
    var x := w / 256;
    var y := x / 256;
    assert w / 0x10000 == y && w / 0x1000000 == y / 256;
  }

  // ------------------------------------------------------------ fdt_offset_ptr

  /** The checks of fdt_offset_ptr as written, on wrapping 32-bit numbers. */
  predicate OffsetCheck(h: Header, offset: int, len: nat) {
    if offset < 0 then false
    else
      var abs := (offset + h.offStruct) % U32;
      && !(abs < offset) && !((abs + len) % U32 < abs) && (abs + len) % U32 <= h.totalsize
      && (h.version >= 0x11 ==> !((offset + len) % U32 < offset) && (offset + len) % U32 <= h.sizeStruct)
  }

  /** What they mean: `len` bytes at `offset` lie in the blob and, if the header gives its size, in
      the structure block. */
  predicate InStruct(h: Header, offset: int, len: nat) {
    offset >= 0 && h.offStruct + offset + len <= h.totalsize && (h.version >= 0x11 ==> offset + len <= h.sizeStruct)
  }

  lemma OffsetCheckExact(h: Header, offset: int, len: nat)
    requires Words(h) && offset <= INT_MAX && len < U32
    ensures OffsetCheck(h, offset, len) <==> InStruct(h, offset, len)
  {
    if offset >= 0 {
      Wrap(offset + h.offStruct);
      var abs := (offset + h.offStruct) % U32;
      Wrap(abs + len);
      Wrap(offset + len);
    }
  }

  lemma Wrap(x: nat)
    requires x < 2 * U32
    ensures x % U32 == if x < U32 then x else x - U32
  {
  }

  // ------------------------------------------------------------ fdt_next_tag

  datatype TagResult = TagResult(tag: nat, next: int)

  /** The first NUL of the structure block at or after `off`; -1 if the block ends before. */
  function NulFrom(h: Header, b: seq<byte>, off: nat): int
    requires h.totalsize <= |b|
    decreases h.totalsize - off
  {
    if !InStruct(h, off, 1) then -1
    else if b[h.offStruct + off] == 0 then off
    else NulFrom(h, b, off + 1)
  }

  /** fdt_next_tag: the tag at `start` and the offset behind the token, or an error. */
  function NextTag(h: Header, b: seq<byte>, start: int): TagResult
    requires h.totalsize <= |b|
  {
    if !InStruct(h, start, 4) then TagResult(FDT_END, ERR_TRUNCATED)
    else
      var tag, off := Load32(b, h.offStruct + start), start + 4;
      var bad := TagResult(FDT_END, ERR_BADSTRUCTURE);
      if tag == FDT_BEGIN_NODE then
        var n := NulFrom(h, b, off);
        if n < 0 then bad else Behind(h, start, n + 1, tag)
      else if tag == FDT_PROP then
        if !InStruct(h, off, 4) then bad
        else
          var len := Load32(b, h.offStruct + off);
          if INT_MAX <= (len + off) % U32 || (len + off) % U32 < off then bad
          else Behind(h, start, off + 8 + len + Padding(h, off + 8, len), tag)
      else if tag == FDT_END || tag == FDT_END_NODE || tag == FDT_NOP then Behind(h, start, off, tag)
      else bad
  }

  /** Before version 16, values of 8 bytes or more begin at multiples of 8. */
  function Padding(h: Header, value: nat, len: nat): nat {
    if h.version < 0x10 && len >= 8 && value % 8 != 0 then 4 else 0
  }

  function Behind(h: Header, start: nat, end: nat, tag: nat): TagResult {
    if end < start || !InStruct(h, start, end - start) then TagResult(FDT_END, ERR_BADSTRUCTURE)
    else TagResult(tag, Align4(end))
  }

  lemma {:induction false} NulFromFacts(h: Header, b: seq<byte>, off: nat)
    requires h.totalsize <= |b|
    ensures var n := NulFrom(h, b, off);
            n >= 0 ==> && off <= n && InStruct(h, off, n + 1 - off) && b[h.offStruct + n] == 0
                       && forall q | h.offStruct + off <= q < h.offStruct + n :: b[q] != 0
    decreases h.totalsize - off
  {
    if InStruct(h, off, 1) && b[h.offStruct + off] != 0 {
      NulFromFacts(h, b, off + 1);
    }
  }

  /** Every walk with fdt_next_tag stays inside the structure block and moves on: whatever the
      bytes, a tag that is not an error lies inside, and the next offset is at least 4 further. */
  lemma NextTagAdvances(h: Header, b: seq<byte>, start: int)
    requires h.totalsize <= |b|
    ensures var r := NextTag(h, b, start);
            && (r.next >= 0 ==> start >= 0 && InStruct(h, start, 4) && start + 4 <= r.next && r.next % 4 == 0)
            && (r.next >= 0 ==>
                h.offStruct + r.next < h.totalsize + 4 && (h.version >= 17 ==> r.next < h.sizeStruct + 4))
            && (r.next < 0 ==> r.tag == FDT_END && (r.next == ERR_TRUNCATED || r.next == ERR_BADSTRUCTURE))
  {
    if InStruct(h, start, 4) {
      var tag, off := Load32(b, h.offStruct + start), start + 4;
      if tag == FDT_BEGIN_NODE {
        NulFromFacts(h, b, off);
      }
    }
  }

  // ------------------------------------------------------------ fdt_get_string

  /** fdt_ro_probe_: the size of the blob, or an error. */
  function RoProbe(h: Header): int {
    if h.magic == FDT_MAGIC then
      if h.version < FIRST_SUPPORTED_VERSION || h.lastComp > LAST_SUPPORTED_VERSION then ERR_BADVERSION
      else if h.totalsize < INT_MAX then h.totalsize else ERR_TRUNCATED
    else if h.magic == FDT_SW_MAGIC then
      if h.sizeStruct == 0 then ERR_BADSTATE
      else if h.totalsize < INT_MAX then h.totalsize else ERR_TRUNCATED
    else ERR_BADMAGIC
  }

  datatype StrResult = Str(pos: nat, len: nat) | NoStr(err: int)

  /** memchr for a NUL: its distance from `pos`, or -1. */
  function NulWithin(b: seq<byte>, pos: nat, n: nat): int
    requires pos + n <= |b|
    decreases n
  {
    if n == 0 then -1
    else if b[pos] == 0 then 0
    else
      var r := NulWithin(b, pos + 1, n - 1);
      if r < 0 then -1 else r + 1
  }

  /** How many bytes fdt_get_string searches for the end of the name at `stroff`; negative for an error. */
  function StringSpace(h: Header, stroff: int): int {
    var total := RoProbe(h);
    if total < 0 then total
    else
      var abs := (stroff + h.offStrings) % U32;
      if abs >= total then ERR_BADOFFSET
      else
        var len := total - abs;
        if h.magic == FDT_MAGIC then
          if stroff < 0 || (h.version >= 17 && stroff >= h.sizeStrings) then ERR_BADOFFSET
          else if h.version >= 17 && h.sizeStrings - stroff < len then h.sizeStrings - stroff else len
        else
          if stroff >= 0 || -stroff > h.sizeStrings then ERR_BADOFFSET
          else if -stroff < len then -stroff else len
  }

  /** fdt_get_string: place and length of the name at offset `stroff` of the strings block. */
  function GetString(h: Header, b: seq<byte>, stroff: int): StrResult
    requires h.totalsize <= |b|
  {
    var n := StringSpace(h, stroff);
    if n < 0 then NoStr(n)
    else
      var abs := (stroff + h.offStrings) % U32;
      var len := NulWithin(b, abs, n);
      if len < 0 then NoStr(ERR_TRUNCATED) else Str(abs, len)
  }

  lemma {:induction false} NulWithinFound(b: seq<byte>, pos: nat, n: nat, len: nat)
    requires pos + n <= |b| && len < n && b[pos + len] == 0
    requires forall q | pos <= q < pos + len :: b[q] != 0
    ensures NulWithin(b, pos, n) == len
    decreases n
  {
    if len > 0 {
      NulWithinFound(b, pos + 1, n - 1, len - 1);
    }
  }

  // ------------------------------------------------------------ tokens

  datatype Tok = Begin(name: seq<byte>) | Prop(name: seq<byte>, data: seq<byte>) | End | Nop

  function TagOf(t: Tok): nat {
    match t
    case Begin(_) => FDT_BEGIN_NODE
    case Prop(_, _) => FDT_PROP
    case End => FDT_END_NODE
    case Nop => FDT_NOP
  }

  function TokLen(t: Tok): nat {
    match t
    case Begin(n) => 4 + Align4(|n| + 1)
    case Prop(_, d) => 12 + Align4(|d|)
    case End => 4
    case Nop => 4
  }

  /** A C string: no NUL inside. */
  predicate NoNul(s: seq<byte>) {
    forall i | 0 <= i < |s| :: s[i] != 0
  }

  predicate StrAt(b: seq<byte>, p: nat, s: seq<byte>) {
    p + |s| + 1 <= |b| && b[p..p + |s|] == s && b[p + |s|] == 0
  }

  /** The bytes at `p` are the token `t`, with `nameoff` as its name offset if it is a property. */
  predicate TokAt(b: seq<byte>, p: nat, t: Tok, nameoff: nat) {
    p + 4 <= |b| && Load32(b, p) == TagOf(t) &&
    match t
    case Begin(n) => NoNul(n) && StrAt(b, p + 4, n)
    case Prop(_, d) =>
      && p + 12 + |d| <= |b| && Load32(b, p + 4) == |d| && Load32(b, p + 8) == nameoff && b[p + 12..p + 12 + |d|] == d
    case End => true
    case Nop => true
  }

  lemma {:induction false} NulFromFound(h: Header, b: seq<byte>, off: nat, len: nat)
    requires h.totalsize <= |b| && InStruct(h, off, len + 1) && b[h.offStruct + off + len] == 0
    requires forall q | h.offStruct + off <= q < h.offStruct + off + len :: b[q] != 0
    ensures NulFrom(h, b, off) == off + len
    decreases len
  {
    if len > 0 {
      NulFromFound(h, b, off + 1, len - 1);
    }
  }

  lemma StrAtBytes(b: seq<byte>, p: nat, s: seq<byte>)
    requires StrAt(b, p, s) && NoNul(s)
    ensures forall q | p <= q < p + |s| :: b[q] != 0
  {
    forall q | p <= q < p + |s| ensures b[q] != 0 {
      assert b[q] == b[p..p + |s|][q - p];
    }
  }

  lemma NextTagBegin(h: Header, b: seq<byte>, off: nat, n: seq<byte>)
    requires h.totalsize <= |b| && off % 4 == 0 && NoNul(n)
    requires InStruct(h, off, TokLen(Begin(n))) && Load32(b, h.offStruct + off) == FDT_BEGIN_NODE
    requires StrAt(b, h.offStruct + off + 4, n)
    ensures NextTag(h, b, off) == TagResult(FDT_BEGIN_NODE, off + TokLen(Begin(n)))
  {
    Align4Shift(off + 4, |n| + 1);
    StrAtBytes(b, h.offStruct + off + 4, n);
    NulFromFound(h, b, off + 4, |n|);
  }

  lemma NextTagProp(h: Header, b: seq<byte>, off: nat, d: seq<byte>)
    requires h.totalsize <= |b| && h.totalsize <= INT_MAX && h.version >= 16 && off % 4 == 0
    requires InStruct(h, off, 12 + Align4(|d|)) && Load32(b, h.offStruct + off) == FDT_PROP
    requires Load32(b, h.offStruct + off + 4) == |d|
    ensures NextTag(h, b, off) == TagResult(FDT_PROP, off + 12 + Align4(|d|))
  {
    Align4Shift(off + 12, |d|);
    Wrap(|d| + off + 4);
  }

  /** fdt_next_tag steps over a token that lies in the structure block. */
  lemma NextTagAt(h: Header, b: seq<byte>, off: nat, t: Tok, nameoff: nat)
    requires h.totalsize <= |b| && h.totalsize <= INT_MAX && h.version >= 16 && off % 4 == 0
    requires InStruct(h, off, TokLen(t)) && TokAt(b, h.offStruct + off, t, nameoff)
    ensures NextTag(h, b, off) == TagResult(TagOf(t), off + TokLen(t))
  {
    match t
    case Begin(n) => NextTagBegin(h, b, off, n);
    case Prop(_, d) => NextTagProp(h, b, off, d);
    case End => Align4Shift(off + 4, 0);
    case Nop => Align4Shift(off + 4, 0);
  }

  lemma Align4Shift(a: nat, n: nat)
    requires a % 4 == 0
    ensures Align4(a + n) == a + Align4(n) && n <= Align4(n) < n + 4
  {
  }
}
