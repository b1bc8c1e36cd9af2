/** The properties of a node, as fdt_getprop of kernel/device/libfdt/fdt_ro.c finds them. */
module FdtProps {
  import opened Fdt
  import opened FdtWalk
  import opened FdtReader
  import opened Types

  // ------------------------------------------------------------ on tokens

  datatype Sought = Found(at: nat) | Absent | Unended

  /** The first property called `name` among the properties from token `j` on, up to the next
      token that is neither a property nor a no-op. */
  function Seek(log: seq<Tok>, j: nat, name: seq<byte>): (r: Sought)
    requires j <= |log|
    ensures r.Found? ==> j <= r.at < |log| && log[r.at].Prop? && log[r.at].name == name
    decreases |log| - j
  {
    if j == |log| then Unended
    else if log[j].Prop? && log[j].name == name then Found(j)
    else if log[j].Prop? || log[j].Nop? then Seek(log, j + 1, name)
    else Absent
  }

  /** What a reader gets for property `name` of the node that begins at token `n`. */
  function Value(log: seq<Tok>, n: nat, name: seq<byte>): Option<seq<byte>>
    requires n < |log|
  {
    match Seek(log, n + 1, name)
    case Found(k) => Some(log[k].data)
    case _ => None
  }

  function SkipNops(log: seq<Tok>, j: nat): (k: nat)
    requires j <= |log|
    ensures j <= k <= |log| && (k < |log| ==> !log[k].Nop?)
    decreases |log| - j
  {
    if j < |log| && log[j].Nop? then SkipNops(log, j + 1) else j
  }

  lemma {:induction false} SeekSkips(log: seq<Tok>, j: nat, name: seq<byte>)
    requires j <= |log|
    ensures Seek(log, j, name) == Seek(log, SkipNops(log, j), name)
    decreases |log| - j
  {
    if j < |log| && log[j].Nop? {
      SeekSkips(log, j + 1, name);
    }
  }

  // ------------------------------------------------------------ in the blob

  /** A finished version-17 blob that holds the tokens `y.log`. */
  ghost predicate Ready(h: Header, b: seq<byte>, y: Layout) {
    Words(h) && h.version >= LAST_SUPPORTED_VERSION && Ended(h, b, y)
  }

  /** Such a blob reads as its tokens. */
  lemma ReadyReads(h: Header, b: seq<byte>, y: Layout)
    requires Ready(h, b, y)
    ensures Walk(h, b, 0) == Some(y.log)
  {
    WalkLaid(h, b, y, 0);
    assert y.log[0..] == y.log;
  }

  lemma TagAt(h: Header, b: seq<byte>, y: Layout, i: nat)
    requires Ready(h, b, y) && i <= |y.log|
    ensures NextTag(h, b, y.offs[i]) ==
            if i < |y.log| then TagResult(TagOf(y.log[i]), y.offs[i + 1]) else TagResult(FDT_END, y.offs[i] + 4)
    ensures i < |y.log| ==> y.offs[i] + 4 <= y.offs[i + 1] <= y.offs[|y.log|]
    ensures y.offs[i] % 4 == 0 && y.offs[i] + 4 <= h.sizeStruct
  {
    OffsAligned(y, i);
    if i < |y.log| {
      TokLen4(y.log[i]);
      OffsMono(y, i + 1, |y.log|);
      assert TokHere(h, b, y, i);
      NextTagAt(h, b, y.offs[i], y.log[i], y.noffs[i]);
    } else {
      WalkEnd(h, b, y.offs[i]);
    }
  }

  /** Where the property at token `i` keeps its length and its value. */
  lemma PropBytes(h: Header, b: seq<byte>, y: Layout, i: nat)
    requires Ready(h, b, y) && i < |y.log| && y.log[i].Prop?
    ensures h.offStruct + y.offs[i] + 12 + |y.log[i].data| <= h.totalsize
    ensures Load32(b, h.offStruct + y.offs[i] + 4) == |y.log[i].data|
    ensures b[h.offStruct + y.offs[i] + 12..h.offStruct + y.offs[i] + 12 + |y.log[i].data|] == y.log[i].data
  {
    assert TokHere(h, b, y, i);
    OffsMono(y, i + 1, |y.log|);
    Align4Facts(|y.log[i].data|);
  }

  /** Its name. */
  lemma PropName(h: Header, b: seq<byte>, y: Layout, i: nat)
    requires Ready(h, b, y) && i < |y.log| && y.log[i].Prop?
    ensures h.offStruct + y.offs[i] + 12 <= |b|
    ensures var noff := Load32(b, h.offStruct + y.offs[i] + 8);
            && noff == y.noffs[i] && ToInt(noff) == noff && h.offStrings + noff + |y.log[i].name| < h.totalsize
            && GetString(h, b, noff) == Str(h.offStrings + noff, |y.log[i].name|)
            && b[h.offStrings + noff..h.offStrings + noff + |y.log[i].name|] == y.log[i].name
  {
    assert TokHere(h, b, y, i);
    assert NameIn(h, b, y.noffs[i], y.log[i].name);
    GetStringAt(h, b, y.noffs[i], y.log[i].name);
  }

  /** fdt_check_node_offset_ and fdt_check_prop_offset_ */
  function CheckTag(h: Header, b: seq<byte>, offset: int, want: nat): int
    requires h.totalsize <= |b|
  {
    if offset < 0 || offset % 4 != 0 then ERR_BADOFFSET
    else if NextTag(h, b, offset).tag != want then ERR_BADOFFSET
    else NextTag(h, b, offset).next
  }

  method CheckOffset(h: Header, buf: array<byte>, offset: int, want: nat) returns (next: int)
    requires Words(h) && h.totalsize <= INT_MAX && h.totalsize <= buf.Length && offset <= INT_MAX
    ensures next == CheckTag(h, buf[..], offset, want)
  {
    if offset < 0 || offset % 4 != 0 {
      return ERR_BADOFFSET;
    }
    var tag;
    tag, next := FdtNextTag(h, buf, offset);
    if tag != want {
      next := ERR_BADOFFSET;
    }
  }

  /** At the offset of a token, and at the end, a node or property offset is accepted exactly if that
      token is one, and the answer is the offset of the next token. */
  lemma AcceptedOffset(h: Header, b: seq<byte>, y: Layout, i: nat, want: nat)
    requires Ready(h, b, y) && i <= |y.log| && (want == FDT_BEGIN_NODE || want == FDT_PROP)
    ensures CheckTag(h, b, y.offs[i], want) ==
            if i < |y.log| && TagOf(y.log[i]) == want then y.offs[i + 1] else ERR_BADOFFSET
  {
    TagAt(h, b, y, i);
  }

  /** An aligned offset at which the structure block reads like the beginning of a node: the tag and, somewhere
      behind it, a NUL. */
  ghost predicate LooksLikeNode(h: Header, b: seq<byte>, off: int)
    requires h.totalsize <= |b|
  {
    && off >= 0 && off % 4 == 0 && InStruct(h, off, 4)
    && Load32(b, h.offStruct + off) == FDT_BEGIN_NODE && NulFrom(h, b, off + 4) >= 0
  }

  /** The node test accepts exactly these offsets, whatever the blob. */
  lemma AcceptedLooks(h: Header, b: seq<byte>, off: int)
    requires h.totalsize <= |b|
    ensures CheckTag(h, b, off, FDT_BEGIN_NODE) >= 0 <==> LooksLikeNode(h, b, off)
  {
    if off >= 0 {
      NulFromFacts(h, b, off + 4);
      NextTagAdvances(h, b, off);
    }
  }

  /** The offset is where token `n` begins a node. */
  ghost predicate IsNodeAt(y: Layout, off: int, n: nat) {
    n < |y.log| && n < |y.offs| && y.log[n].Begin? && off == y.offs[n]
  }

  ghost predicate IsNode(y: Layout, off: int) {
    exists n: nat :: IsNodeAt(y, off, n)
  }

  /** An accepted offset is that of a node exactly if it is that of any token. */
  lemma AcceptedIsNode(h: Header, b: seq<byte>, y: Layout, off: int)
    requires Ready(h, b, y) && CheckTag(h, b, off, FDT_BEGIN_NODE) >= 0
    ensures IsNode(y, off) <==> off in y.offs
  {
    if off in y.offs {
      var n: nat :| n < |y.offs| && y.offs[n] == off;
      AcceptedOffset(h, b, y, n, FDT_BEGIN_NODE);
      assert IsNodeAt(y, off, n);
    }
  }

  /** The test accepts an offset that is not that of a node. */
  ghost predicate FalseNode(h: Header, b: seq<byte>, y: Layout, off: int)
    requires h.totalsize <= |b|
  {
    CheckTag(h, b, off, FDT_BEGIN_NODE) >= 0 && !IsNode(y, off)
  }

  ghost predicate InsideToken(y: Layout, i: nat, off: int) {
    i < |y.log| && i + 1 < |y.offs| && y.offs[i] < off < y.offs[i + 1]
  }

  /** The offset lies strictly inside a token or behind the beginning of the end tag. */
  ghost predicate Between(y: Layout, off: int)
    requires Sized(y)
  {
    y.offs[|y.log|] < off || exists i: nat :: InsideToken(y, i, off)
  }

  lemma {:induction false} Around(y: Layout, off: nat, k: nat) returns (i: nat)
    requires Sized(y) && k <= |y.log| && off !in y.offs && off <= y.offs[k]
    ensures i < |y.log| && y.offs[i] < off < y.offs[i + 1]
  {
    assert off != y.offs[k];
    if k > 0 && off <= y.offs[k - 1] {
      i := Around(y, off, k - 1);
    } else {
      i := k - 1;
    }
  }

  lemma InsideIsNoToken(y: Layout, i: nat, off: nat)
    requires Sized(y) && i < |y.log| && y.offs[i] < off < y.offs[i + 1]
    ensures off !in y.offs
  {
    forall j | 0 <= j < |y.offs| ensures y.offs[j] != off {
      if j <= i {
        OffsMono(y, j, i);
      } else {
        OffsMono(y, i + 1, j);
      }
    }
  }

  /** From the first token on, no token begins at an offset exactly if it lies between the beginnings. */
  lemma BetweenIff(y: Layout, off: nat)
    requires Sized(y)
    ensures Between(y, off) <==> off !in y.offs
  {
    if y.offs[|y.log|] < off {
      forall j | 0 <= j < |y.offs| ensures y.offs[j] != off {
        OffsMono(y, j, |y.log|);
      }
    } else if i: nat :| InsideToken(y, i, off) {
      InsideIsNoToken(y, i, off);
    } else if off !in y.offs {
      var i := Around(y, off, |y.log|);
      assert InsideToken(y, i, off);
    }
  }

  /** These are exactly the offsets inside a token or behind the end tag that look like a node. */
  lemma FalseNodeIff(h: Header, b: seq<byte>, y: Layout, off: int)
    requires Ready(h, b, y)
    ensures FalseNode(h, b, y, off) <==> LooksLikeNode(h, b, off) && Between(y, off)
  {
    AcceptedLooks(h, b, off);
    if CheckTag(h, b, off, FDT_BEGIN_NODE) >= 0 {
      AcceptedIsNode(h, b, y, off);
      BetweenIff(y, off);
    }
  }

  /** The test accepts no false node exactly if no aligned position inside a token, or behind the end tag,
      looks like a node. */
  lemma NoFalseNodeIff(h: Header, b: seq<byte>, y: Layout)
    requires Ready(h, b, y)
    ensures (forall off: int :: !FalseNode(h, b, y, off)) <==>
            (forall off: int | Between(y, off) :: !LooksLikeNode(h, b, off))
  {
    forall off: int ensures FalseNode(h, b, y, off) <==> LooksLikeNode(h, b, off) && Between(y, off) {
      FalseNodeIff(h, b, y, off);
    }
  }

  /** Four bytes and a NUL. */
  lemma LooksLike(h: Header, b: seq<byte>, off: nat)
    requires h.totalsize <= |b| && InStruct(h, off, 5) && off % 4 == 0
    requires Load32(b, h.offStruct + off) == FDT_BEGIN_NODE && b[h.offStruct + off + 4] == 0
    ensures LooksLikeNode(h, b, off) && CheckTag(h, b, off, FDT_BEGIN_NODE) == off + 8
  {
    assert NulFrom(h, b, off + 4) == off + 4;
  }

  lemma FiveBytes(b: seq<byte>, p: nat)
    requires p + 5 <= |b| && b[p..p + 5] == [0, 0, 0, FDT_BEGIN_NODE, 0]
    ensures Load32(b, p) == FDT_BEGIN_NODE && b[p + 4] == 0
  {
    var s := b[p..p + 5];
    assert b[p] == s[0] && b[p + 1] == s[1] && b[p + 2] == s[2] && b[p + 3] == s[3] && b[p + 4] == s[4];
  }

  lemma ValueInside(h: Header, b: seq<byte>, y: Layout, i: nat)
    requires Ready(h, b, y) && i < |y.log| && y.log[i].Prop? && |y.log[i].data| >= 5
    ensures y.offs[i] + 12 < y.offs[i + 1] && (y.offs[i] + 12) % 4 == 0 && InStruct(h, y.offs[i] + 12, 5)
  {
    TagAt(h, b, y, i);
    Align4Facts(|y.log[i].data|);
  }

  /** A value that begins like a node with an empty name is one such place. */
  lemma AcceptedInValue(h: Header, b: seq<byte>, y: Layout, i: nat)
    requires Ready(h, b, y) && i < |y.log| && y.log[i].Prop?
    requires |y.log[i].data| >= 5 && y.log[i].data[..5] == [0, 0, 0, FDT_BEGIN_NODE, 0]
    ensures FalseNode(h, b, y, y.offs[i] + 12) && CheckTag(h, b, y.offs[i] + 12, FDT_BEGIN_NODE) == y.offs[i] + 20
    ensures y.offs[i] + 12 !in y.offs
  {
    var off := y.offs[i] + 12;
    var p, n := h.offStruct + off, |y.log[i].data|;
    PropBytes(h, b, y, i);
    ValueInside(h, b, y, i);
    assert b[p..p + 5] == b[p..p + n][..5];
    FiveBytes(b, p);
    LooksLike(h, b, off);
    InsideIsNoToken(y, i, off);
    assert InsideToken(y, i, off);
    FalseNodeIff(h, b, y, off);
  }

  /** The length word of a property of one byte is another, unless its name offset is very large. */
  lemma AcceptedLength(h: Header, b: seq<byte>, y: Layout, i: nat)
    requires Ready(h, b, y) && i < |y.log| && y.log[i].Prop? && |y.log[i].data| == 1 && y.noffs[i] < 0x100_0000
    ensures FalseNode(h, b, y, y.offs[i] + 4) && CheckTag(h, b, y.offs[i] + 4, FDT_BEGIN_NODE) == y.offs[i] + 12
    ensures y.offs[i] + 4 !in y.offs
  {
    var off := y.offs[i] + 4;
    PropBytes(h, b, y, i);
    LengthInside(h, b, y, i);
    FirstByte(b, h.offStruct + off + 4);
    LooksLike(h, b, off);
    InsideIsNoToken(y, i, off);
    assert InsideToken(y, i, off);
    FalseNodeIff(h, b, y, off);
  }

  lemma LengthInside(h: Header, b: seq<byte>, y: Layout, i: nat)
    requires Ready(h, b, y) && i < |y.log| && y.log[i].Prop?
    ensures y.offs[i] + 12 <= y.offs[i + 1] && (y.offs[i] + 4) % 4 == 0 && InStruct(h, y.offs[i], 12)
    ensures Load32(b, h.offStruct + y.offs[i] + 8) == y.noffs[i]
  {
    TagAt(h, b, y, i);
    Align4Facts(|y.log[i].data|);
    assert TokHere(h, b, y, i);
  }

  lemma FirstByte(b: seq<byte>, p: nat)
    requires p + 4 <= |b| && Load32(b, p) < 0x100_0000
    ensures b[p] == 0
  {
  }

  /** What nextprop_ answers from token `j` on. */
  ghost function PropFrom(y: Layout, j: nat): int
    requires Sized(y) && j <= |y.log|
  {
    var k := SkipNops(y.log, j);
    if k == |y.log| then ERR_BADSTRUCTURE else if y.log[k].Prop? then y.offs[k] else ERR_NOTFOUND
  }

  /** nextprop_ */
  method NextProp(h: Header, buf: array<byte>, start: nat, ghost y: Layout, ghost j: nat) returns (r: int)
    requires Ready(h, buf[..], y) && j <= |y.log| && start == y.offs[j]
    ensures r == PropFrom(y, j)
  {
    var offset := start;
    ghost var i := j;
    while true
      invariant i <= |y.log| && offset == y.offs[i] && PropFrom(y, j) == PropFrom(y, i)
      decreases |y.log| - i
    {
      TagAt(h, buf[..], y, i);
      var tag, next := FdtNextTag(h, buf, offset);
      if tag == FDT_END {
        return if next >= 0 then ERR_BADSTRUCTURE else next;
      } else if tag == FDT_PROP {
        return offset;
      }
      if tag != FDT_NOP {
        return ERR_NOTFOUND;
      }
      offset, i := next, i + 1;
    }
  }

  /** fdt_string_eq_ for the name of the property at token `i`. */
  method NameIs(h: Header, buf: array<byte>, offset: nat, name: seq<byte>, ghost y: Layout, ghost i: nat)
      returns (eq: bool)
    requires Ready(h, buf[..], y) && i < |y.log| && offset == y.offs[i] && y.log[i].Prop?
    ensures eq <==> y.log[i].name == name
  {
    PropName(h, buf[..], y, i);
    var s := FdtGetString(h, buf, ToInt(Load32(buf[..], h.offStruct + offset + 8)));
    assert buf[..][s.pos..s.pos + s.len] == buf[s.pos..s.pos + s.len];
    return s.len == |name| && buf[s.pos..s.pos + s.len] == name;
  }

  /** The caller names a node: an offset that reads as a node is where token `n` begins one. */
  ghost predicate NodeArg(h: Header, b: seq<byte>, y: Layout, node: int, n: nat) {
    && Ready(h, b, y) && node <= INT_MAX
    && (CheckTag(h, b, node, FDT_BEGIN_NODE) >= 0 ==> n < |y.log| && y.log[n].Begin? && node == y.offs[n])
  }

  ghost predicate SomeArg(h: Header, b: seq<byte>, y: Layout, node: int) {
    exists n: nat :: NodeArg(h, b, y, node, n)
  }

  lemma NodeArgIff(h: Header, b: seq<byte>, y: Layout, node: int)
    requires Ready(h, b, y)
    ensures SomeArg(h, b, y, node) <==> node <= INT_MAX && !FalseNode(h, b, y, node)
  {
    if node <= INT_MAX {
      if CheckTag(h, b, node, FDT_BEGIN_NODE) < 0 {
        assert NodeArg(h, b, y, node, 0);
      } else if IsNode(y, node) {
        var n: nat :| IsNodeAt(y, node, n);
        assert NodeArg(h, b, y, node, n);
      } else {
        forall n: nat ensures !NodeArg(h, b, y, node, n) {
          assert !IsNodeAt(y, node, n);
        }
      }
    }
  }

  /** Every offset will do for the callers below exactly if the blob has no false node. */
  lemma NodeArgAlways(h: Header, b: seq<byte>, y: Layout)
    requires Ready(h, b, y)
    ensures (forall node: int | node <= INT_MAX :: SomeArg(h, b, y, node)) <==>
            (forall off: int :: !FalseNode(h, b, y, off))
  {
    forall off: int ensures SomeArg(h, b, y, off) <==> off <= INT_MAX && !FalseNode(h, b, y, off) {
      NodeArgIff(h, b, y, off);
    }
    forall off: int | off > INT_MAX ensures !FalseNode(h, b, y, off) {
      AcceptedLooks(h, b, off);
    }
  }

  /** The offset of the property, or the error, that belongs to an answer. */
  ghost function Answer(y: Layout, r: Sought): int
    requires Sized(y) && (r.Found? ==> r.at < |y.log|)
  {
    match r
    case Found(k) => y.offs[k]
    case Absent => ERR_NOTFOUND
    case Unended => ERR_BADSTRUCTURE
  }

  lemma SeekHere(y: Layout, j: nat, name: seq<byte>)
    requires Sized(y) && j <= |y.log|
    ensures PropFrom(y, j) < 0 ==> PropFrom(y, j) == Answer(y, Seek(y.log, j, name))
    ensures var k := SkipNops(y.log, j);
            PropFrom(y, j) >= 0 ==> k < |y.log| && y.log[k].Prop? && PropFrom(y, j) == y.offs[k] &&
                                    Seek(y.log, j, name) ==
                                    if y.log[k].name == name then Found(k) else Seek(y.log, k + 1, name)
  {
    SeekSkips(y.log, j, name);
  }

  /** One turn of the search: the property at `off`, and where the next one is. */
  method Visit(h: Header, buf: array<byte>, off: nat, name: seq<byte>, ghost y: Layout, ghost k: nat)
      returns (eq: bool, next: int)
    requires Ready(h, buf[..], y) && k < |y.log| && y.log[k].Prop? && off == y.offs[k]
    ensures eq <==> y.log[k].name == name
    ensures !eq ==> next == PropFrom(y, k + 1)
  {
    TagAt(h, buf[..], y, k);
    next := CheckOffset(h, buf, off, FDT_PROP);
    eq := NameIs(h, buf, off, name, y, k);
    if !eq {
      next := NextProp(h, buf, next, y, k + 1);
    }
  }

  /** fdt_first_property_offset */
  method FirstProp(h: Header, buf: array<byte>, node: int, ghost y: Layout, ghost n: nat) returns (off: int)
    requires NodeArg(h, buf[..], y, node, n)
    ensures CheckTag(h, buf[..], node, FDT_BEGIN_NODE) < 0 ==> off == ERR_BADOFFSET
    ensures CheckTag(h, buf[..], node, FDT_BEGIN_NODE) >= 0 ==> off == PropFrom(y, n + 1)
  {
    off := CheckOffset(h, buf, node, FDT_BEGIN_NODE);
    if off < 0 {
      NextTagAdvances(h, buf[..], node);
    } else {
      TagAt(h, buf[..], y, n);
      off := NextProp(h, buf, off, y, n + 1);
    }
  }

  /** fdt_get_property_namelen_: the offset of the property, or an error. */
  method GetProperty(h: Header, buf: array<byte>, node: int, name: seq<byte>, ghost y: Layout, ghost n: nat)
      returns (off: int)
    requires NodeArg(h, buf[..], y, node, n)
    ensures CheckTag(h, buf[..], node, FDT_BEGIN_NODE) < 0 ==> off == ERR_BADOFFSET
    ensures CheckTag(h, buf[..], node, FDT_BEGIN_NODE) >= 0 ==> off == Answer(y, Seek(y.log, n + 1, name))
  {
    off := FirstProp(h, buf, node, y, n);
    if off != ERR_BADOFFSET {
      off := Search(h, buf, off, name, y, n + 1);
    }
  }

  /** Everything before token `j` has been looked at, and the next property is at `off`. */
  ghost predicate Searching(y: Layout, from: nat, j: nat, name: seq<byte>, off: int) {
    Sized(y) && from <= j <= |y.log| && off == PropFrom(y, j) && Seek(y.log, from, name) == Seek(y.log, j, name)
  }

  lemma SearchTurn(y: Layout, from: nat, j: nat, name: seq<byte>, off: int) returns (k: nat)
    requires Searching(y, from, j, name, off) && off >= 0
    ensures j <= k < |y.log| && y.log[k].Prop? && off == y.offs[k]
    ensures y.log[k].name == name ==> off == Answer(y, Seek(y.log, from, name))
    ensures y.log[k].name != name ==> Searching(y, from, k + 1, name, PropFrom(y, k + 1))
  {
    SeekHere(y, j, name);
    k := SkipNops(y.log, j);
  }

  lemma SearchOver(y: Layout, from: nat, j: nat, name: seq<byte>, off: int)
    requires Searching(y, from, j, name, off) && off < 0
    ensures off == Answer(y, Seek(y.log, from, name))
  {
    SeekHere(y, j, name);
  }

  /** The loop over the properties of a node, from token `from` on. */
  method Search(h: Header, buf: array<byte>, first: int, name: seq<byte>, ghost y: Layout, ghost from: nat)
      returns (off: int)
    requires Ready(h, buf[..], y) && from <= |y.log| && first == PropFrom(y, from)
    ensures off == Answer(y, Seek(y.log, from, name))
  {
    off := first;
    ghost var j := from;
    while off >= 0
      invariant Searching(y, from, j, name, off)
      decreases |y.log| - j
    {
      ghost var k := SearchTurn(y, from, j, name, off);
      var eq, next := Visit(h, buf, off, name, y, k);
      if eq {
        return;
      }
      off, j := next, k + 1;
    }
    SearchOver(y, from, j, name, off);
  }

  lemma ValueBytes(h: Header, b: seq<byte>, y: Layout, n: nat, name: seq<byte>, k: nat)
    requires Ready(h, b, y) && n < |y.log| && Seek(y.log, n + 1, name) == Found(k)
    ensures var off := y.offs[k];
            h.offStruct + off + 12 <= |b| &&
                ValueAt(h, b, y, n, name, h.offStruct + off + 12, Load32(b, h.offStruct + off + 4))
  {
    ValueOf(y, n, name, k);
    PropBytes(h, b, y, k);
  }

  lemma ValueOf(y: Layout, n: nat, name: seq<byte>, k: nat)
    requires n < |y.log| && Seek(y.log, n + 1, name) == Found(k)
    ensures Value(y.log, n, name) == Some(y.log[k].data)
  {
  }

  ghost predicate ValueAt(h: Header, b: seq<byte>, y: Layout, n: nat, name: seq<byte>, pos: int, len: int)
    requires n < |y.log|
  {
    0 <= pos && 0 <= len && pos + len <= h.totalsize <= |b| && Value(y.log, n, name) == Some(b[pos..pos + len])
  }

  /** fdt_getprop: place and length of the value, or an error. */
  method GetProp(h: Header, buf: array<byte>, node: int, name: seq<byte>, ghost y: Layout, ghost n: nat)
      returns (pos: int, len: int)
    requires NodeArg(h, buf[..], y, node, n)
    ensures CheckTag(h, buf[..], node, FDT_BEGIN_NODE) < 0 ==> pos == -1 && len == ERR_BADOFFSET
    ensures CheckTag(h, buf[..], node, FDT_BEGIN_NODE) >= 0 ==>
              if Value(y.log, n, name).Some? then ValueAt(h, buf[..], y, n, name, pos, len)
              else pos == -1 && len == Answer(y, Seek(y.log, n + 1, name))
  {
    var off := GetProperty(h, buf, node, name, y, n);
    if off < 0 {
      return -1, off;
    }
    ValueBytes(h, buf[..], y, n, name, Seek(y.log, n + 1, name).at);
    pos, len := h.offStruct + off + 12, Load32(buf[..], h.offStruct + off + 4);
  }
}
