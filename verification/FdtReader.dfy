/** The loops of the reader: fdt_next_tag and memchr as they run over the buffer. */
module FdtReader {
  import opened Fdt
  import opened FdtWalk
  import opened Types

  /** fdt_next_tag. */
  method FdtNextTag(h: Header, buf: array<byte>, start: int) returns (tag: nat, next: int)
    requires Words(h) && h.totalsize <= INT_MAX && h.totalsize <= buf.Length && start <= INT_MAX
    ensures TagResult(tag, next) == NextTag(h, buf[..], start)
  {
    OffsetCheckExact(h, start, 4);
    if !OffsetCheck(h, start, 4) {
      return FDT_END, ERR_TRUNCATED;
    }
    tag := Load32(buf[..], h.offStruct + start);
    var offset := start + 4;
    if tag == FDT_BEGIN_NODE {
      var n := SkipName(h, buf, offset);
      if n < 0 {
        return FDT_END, ERR_BADSTRUCTURE;
      }
      NulFromFacts(h, buf[..], offset);
      offset := n + 1;
    } else if tag == FDT_PROP {
      OffsetCheckExact(h, offset, 4);
      if !OffsetCheck(h, offset, 4) {
        return FDT_END, ERR_BADSTRUCTURE;
      }
      var len := Load32(buf[..], h.offStruct + offset);
      var sum := (len + offset) % U32;
      if INT_MAX <= sum || sum < offset {
        return FDT_END, ERR_BADSTRUCTURE;
      }
      SumFits(len, offset);
      offset := offset + 8 + len;
      if h.version < 0x10 && len >= 8 && (offset - len) % 8 != 0 {
        offset := offset + 4;
      }
    } else if tag != FDT_END && tag != FDT_END_NODE && tag != FDT_NOP {
      return FDT_END, ERR_BADSTRUCTURE;
    }
    OffsetCheckExact(h, start, offset - start);
    if !OffsetCheck(h, start, offset - start) {
      return FDT_END, ERR_BADSTRUCTURE;
    }
    next := Align4(offset);
  }

  lemma SumFits(len: nat, offset: nat)
    requires len < U32 && offset <= INT_MAX && !((len + offset) % U32 < offset) && (len + offset) % U32 < INT_MAX
    ensures len + offset < INT_MAX
  {
    Wrap(len + offset);
  }

  /** The loop over a node's name. */
  method SkipName(h: Header, buf: array<byte>, off: nat) returns (n: int)
    requires Words(h) && h.totalsize <= INT_MAX && h.totalsize <= buf.Length && off <= INT_MAX
    ensures n == NulFrom(h, buf[..], off)
  {
    n := off;
    while true
      invariant off <= n <= INT_MAX
      invariant NulFrom(h, buf[..], off) == NulFrom(h, buf[..], n)
      decreases h.totalsize - n
    {
      OffsetCheckExact(h, n, 1);
      if !OffsetCheck(h, n, 1) {
        return -1;
      }
      if buf[h.offStruct + n] == 0 {
        return;
      }
      n := n + 1;
    }
  }

  /** fdt_get_string, with the memchr loop. */
  method FdtGetString(h: Header, buf: array<byte>, stroff: int) returns (r: StrResult)
    requires h.totalsize <= buf.Length
    ensures r == GetString(h, buf[..], stroff)
  {
    var n := StringSpace(h, stroff);
    if n < 0 {
      return NoStr(n);
    }
    var pos := (stroff + h.offStrings) % U32;
    var i := 0;
    while i < n
      invariant 0 <= i <= n && pos + n <= buf.Length
      invariant NulWithin(buf[..], pos, n) == Plus(i, NulWithin(buf[..], pos + i, n - i))
    {
      if buf[pos + i] == 0 {
        return Str(pos, i);
      }
      i := i + 1;
    }
    r := NoStr(ERR_TRUNCATED);
  }

  /** A distance counted from `i` further on. */
  function Plus(i: nat, r: int): int {
    if r < 0 then -1 else i + r
  }
}
