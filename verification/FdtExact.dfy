/** Exactly which properties and names the readers of kernel/device/libfdt accept, for blobs of every version. */
module FdtExact {
  import opened Fdt
  import opened FdtWalk
  import opened Types

  /** fdt_next_tag on a property: it is accepted exactly if head and value, with its padding before version 16, lie in
      the blob and in the structure block, and the next token begins at the next word. */
  lemma PropTagIff(h: Header, b: seq<byte>, start: int)
    requires Words(h) && h.totalsize <= |b| && h.totalsize < INT_MAX
    requires InStruct(h, start, 8) && Load32(b, h.offStruct + start) == FDT_PROP
    ensures var len, r := Load32(b, h.offStruct + start + 4), NextTag(h, b, start);
            var end := start + 12 + Padding(h, start + 12, len) + len;
            && (r.next >= 0 <==> InStruct(h, start, end - start))
            && (r.next >= 0 ==> r == TagResult(FDT_PROP, Align4(end)))
            && (r.next < 0 ==> r == TagResult(FDT_END, ERR_BADSTRUCTURE))
  {
    var len := Load32(b, h.offStruct + start + 4);
    Wrap(len + start + 4);
  }

  /** Before version 16 a value of 8 bytes or more begins at a multiple of 8, otherwise right behind its head. */
  lemma ValueAligned(h: Header, start: nat, len: nat)
    requires start % 4 == 0
    ensures var value := start + 12 + Padding(h, start + 12, len);
            if h.version < 16 && len >= 8 then value % 8 == 0 && value < start + 12 + 8 else value == start + 12
  {
  }

  /** fdt_next_tag on a node: accepted exactly if a NUL follows the tag inside the structure block, and the next token
      begins at the word behind the first one. */
  lemma NodeTagIff(h: Header, b: seq<byte>, start: int, len: nat)
    requires h.totalsize <= |b| && InStruct(h, start, 4) && Load32(b, h.offStruct + start) == FDT_BEGIN_NODE
    requires InStruct(h, start + 4, len)
    requires forall q | h.offStruct + start + 4 <= q < h.offStruct + start + 4 + len :: b[q] != 0
    ensures !InStruct(h, start + 4, len + 1) ==> NextTag(h, b, start) == TagResult(FDT_END, ERR_BADSTRUCTURE)
    ensures InStruct(h, start + 4, len + 1) && b[h.offStruct + start + 4 + len] == 0 ==>
              NextTag(h, b, start) == TagResult(FDT_BEGIN_NODE, Align4(start + 4 + len + 1))
  {
    if !InStruct(h, start + 4, len + 1) {
      NulFromFacts(h, b, start + 4);
      NoNulBefore(h, b, start + 4, len);
    } else if b[h.offStruct + start + 4 + len] == 0 {
      NulFromFound(h, b, start + 4, len);
    }
  }

  lemma NoNulBefore(h: Header, b: seq<byte>, off: nat, len: nat)
    requires h.totalsize <= |b| && InStruct(h, off, len) && !InStruct(h, off, len + 1)
    requires forall q | h.offStruct + off <= q < h.offStruct + off + len :: b[q] != 0
    ensures NulFrom(h, b, off) < 0
  {
    NulFromFacts(h, b, off);
  }

  // ------------------------------------------------------------ fdt_get_string

  /** The name at `pos` ends with its first NUL at `pos + len`, before `limit`. */
  ghost predicate Terminated(b: seq<byte>, pos: nat, len: nat, limit: nat) {
    pos + len < limit <= |b| && b[pos + len] == 0 && forall q | pos <= q < pos + len :: b[q] != 0
  }

  lemma {:induction false} NulWithinIff(b: seq<byte>, pos: nat, n: nat, len: nat)
    requires pos + n <= |b|
    ensures NulWithin(b, pos, n) == len <==> Terminated(b, pos, len, pos + n)
    decreases n
  {
    if n > 0 && b[pos] != 0 {
      if len > 0 {
        NulWithinIff(b, pos + 1, n - 1, len - 1);
        assert Terminated(b, pos, len, pos + n) <==> Terminated(b, pos + 1, len - 1, pos + n);
      }
    }
  }

  /** Where the names of a finished blob may reach to. */
  function NamesEnd(h: Header): nat {
    if h.version >= 17 && h.offStrings + h.sizeStrings < h.totalsize then h.offStrings + h.sizeStrings else h.totalsize
  }

  /** fdt_get_string on a finished blob: a name is returned exactly if it begins in the strings block, as far as its
      size is known, and ends with a NUL inside it. */
  lemma GetStringIff(h: Header, b: seq<byte>, stroff: int, len: nat)
    requires Words(h) && h.magic == FDT_MAGIC && h.totalsize < INT_MAX && h.totalsize <= |b|
    requires FIRST_SUPPORTED_VERSION <= h.version && h.lastComp <= LAST_SUPPORTED_VERSION && stroff <= INT_MAX
    requires h.offStrings <= h.totalsize
    ensures GetString(h, b, stroff).Str? ==> stroff >= 0 && GetString(h, b, stroff).pos == h.offStrings + stroff
    ensures stroff >= 0 ==>
              (GetString(h, b, stroff) == Str(h.offStrings + stroff, len) <==>
               Terminated(b, h.offStrings + stroff, len, NamesEnd(h)))
  {
    if stroff >= 0 {
      Wrap(stroff + h.offStrings);
      var n := StringSpace(h, stroff);
      if n >= 0 {
        NulWithinIff(b, h.offStrings + stroff, n, len);
      }
    }
  }

  /** ... and while the blob is being written: `stroff` is negative and counted from the end of the buffer. */
  lemma GetStringBackIff(h: Header, b: seq<byte>, stroff: int, len: nat)
    requires Words(h) && h.magic == FDT_SW_MAGIC && h.sizeStruct > 0 && h.totalsize < INT_MAX && h.totalsize <= |b|
    requires h.offStrings == h.totalsize && h.sizeStrings <= h.totalsize && -INT_MAX <= stroff <= INT_MAX
    ensures GetString(h, b, stroff).Str? ==> 0 <= stroff + h.sizeStrings && stroff < 0
    ensures 0 <= stroff + h.sizeStrings && stroff < 0 ==>
              (GetString(h, b, stroff) == Str(h.totalsize + stroff, len) <==>
               Terminated(b, h.totalsize + stroff, len, h.totalsize))
  {
    if 0 <= stroff + h.sizeStrings && stroff < 0 {
      Wrap(stroff + h.offStrings);
      NulWithinIff(b, h.totalsize + stroff, -stroff, len);
    }
  }
}
