/** Walking a device tree blob token by token, and blobs laid out as a given token sequence. */
module FdtWalk {
  import opened Fdt
  import opened Types

  /** A stored word read as a signed 32-bit number. */
  function ToInt(w: nat): int {
    if w < 0x8000_0000 then w else w - U32
  }

  /** The property at byte `p`: its name through fdt_get_string and its value. */
  function PropAt(h: Header, b: seq<byte>, p: nat): Option<Tok>
    requires h.totalsize <= |b|
  {
    if p + 12 > |b| || p + 12 + Load32(b, p + 4) > |b| then None
    else
      match GetString(h, b, ToInt(Load32(b, p + 8)))
      case NoStr(_) => None
      case Str(pos, l) =>
        GetStringInside(h, b, ToInt(Load32(b, p + 8)));
        Some(Prop(b[pos..pos + l], b[p + 12..p + 12 + Load32(b, p + 4)]))
  }

  /** The token at `off`, whose tag is `tag`; nothing if it is not readable. */
  function ReadTok(h: Header, b: seq<byte>, off: nat, tag: nat): Option<Tok>
    requires h.totalsize <= |b|
  {
    if tag == FDT_BEGIN_NODE then
      var n := NulFrom(h, b, off + 4);
      NulFromFacts(h, b, off + 4);
      if n < 0 then None else Some(Begin(b[h.offStruct + off + 4..h.offStruct + n]))
    else if tag == FDT_PROP then PropAt(h, b, h.offStruct + off)
    else if tag == FDT_END_NODE then Some(End)
    else Some(Nop)
  }

  lemma {:induction false} NulWithinInside(b: seq<byte>, pos: nat, n: nat)
    requires pos + n <= |b|
    ensures NulWithin(b, pos, n) < n
    decreases n
  {
    if n > 0 {
      NulWithinInside(b, pos + 1, n - 1);
    }
  }

  /** A string that fdt_get_string returns lies inside the blob. */
  lemma GetStringInside(h: Header, b: seq<byte>, stroff: int)
    requires h.totalsize <= |b|
    ensures var r := GetString(h, b, stroff); r.Str? ==> r.pos + r.len < h.totalsize
  {
    var n := StringSpace(h, stroff);
    if n >= 0 {
      NulWithinInside(b, (stroff + h.offStrings) % U32, n);
    }
  }

  /** All tokens from `off` on up to FDT_END, as a reader sees them; nothing on any error. */
  function Walk(h: Header, b: seq<byte>, off: nat): Option<seq<Tok>>
    requires h.totalsize <= |b|
    decreases h.totalsize + 4 - off
  {
    NextTagAdvances(h, b, off);
    var r := NextTag(h, b, off);
    if r.tag == FDT_END then
      if r.next >= 0 then Some([]) else None
    else
      match ReadTok(h, b, off, r.tag)
      case None => None
      case Some(t) =>
        match Walk(h, b, r.next)
        case None => None
        case Some(ts) => Some([t] + ts)
  }

  // ------------------------------------------------------------ laid out tokens

  /** Tokens, the offset of each in the structure block (and the end of the last), and the name
      offset stored in each property. */
  datatype Layout = Layout(log: seq<Tok>, offs: seq<nat>, noffs: seq<nat>)

  ghost predicate Sized(y: Layout) {
    && |y.offs| == |y.log| + 1 && |y.noffs| == |y.log| && y.offs[0] == 0
    && (forall i | 0 <= i < |y.log| :: y.offs[i + 1] == y.offs[i] + TokLen(y.log[i]))
  }

  ghost predicate Stored(h: Header, b: seq<byte>, y: Layout)
    requires Sized(y)
  {
    forall i | 0 <= i < |y.log| :: TokHere(h, b, y, i)
  }

  /** Token `i` stands where the layout says. */
  ghost predicate TokHere(h: Header, b: seq<byte>, y: Layout, i: nat)
    requires Sized(y) && i < |y.log|
  {
    TokAt(b, h.offStruct + y.offs[i], y.log[i], y.noffs[i])
  }

  ghost predicate Laid(h: Header, b: seq<byte>, y: Layout) {
    Sized(y) && Stored(h, b, y)
  }

  lemma {:induction false} OffsMono(y: Layout, i: nat, j: nat)
    requires Sized(y) && i <= j <= |y.log|
    ensures y.offs[i] <= y.offs[j]
    decreases j - i
  {
    if i < j {
      OffsMono(y, i, j - 1);
    }
  }

  lemma TokLen4(t: Tok)
    ensures TokLen(t) % 4 == 0 && TokLen(t) >= 4
  {
    match t
    case Begin(n) => Align4Facts(|n| + 1);
    case Prop(_, d) => Align4Facts(|d|);
    case End =>
    case Nop =>
  }

  /** Tokens start on word boundaries. */
  lemma {:induction false} OffsAligned(y: Layout, i: nat)
    requires Sized(y) && i <= |y.log|
    ensures y.offs[i] % 4 == 0
  {
    if i > 0 {
      OffsAligned(y, i - 1);
      TokLen4(y.log[i - 1]);
    }
  }

  /** Every name can be read back: it stands NUL-terminated in the strings block. */
  ghost predicate Named(h: Header, b: seq<byte>, y: Layout)
    requires Sized(y)
  {
    forall i | 0 <= i < |y.log| && y.log[i].Prop? :: NameIn(h, b, y.noffs[i], y.log[i].name)
  }

  ghost predicate NameIn(h: Header, b: seq<byte>, noff: nat, name: seq<byte>) {
    NoNul(name) && noff + |name| + 1 <= h.sizeStrings && StrAt(b, h.offStrings + noff, name)
  }

  /** A finished blob with its blocks in place. */
  ghost predicate Finished(h: Header, b: seq<byte>) {
    && h.magic == FDT_MAGIC && 16 <= h.version && h.lastComp <= LAST_SUPPORTED_VERSION
    && h.totalsize < INT_MAX && h.totalsize <= |b|
    && h.offStruct + h.sizeStruct <= h.totalsize && h.offStrings + h.sizeStrings <= h.totalsize
  }

  lemma GetStringAt(h: Header, b: seq<byte>, noff: nat, name: seq<byte>)
    requires Finished(h, b) && NameIn(h, b, noff, name)
    ensures GetString(h, b, noff) == Str(h.offStrings + noff, |name|)
  {
    StrAtBytes(b, h.offStrings + noff, name);
    Wrap(noff + h.offStrings);
    NulWithinFound(b, h.offStrings + noff, StringSpace(h, noff), |name|);
  }

  lemma ReadBegin(h: Header, b: seq<byte>, off: nat, n: seq<byte>)
    requires Finished(h, b) && InStruct(h, off, TokLen(Begin(n))) && NoNul(n) && StrAt(b, h.offStruct + off + 4, n)
    ensures ReadTok(h, b, off, FDT_BEGIN_NODE) == Some(Begin(n))
  {
    StrAtBytes(b, h.offStruct + off + 4, n);
    Align4Facts(|n| + 1);
    NulFromFound(h, b, off + 4, |n|);
  }

  lemma ReadProp(h: Header, b: seq<byte>, p: nat, t: Tok, noff: nat)
    requires Finished(h, b) && t.Prop? && TokAt(b, p, t, noff) && NameIn(h, b, noff, t.name)
    ensures PropAt(h, b, p) == Some(t)
  {
    GetStringAt(h, b, noff, t.name);
  }

  lemma ReadTokAt(h: Header, b: seq<byte>, off: nat, t: Tok, noff: nat)
    requires Finished(h, b) && off % 4 == 0 && InStruct(h, off, TokLen(t)) && TokAt(b, h.offStruct + off, t, noff)
    requires t.Prop? ==> NameIn(h, b, noff, t.name)
    ensures NextTag(h, b, off) == TagResult(TagOf(t), off + TokLen(t))
    ensures ReadTok(h, b, off, TagOf(t)) == Some(t)
  {
    NextTagAt(h, b, off, t, noff);
    match t
    case Begin(n) => ReadBegin(h, b, off, n);
    case Prop(_, _) => ReadProp(h, b, h.offStruct + off, t, noff);
    case End =>
    case Nop =>
  }

  lemma WalkStep(h: Header, b: seq<byte>, off: nat, t: Tok, next: nat, ts: seq<Tok>)
    requires h.totalsize <= |b| && NextTag(h, b, off) == TagResult(TagOf(t), next)
    requires ReadTok(h, b, off, TagOf(t)) == Some(t) && Walk(h, b, next) == Some(ts)
    ensures Walk(h, b, off) == Some([t] + ts)
  {
  }

  lemma WalkEnd(h: Header, b: seq<byte>, off: nat)
    requires h.totalsize <= |b| && off % 4 == 0 && InStruct(h, off, 4) && Load32(b, h.offStruct + off) == FDT_END
    ensures Walk(h, b, off) == Some([]) && NextTag(h, b, off) == TagResult(FDT_END, off + 4)
  {
    Align4Shift(off + 4, 0);
  }

  /** A finished blob that holds the tokens `y.log` and the end tag behind them. */
  ghost predicate Ended(h: Header, b: seq<byte>, y: Layout) {
    && Finished(h, b) && Laid(h, b, y) && Named(h, b, y)
    && y.offs[|y.log|] + 4 <= h.sizeStruct && Load32(b, h.offStruct + y.offs[|y.log|]) == FDT_END
  }

  lemma ReadAt(h: Header, b: seq<byte>, y: Layout, i: nat)
    requires Ended(h, b, y) && i < |y.log|
    ensures NextTag(h, b, y.offs[i]) == TagResult(TagOf(y.log[i]), y.offs[i + 1])
    ensures ReadTok(h, b, y.offs[i], TagOf(y.log[i])) == Some(y.log[i])
  {
    OffsAligned(y, i);
    OffsMono(y, i + 1, |y.log|);
    assert TokHere(h, b, y, i);
    ReadTokAt(h, b, y.offs[i], y.log[i], y.noffs[i]);
  }

  /** A reader that walks it sees exactly its tokens. */
  lemma {:induction false} WalkLaid(h: Header, b: seq<byte>, y: Layout, i: nat)
    requires Ended(h, b, y) && i <= |y.log|
    ensures Walk(h, b, y.offs[i]) == Some(y.log[i..])
    decreases |y.log| - i
  {
    if i < |y.log| {
      ReadAt(h, b, y, i);
      WalkLaid(h, b, y, i + 1);
      WalkStep(h, b, y.offs[i], y.log[i], y.offs[i + 1], y.log[i + 1..]);
      assert y.log[i..] == [y.log[i]] + y.log[i + 1..];
    } else {
      OffsAligned(y, i);
      assert y.log[i..] == [];
      WalkEnd(h, b, y.offs[i]);
    }
  }
}
