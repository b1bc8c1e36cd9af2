/** Editing a finished blob in place: fdt_setprop of kernel/device/libfdt/fdt_rw.c. */
module FdtEdit {
  import opened Fdt
  import opened FdtWalk
  import opened FdtReader
  import opened FdtProps
  import opened FdtWriter
  import opened Types

  // ------------------------------------------------------------ on tokens

  /** The tree after a property has been set: its value replaced, or a new property put first. */
  function SetLog(log: seq<Tok>, n: nat, name: seq<byte>, val: seq<byte>): seq<Tok>
    requires n < |log|
  {
    match Seek(log, n + 1, name)
    case Found(k) => log[k := Prop(name, val)]
    case Absent => log[..n + 1] + [Prop(name, val)] + log[n + 1..]
    case Unended => log
  }

  /** Where token `i` has gone. */
  function After(log: seq<Tok>, n: nat, name: seq<byte>, i: nat): nat
    requires n < |log|
  {
    if Seek(log, n + 1, name).Absent? && i > n then i + 1 else i
  }

  lemma {:induction false} SeekRun(log: seq<Tok>, j: nat, name: seq<byte>, i: nat)
    requires j <= |log| && Seek(log, j, name).Found? && j <= i <= Seek(log, j, name).at
    ensures log[i].Prop? || log[i].Nop?
    decreases i - j
  {
    if j < i {
      SeekRun(log, j + 1, name, i);
    }
  }

  /** Names decide where a search ends, not values. */
  lemma {:induction false} SeekReplaced(log: seq<Tok>, k: nat, val: seq<byte>, j: nat, x: seq<byte>)
    requires k < |log| && log[k].Prop? && j <= |log|
    ensures Seek(log[k := Prop(log[k].name, val)], j, x) == Seek(log, j, x)
    decreases |log| - j
  {
    if j < |log| {
      SeekReplaced(log, k, val, j + 1, x);
    }
  }

  function Shift(r: Sought): Sought {
    match r
    case Found(k) => Found(k + 1)
    case _ => r
  }

  /** Behind an inserted token a search sees the same tokens one place further. */
  lemma {:induction false} SeekBehind(log: seq<Tok>, k: nat, t: Tok, j: nat, x: seq<byte>)
    requires k <= j <= |log|
    ensures Seek(log[..k] + [t] + log[k..], j + 1, x) == Shift(Seek(log, j, x))
    decreases |log| - j
  {
    if j < |log| {
      SeekBehind(log, k, t, j + 1, x);
    }
  }

  /** A search that starts before the node ends there at the latest. */
  lemma {:induction false} SeekBefore(log: seq<Tok>, n: nat, t: Tok, j: nat, x: seq<byte>)
    requires n < |log| && log[n].Begin? && j <= n
    ensures Seek(log[..n + 1] + [t] + log[n + 1..], j, x) == Seek(log, j, x) && !Seek(log, j, x).Unended?
    ensures Seek(log, j, x).Found? ==> Seek(log, j, x).at < n
    decreases n - j
  {
    if j < n {
      SeekBefore(log, n, t, j + 1, x);
    }
  }

  /** After a property has been set, reading it gives the new value. */
  lemma SetThenGet(log: seq<Tok>, n: nat, name: seq<byte>, val: seq<byte>)
    requires n < |log| && !Seek(log, n + 1, name).Unended?
    ensures |SetLog(log, n, name, val)| > n && Value(SetLog(log, n, name, val), n, name) == Some(val)
  {
    match Seek(log, n + 1, name)
    case Found(k) => SeekReplaced(log, k, val, n + 1, name);
    case Absent =>
  }

  /** Every other property of every node reads as before. */
  lemma SetFrame(log: seq<Tok>, n: nat, name: seq<byte>, val: seq<byte>, i: nat, x: seq<byte>)
    requires n < |log| && log[n].Begin? && i < |log| && log[i].Begin? && (i != n || x != name)
    ensures After(log, n, name, i) < |SetLog(log, n, name, val)|
    ensures Value(SetLog(log, n, name, val), After(log, n, name, i), x) == Value(log, i, x)
  {
    match Seek(log, n + 1, name)
    case Found(k) => ReplacedFrame(log, n, k, val, i, x);
    case Absent => InsertedFrame(log, n, Prop(name, val), i, x);
    case Unended =>
  }

  lemma ReplacedFrame(log: seq<Tok>, n: nat, k: nat, val: seq<byte>, i: nat, x: seq<byte>)
    requires n < k < |log| && log[n].Begin? && i < |log| && log[i].Begin? && log[k].Prop?
    requires i != n || x != log[k].name
    requires Seek(log, n + 1, log[k].name) == Found(k)
    ensures Value(log[k := Prop(log[k].name, val)], i, x) == Value(log, i, x)
  {
    SeekReplaced(log, k, val, i + 1, x);
    if i < n {
      SeekBefore(log, n, log[n], i + 1, x);
    } else if n < i <= k {
      SeekRun(log, n + 1, log[k].name, i);
    }
  }

  lemma InsertedFrame(log: seq<Tok>, n: nat, t: Tok, i: nat, x: seq<byte>)
    requires n < |log| && log[n].Begin? && i < |log| && log[i].Begin? && t.Prop? && (i != n || x != t.name)
    ensures Value(log[..n + 1] + [t] + log[n + 1..], if i > n then i + 1 else i, x) == Value(log, i, x)
  {
    if i < n {
      SeekBefore(log, n, t, i + 1, x);
    } else {
      SeekBehind(log, n + 1, t, i + 1, x);
    }
  }

  /** Nodes and no-ops without the properties between them. */
  function Skeleton(log: seq<Tok>): seq<Tok> {
    if log == [] then []
    else (if log[0].Prop? then [] else [log[0]]) + Skeleton(log[1..])
  }

  lemma {:induction false} SkeletonConcat(a: seq<Tok>, b: seq<Tok>)
    ensures Skeleton(a + b) == Skeleton(a) + Skeleton(b)
  {
    if a == [] {
      assert a + b == b;
    } else {
      assert (a + b)[1..] == a[1..] + b;
      SkeletonConcat(a[1..], b);
    }
  }

  /** One property more or less, or another, between the same tokens. */
  lemma SkeletonAround(a: seq<Tok>, s: seq<Tok>, c: seq<Tok>)
    requires |s| <= 1 && (s != [] ==> s[0].Prop?)
    ensures Skeleton(a + s + c) == Skeleton(a) + Skeleton(c)
  {
    assert s != [] ==> s[1..] == [];
    SkeletonConcat(a + s, c);
    SkeletonConcat(a, s);
  }

  /** Setting a property leaves the nodes as they are. */
  lemma SetKeepsNodes(log: seq<Tok>, n: nat, name: seq<byte>, val: seq<byte>)
    requires n < |log|
    ensures Skeleton(SetLog(log, n, name, val)) == Skeleton(log)
  {
    match Seek(log, n + 1, name)
    case Found(k) => ReplacedNodes(log, k, Prop(name, val));
    case Absent => InsertedNodes(log, n + 1, Prop(name, val));
    case Unended =>
  }

  lemma ReplacedNodes(log: seq<Tok>, k: nat, t: Tok)
    requires k < |log| && log[k].Prop? && t.Prop?
    ensures Skeleton(log[k := t]) == Skeleton(log)
  {
    assert log == log[..k] + [log[k]] + log[k + 1..] && log[k := t] == log[..k] + [t] + log[k + 1..];
    SkeletonAround(log[..k], [log[k]], log[k + 1..]);
    SkeletonAround(log[..k], [t], log[k + 1..]);
  }

  lemma InsertedNodes(log: seq<Tok>, k: nat, t: Tok)
    requires k <= |log| && t.Prop?
    ensures Skeleton(log[..k] + [t] + log[k..]) == Skeleton(log)
  {
    assert log == log[..k] + [] + log[k..];
    SkeletonAround(log[..k], [], log[k..]);
    SkeletonAround(log[..k], [t], log[k..]);
  }

  // ------------------------------------------------------------ moved bytes

  lemma LoadMoved(b: seq<byte>, p: nat, b': seq<byte>, p': nat, n: nat, d: nat)
    requires Moved(b, p, b', p', n) && d + 4 <= n
    ensures Load32(b', p' + d) == Load32(b, p + d)
  {
    assert SameAt(b, p, b', p', d) && SameAt(b, p, b', p', d + 1) && SameAt(b, p, b', p', d + 2) &&
        SameAt(b, p, b', p', d + 3);
  }

  lemma TokMoved(b: seq<byte>, p: nat, b': seq<byte>, p': nat, t: Tok, noff: nat)
    requires TokAt(b, p, t, noff) && Moved(b, p, b', p', TokLen(t))
    ensures TokAt(b', p', t, noff)
  {
    TokLen4(t);
    LoadMoved(b, p, b', p', TokLen(t), 0);
    match t
    case Begin(n) =>
      Align4Facts(|n| + 1);
      StrMoved(b, p, b', p', TokLen(t), 4, n);
    case Prop(_, d) =>
      Align4Facts(|d|);
      LoadMoved(b, p, b', p', TokLen(t), 4);
      LoadMoved(b, p, b', p', TokLen(t), 8);
      MovedPart(b, p, b', p', TokLen(t), 12, |d|);
      SliceMoved(b, p + 12, b', p' + 12, |d|);
    case End =>
    case Nop =>
  }

  lemma TokMovedBy(b: seq<byte>, p: nat, b': seq<byte>, p': nat, l: nat, d: nat, t: Tok, noff: nat)
    requires Moved(b, p, b', p', l) && d + TokLen(t) <= l && TokAt(b, p + d, t, noff)
    ensures TokAt(b', p' + d, t, noff)
  {
    MovedPart(b, p, b', p', l, d, TokLen(t));
    TokMoved(b, p + d, b', p' + d, t, noff);
  }

  // ------------------------------------------------------------ layouts with one token changed

  /** Where token `i` behind the splice goes when `t` takes the place of the `m` tokens at `k`. */
  ghost function Beyond(y: Layout, k: nat, m: nat, t: Tok, i: nat): nat
    requires Sized(y) && k + m <= i <= |y.log|
  {
    OffsMono(y, k + m, i);
    y.offs[k] + TokLen(t) + (y.offs[i] - y.offs[k + m])
  }

  /** The layout with the `m` tokens at `k` replaced by `t`. */
  ghost function Spliced(y: Layout, k: nat, m: nat, t: Tok, noff: nat): Layout
    requires Sized(y) && k + m <= |y.log|
  {
    Layout(y.log[..k] + [t] + y.log[k + m..],
           y.offs[..k + 1] + seq<nat>(|y.log| - k - m + 1,
                                      i requires 0 <= i <= |y.log| - k - m => Beyond(y, k, m, t, k + m + i)),
           y.noffs[..k] + [noff] + y.noffs[k + m..])
  }

  ghost function OffIn(y: Layout, k: nat, m: nat, t: Tok, i: nat): nat
    requires Sized(y) && k + m <= |y.log| && i <= |y.log| + 1 - m
  {
    if i <= k then y.offs[i] else Beyond(y, k, m, t, i - 1 + m)
  }

  ghost function At<T>(s: seq<T>, k: nat, m: nat, t: T, i: nat): T
    requires k + m <= |s| && i < |s| + 1 - m
  {
    if i < k then s[i] else if i == k then t else s[i - 1 + m]
  }

  /** The edited layout place by place. */
  ghost predicate SpliceOf(y: Layout, k: nat, m: nat, t: Tok, noff: nat, y': Layout)
    requires Sized(y) && k + m <= |y.log|
  {
    && |y'.log| == |y'.noffs| == |y.log| + 1 - m && |y'.offs| == |y.log| + 2 - m
    && (forall i | 0 <= i <= |y.log| + 1 - m :: y'.offs[i] == OffIn(y, k, m, t, i))
    && (forall i | 0 <= i < |y.log| + 1 - m ::
        y'.log[i] == At(y.log, k, m, t, i) && y'.noffs[i] == At(y.noffs, k, m, noff, i))
  }

  lemma SplicedIs(y: Layout, k: nat, m: nat, t: Tok, noff: nat)
    requires Sized(y) && k + m <= |y.log|
    ensures SpliceOf(y, k, m, t, noff, Spliced(y, k, m, t, noff))
  {
    var y' := Spliced(y, k, m, t, noff);
    forall i | 0 <= i <= |y.log| + 1 - m ensures y'.offs[i] == OffIn(y, k, m, t, i) {
      SplicedOff(y, k, m, t, noff, i);
    }
    forall i | 0 <= i < |y.log| + 1 - m
      ensures y'.log[i] == At(y.log, k, m, t, i) && y'.noffs[i] == At(y.noffs, k, m, noff, i)
    {
      AtSpliced(y.log, k, m, t, i);
      AtSpliced(y.noffs, k, m, noff, i);
    }
  }

  lemma AtSpliced<T>(s: seq<T>, k: nat, m: nat, t: T, i: nat)
    requires k + m <= |s| && i < |s| + 1 - m
    ensures (s[..k] + [t] + s[k + m..])[i] == At(s, k, m, t, i)
  {
  }

  lemma SplicedOff(y: Layout, k: nat, m: nat, t: Tok, noff: nat, i: nat)
    requires Sized(y) && k + m <= |y.log| && i <= |y.log| + 1 - m
    ensures |Spliced(y, k, m, t, noff).offs| == |y.log| + 2 - m
    ensures Spliced(y, k, m, t, noff).offs[i] == OffIn(y, k, m, t, i)
  {
  }

  lemma SpliceSized(y: Layout, k: nat, m: nat, t: Tok, noff: nat, y': Layout)
    requires Sized(y) && k + m <= |y.log| && SpliceOf(y, k, m, t, noff, y')
    ensures Sized(y')
  {
    assert y'.offs[0] == OffIn(y, k, m, t, 0);
    forall i | 0 <= i < |y'.log| ensures y'.offs[i + 1] == y'.offs[i] + TokLen(y'.log[i]) {
      assert y'.offs[i] == OffIn(y, k, m, t, i) && y'.offs[i + 1] == OffIn(y, k, m, t, i + 1);
      assert y'.log[i] == At(y.log, k, m, t, i);
    }
  }

  // ------------------------------------------------------------ the edited blob

  /** fdt_blocks_misordered_ denied; only the reserve map's end can wrap. */
  predicate Ordered(h: Header) {
    && h.offRsv >= HEADER_SIZE && h.offStruct >= (h.offRsv + 16) % U32
    && h.offStrings >= h.offStruct + h.sizeStruct && h.totalsize >= h.offStrings + h.sizeStrings
  }

  /** fdt_data_size_ */
  function DataSize(h: Header): nat {
    h.offStrings + h.sizeStrings
  }

  /** The header after the structure block has grown by `delta` bytes. */
  predicate Resized(h: Header, h': Header, delta: int) {
    && h.sizeStruct + delta >= 0 && h.offStrings + delta >= 0
    && h' == h.(sizeStruct := h.sizeStruct + delta, offStrings := h.offStrings + delta)
  }

  /** `t` stands at `p` where the bytes up to `q` stood and all that followed has moved up behind it. */
  ghost predicate EditAt(h: Header, b: seq<byte>, p: nat, q: nat, t: Tok, noff: nat, h': Header, b': seq<byte>) {
    && |b'| == |b| && p <= q <= DataSize(h) && p + TokLen(t) + (DataSize(h) - q) <= h.totalsize
    && Resized(h, h', TokLen(t) - (q - p)) && SameOn(b, b', 0, p) && Moved(b, q, b', p + TokLen(t), DataSize(h) - q)
    && TokAt(b', p, t, noff) && (t.Prop? ==> NameIn(h, b, noff, t.name))
  }

  /** The `m` tokens at `k` have been replaced by `t`. */
  ghost predicate Edited(h: Header, b: seq<byte>, y: Layout, k: nat, m: nat, t: Tok, noff: nat, h': Header,
                         b': seq<byte>)
    requires Sized(y) && k + m <= |y.log|
  {
    EditAt(h, b, h.offStruct + y.offs[k], h.offStruct + y.offs[k + m], t, noff, h', b')
  }

  lemma TokenBehind(b: seq<byte>, b': seq<byte>, y: Layout, base: nat, k: nat, m: nat, t: Tok, l: nat, j: nat)
    requires Sized(y) && k + m <= j < |y.log| && y.offs[|y.log|] <= y.offs[k + m] + l
    requires Moved(b, base + y.offs[k + m], b', base + y.offs[k] + TokLen(t), l)
    requires TokAt(b, base + y.offs[j], y.log[j], y.noffs[j])
    ensures TokAt(b', base + Beyond(y, k, m, t, j), y.log[j], y.noffs[j])
  {
    OffsMono(y, k + m, j);
    OffsMono(y, j + 1, |y.log|);
    var d := y.offs[j] - y.offs[k + m];
    TokMovedBy(b, base + y.offs[k + m], b', base + y.offs[k] + TokLen(t), l, d, y.log[j], y.noffs[j]);
  }

  lemma TokenBefore(b: seq<byte>, b': seq<byte>, y: Layout, base: nat, k: nat, j: nat)
    requires Sized(y) && j < k <= |y.log| && SameOn(b, b', 0, base + y.offs[k])
    requires TokAt(b, base + y.offs[j], y.log[j], y.noffs[j])
    ensures TokAt(b', base + y.offs[j], y.log[j], y.noffs[j])
  {
    OffsMono(y, j + 1, k);
    TokFrame(b, b', base + y.offs[j], y.log[j], y.noffs[j]);
  }

  /** All tokens of `y` from `k + m` on have moved up behind the new token `t` at `k`. */
  ghost predicate Placed(b: seq<byte>, y: Layout, base: nat, k: nat, m: nat, t: Tok, noff: nat, b': seq<byte>, l: nat)
    requires Sized(y)
  {
    && k + m <= |y.log| && y.offs[|y.log|] <= y.offs[k + m] + l
    && SameOn(b, b', 0, base + y.offs[k]) && TokAt(b', base + y.offs[k], t, noff)
    && Moved(b, base + y.offs[k + m], b', base + y.offs[k] + TokLen(t), l)
  }

  lemma EditedToken(b: seq<byte>, y: Layout, base: nat, k: nat, m: nat, t: Tok, noff: nat, b': seq<byte>, l: nat,
                    i: nat, j: nat)
    requires Sized(y) && Placed(b, y, base, k, m, t, noff, b', l) && i < |y.log| + 1 - m
    requires i != k ==> j == (if i < k then i else i - 1 + m) && TokAt(b, base + y.offs[j], y.log[j], y.noffs[j])
    ensures TokAt(b', base + OffIn(y, k, m, t, i), At(y.log, k, m, t, i), At(y.noffs, k, m, noff, i))
  {
    if i < k {
      TokenBefore(b, b', y, base, k, i);
    } else if i > k {
      TokenBehind(b, b', y, base, k, m, t, l, j);
    }
  }

  lemma LaidAt(h: Header, b: seq<byte>, y: Layout, i: nat)
    requires Laid(h, b, y) && i < |y.log|
    ensures TokAt(b, h.offStruct + y.offs[i], y.log[i], y.noffs[i])
  {
    assert TokHere(h, b, y, i);
  }

  lemma EditedAt(h: Header, b: seq<byte>, y: Layout, k: nat, m: nat, t: Tok, noff: nat, b': seq<byte>, l: nat, i: nat)
    requires Laid(h, b, y) && Placed(b, y, h.offStruct, k, m, t, noff, b', l) && i < |y.log| + 1 - m
    ensures TokAt(b', h.offStruct + OffIn(y, k, m, t, i), At(y.log, k, m, t, i), At(y.noffs, k, m, noff, i))
  {
    if i == k {
      EditedToken(b, y, h.offStruct, k, m, t, noff, b', l, i, i);
    } else {
      var j := if i < k then i else i - 1 + m;
      LaidAt(h, b, y, j);
      EditedToken(b, y, h.offStruct, k, m, t, noff, b', l, i, j);
    }
  }

  lemma EditedLaid(h: Header, b: seq<byte>, y: Layout, k: nat, m: nat, t: Tok, noff: nat, h': Header, b': seq<byte>,
                   l: nat, y': Layout)
    requires Laid(h, b, y) && Placed(b, y, h.offStruct, k, m, t, noff, b', l) && h'.offStruct == h.offStruct
    requires SpliceOf(y, k, m, t, noff, y')
    ensures Laid(h', b', y')
  {
    SpliceSized(y, k, m, t, noff, y');
    forall i | 0 <= i < |y'.log| ensures TokHere(h', b', y', i) {
      EditedAt(h, b, y, k, m, t, noff, b', l, i);
    }
  }

  lemma NameBehind(h: Header, b: seq<byte>, h': Header, b': seq<byte>, q: nat, q': nat, l: nat, o: nat, s: seq<byte>)
    requires Moved(b, q, b', q', l) && q <= h.offStrings && DataSize(h) <= q + l && NameIn(h, b, o, s)
    requires h'.offStrings == h.offStrings - q + q' && h'.sizeStrings == h.sizeStrings
    ensures NameIn(h', b', o, s)
  {
    StrMoved(b, q, b', q', l, h.offStrings + o - q, s);
  }

  lemma EditedNames(h: Header, b: seq<byte>, y: Layout, k: nat, m: nat, t: Tok, noff: nat, h': Header, b': seq<byte>,
                    q: nat, q': nat, l: nat, y': Layout)
    requires Sized(y) && Named(h, b, y) && k + m <= |y.log| && (t.Prop? ==> NameIn(h, b, noff, t.name))
    requires Moved(b, q, b', q', l) && q <= h.offStrings && DataSize(h) <= q + l
    requires h'.offStrings == h.offStrings - q + q' && h'.sizeStrings == h.sizeStrings
    requires SpliceOf(y, k, m, t, noff, y') && Sized(y')
    ensures Named(h', b', y')
  {
    forall i | 0 <= i < |y'.log| && y'.log[i].Prop? ensures NameIn(h', b', y'.noffs[i], y'.log[i].name) {
      assert y'.log[i] == At(y.log, k, m, t, i) && y'.noffs[i] == At(y.noffs, k, m, noff, i);
      NameBehind(h, b, h', b', q, q', l, y'.noffs[i], y'.log[i].name);
    }
  }

  lemma EditedEnd(b: seq<byte>, b': seq<byte>, y: Layout, base: nat, k: nat, m: nat, t: Tok, l: nat)
    requires Sized(y) && k + m <= |y.log| && y.offs[|y.log|] + 4 <= y.offs[k + m] + l
    requires Moved(b, base + y.offs[k + m], b', base + y.offs[k] + TokLen(t), l)
    ensures base + y.offs[|y.log|] + 4 <= |b| && base + Beyond(y, k, m, t, |y.log|) + 4 <= |b'|
    ensures Load32(b', base + Beyond(y, k, m, t, |y.log|)) == Load32(b, base + y.offs[|y.log|])
  {
    OffsMono(y, k + m, |y.log|);
    LoadMoved(b, base + y.offs[k + m], b', base + y.offs[k] + TokLen(t), l, y.offs[|y.log|] - y.offs[k + m]);
  }

  /** The tokens of the edited blob. */
  lemma EditedTokens(h: Header, b: seq<byte>, y: Layout, k: nat, m: nat, t: Tok, noff: nat, h': Header, b': seq<byte>,
                     y': Layout)
    requires Ready(h, b, y) && Ordered(h) && k + m <= |y.log| && Edited(h, b, y, k, m, t, noff, h', b')
    requires SpliceOf(y, k, m, t, noff, y')
    ensures Laid(h', b', y')
  {
    EditedLaid(h, b, y, k, m, t, noff, h', b', DataSize(h) - h.offStruct - y.offs[k + m], y');
  }

  /** Its names. */
  lemma EditedStrings(h: Header, b: seq<byte>, y: Layout, k: nat, m: nat, t: Tok, noff: nat, h': Header, b': seq<byte>,
                      y': Layout)
    requires Ready(h, b, y) && Ordered(h) && k + m <= |y.log| && Edited(h, b, y, k, m, t, noff, h', b')
    requires SpliceOf(y, k, m, t, noff, y') && Sized(y')
    ensures Named(h', b', y')
  {
    var q, q', l := EditedBounds(h, b, y, k, m, t, noff, h', b');
    EditedNames(h, b, y, k, m, t, noff, h', b', q, q', l, y');
  }

  lemma EditedBounds(h: Header, b: seq<byte>, y: Layout, k: nat, m: nat, t: Tok, noff: nat, h': Header, b': seq<byte>)
      returns (q: nat, q': nat, l: nat)
    requires Ready(h, b, y) && Ordered(h) && k + m <= |y.log| && Edited(h, b, y, k, m, t, noff, h', b')
    ensures q == h.offStruct + y.offs[k + m] && q' == h.offStruct + y.offs[k] + TokLen(t) && l == DataSize(h) - q
    ensures Moved(b, q, b', q', l) && q <= h.offStrings && DataSize(h) <= q + l
    ensures y.offs[|y.log|] + 4 <= y.offs[k + m] + l
    ensures h'.offStrings == h.offStrings - q + q' && h'.sizeStrings == h.sizeStrings
    ensures h'.sizeStruct == h.sizeStruct - q + q'
  {
    OffsMono(y, k + m, |y.log|);
    q, q' := h.offStruct + y.offs[k + m], h.offStruct + y.offs[k] + TokLen(t);
    l := DataSize(h) - q;
  }

  lemma EditedHeader(h: Header, b: seq<byte>, y: Layout, k: nat, m: nat, t: Tok, noff: nat, h': Header, b': seq<byte>)
    requires Ready(h, b, y) && Ordered(h) && k + m <= |y.log| && Edited(h, b, y, k, m, t, noff, h', b')
    ensures Words(h') && Finished(h', b') && h'.version >= LAST_SUPPORTED_VERSION && Ordered(h')
  {
    var q, q', l := EditedBounds(h, b, y, k, m, t, noff, h', b');
  }

  /** A splice with the new token in place leaves a blob that holds the edited tokens. */
  lemma EditedReady(h: Header, b: seq<byte>, y: Layout, k: nat, m: nat, t: Tok, noff: nat, h': Header, b': seq<byte>,
                    y': Layout)
    requires Ready(h, b, y) && Ordered(h) && k + m <= |y.log| && Edited(h, b, y, k, m, t, noff, h', b')
    requires SpliceOf(y, k, m, t, noff, y')
    ensures Ready(h', b', y') && Ordered(h')
  {
    EditedHeader(h, b, y, k, m, t, noff, h', b');
    EditedTokens(h, b, y, k, m, t, noff, h', b', y');
    EditedStrings(h, b, y, k, m, t, noff, h', b', y');
    EditedTail(h, b, y, k, m, t, noff, h', b', y');
  }

  lemma EditedTail(h: Header, b: seq<byte>, y: Layout, k: nat, m: nat, t: Tok, noff: nat, h': Header, b': seq<byte>,
                   y': Layout)
    requires Ready(h, b, y) && Ordered(h) && k + m <= |y.log| && Edited(h, b, y, k, m, t, noff, h', b')
    requires SpliceOf(y, k, m, t, noff, y')
    ensures y'.offs[|y'.log|] + 4 <= h'.sizeStruct && EndAt(b', h'.offStruct + y'.offs[|y'.log|])
  {
    var q, q', l := EditedBounds(h, b, y, k, m, t, noff, h', b');
    LastOff(y, k, m, t, noff, y');
    TailAt(b, b', y, h.offStruct, k, m, t, noff, l, y');
  }

  ghost predicate EndAt(b: seq<byte>, p: nat) {
    p + 4 <= |b| && Load32(b, p) == FDT_END
  }

  lemma TailAt(b: seq<byte>, b': seq<byte>, y: Layout, base: nat, k: nat, m: nat, t: Tok, noff: nat, l: nat, y': Layout)
    requires Sized(y) && k + m <= |y.log| && y.offs[|y.log|] + 4 <= y.offs[k + m] + l && SpliceOf(y, k, m, t, noff, y')
    requires Moved(b, base + y.offs[k + m], b', base + y.offs[k] + TokLen(t), l) && EndAt(b, base + y.offs[|y.log|])
    ensures EndAt(b', base + y'.offs[|y'.log|])
  {
    EditedEnd(b, b', y, base, k, m, t, l);
    LastOff(y, k, m, t, noff, y');
  }

  lemma LastOff(y: Layout, k: nat, m: nat, t: Tok, noff: nat, y': Layout)
    requires Sized(y) && k + m <= |y.log| && SpliceOf(y, k, m, t, noff, y')
    ensures y'.offs[|y'.log|] == Beyond(y, k, m, t, |y.log|) == y.offs[|y.log|] + y.offs[k] + TokLen(t) - y.offs[k + m]
  {
    assert y'.offs[|y'.log|] == OffIn(y, k, m, t, |y.log| + 1 - m);
  }

  lemma NamesFrame(h: Header, b: seq<byte>, y: Layout, h': Header, b': seq<byte>)
    requires Sized(y) && Named(h, b, y) && SameOn(b, b', 0, DataSize(h))
    requires h'.offStrings == h.offStrings && h.sizeStrings <= h'.sizeStrings
    ensures Named(h', b', y)
  {
    forall i | 0 <= i < |y.log| && y.log[i].Prop? ensures NameIn(h', b', y.noffs[i], y.log[i].name) {
      assert NameIn(h, b, y.noffs[i], y.log[i].name);
      StrFrame(b, b', h.offStrings + y.noffs[i], y.log[i].name);
    }
  }

  /** Bytes behind the used part of the blob do not matter. */
  lemma ReadyFrame(h: Header, b: seq<byte>, y: Layout, h': Header, b': seq<byte>)
    requires Ready(h, b, y) && Ordered(h) && |b'| == |b| && SameOn(b, b', 0, DataSize(h))
    requires h' == h.(sizeStrings := h'.sizeStrings) && h.sizeStrings <= h'.sizeStrings && DataSize(h') <= h.totalsize
    ensures Ready(h', b', y) && Ordered(h')
  {
    LaidFrame(h, b, h', b', y);
    LoadFrame(b, b', h.offStruct + y.offs[|y.log|]);
    NamesFrame(h, b, y, h', b');
  }

  // ------------------------------------------------------------ fdt_setprop

  /** The name stands somewhere in the strings block. */
  ghost predicate HasString(h: Header, b: seq<byte>, s: seq<byte>) {
    exists p: nat :: StringIn(b, h.offStrings, h.sizeStrings, s, p)
  }

  /** What fdt_setprop answers. */
  ghost function Outcome(h: Header, b: seq<byte>, y: Layout, node: int, n: nat, name: seq<byte>, len: nat): int
    requires NodeArg(h, b, y, node, n)
  {
    if !Ordered(h) then ERR_BADLAYOUT
    else if CheckTag(h, b, node, FDT_BEGIN_NODE) < 0 then ERR_BADOFFSET
    else
      match Seek(y.log, n + 1, name)
      case Unended => ERR_BADSTRUCTURE
      case Found(k) => if DataSize(h) - Align4(|y.log[k].data|) + Align4(len) <= h.totalsize then 0 else ERR_NOSPACE
      case Absent => if Fits(h, b, name, len) then 0 else ERR_NOSPACE
  }

  /** The room a new property needs is there, with its name unless that stands already. */
  ghost predicate Fits(h: Header, b: seq<byte>, name: seq<byte>, len: nat) {
    DataSize(h) + 12 + Align4(len) + (if HasString(h, b, name) then 0 else |name| + 1) <= h.totalsize
  }

  /** memmove of everything from `p + oldlen` on to `p + newlen`. */
  ghost predicate MovedUp(h: Header, b: seq<byte>, b': seq<byte>, p: nat, oldlen: nat, newlen: nat) {
    && p + oldlen <= DataSize(h) <= h.totalsize && DataSize(h) - oldlen + newlen <= h.totalsize <= |b| == |b'|
    && SameOn(b, b', 0, p + newlen) && Moved(b, p + oldlen, b', p + newlen, DataSize(h) - p - oldlen)
  }

  /** Only the `n` bytes at `p` may have changed. */
  ghost predicate Outside(b: seq<byte>, b': seq<byte>, p: nat, n: nat) {
    p + n <= |b| == |b'| && SameOn(b, b', 0, p) && SameOn(b, b', p + n, |b|)
  }

  lemma PropEnd(h: Header, b: seq<byte>, y: Layout, k: nat)
    requires Ready(h, b, y) && Ordered(h) && k < |y.log| && y.log[k].Prop?
    ensures y.offs[k + 1] == y.offs[k] + 12 + Align4(|y.log[k].data|)
    ensures h.offStruct + y.offs[k + 1] + 4 <= h.offStrings && y.offs[k + 1] + 4 <= h.sizeStruct
    ensures |y.log[k].data| <= Align4(|y.log[k].data|) <= INT_MAX
  {
    OffsMono(y, k + 1, |y.log|);
    Align4Facts(|y.log[k].data|);
  }

  /** Then the head of the property is stored inside the gap. */
  lemma HeadStored(h: Header, b: seq<byte>, b1: seq<byte>, b': seq<byte>, p: nat, gap: nat, oldlen: nat, newlen: nat,
                   at: nat, n: nat)
    requires MovedUp(h, b, b1, gap, oldlen, newlen) && p <= at && p <= gap && at + n <= gap + newlen
    requires Outside(b1, b', at, n)
    ensures |b'| == |b| && SameOn(b, b', 0, p) && Moved(b, gap + oldlen, b', gap + newlen, DataSize(h) - gap - oldlen)
  {
    forall q | 0 <= q < p ensures Same(b, b', q) {
      assert Same(b, b1, q) && Same(b1, b', q);
    }
    var from, to := gap + oldlen, gap + newlen;
    forall i | 0 <= i < DataSize(h) - from ensures SameAt(b, from, b', to, i) {
      assert SameAt(b, from, b1, to, i) && Same(b1, b', to + i);
    }
  }

  /** After the bytes behind the value have moved and its length is stored, a property of the new
      length stands there. */
  lemma ResizeAt(h: Header, b: seq<byte>, p: nat, t: Tok, noff: nat, len: nat, h': Header, b1: seq<byte>, b': seq<byte>,
                 was: nat, now: nat)
      returns (t': Tok)
    requires t.Prop? && TokAt(b, p, t, noff) && NameIn(h, b, noff, t.name) && was == Align4(|t.data|)
    requires now == Align4(len)
    requires MovedUp(h, b, b1, p + 12, was, now) && Resized(h, h', now - was)
    requires Outside(b1, b', p + 4, 4) && Load32(b', p + 4) == len
    ensures t'.Prop? && t'.name == t.name && |t'.data| == len && EditAt(h, b, p, p + 12 + was, t', noff, h', b')
  {
    Align4Facts(len);
    HeadStored(h, b, b1, b', p, p + 12, was, now, p + 4, 4);
    t' := ResizedToken(b, b1, b', p, t, noff, len, now);
    MakeEdit(h, b, p, p + 12 + was, t', noff, h', b');
  }

  lemma MakeEdit(h: Header, b: seq<byte>, p: nat, q: nat, t: Tok, noff: nat, h': Header, b': seq<byte>)
    requires |b'| == |b| && p <= q <= DataSize(h) && p + TokLen(t) + (DataSize(h) - q) <= h.totalsize
    requires Resized(h, h', TokLen(t) - (q - p)) && SameOn(b, b', 0, p)
    requires Moved(b, q, b', p + TokLen(t), DataSize(h) - q)
    requires t.Prop? && TokAt(b', p, t, noff) && NameIn(h, b, noff, t.name)
    ensures EditAt(h, b, p, q, t, noff, h', b')
  {
  }

  lemma ResizedToken(b: seq<byte>, b1: seq<byte>, b': seq<byte>, p: nat, t: Tok, noff: nat, len: nat, room: nat)
      returns (t': Tok)
    requires t.Prop? && TokAt(b, p, t, noff) && len <= room && p + 12 + room <= |b1| && SameOn(b, b1, 0, p + 12 + room)
    requires Outside(b1, b', p + 4, 4) && Load32(b', p + 4) == len
    ensures t'.Prop? && t'.name == t.name && |t'.data| == len && TokAt(b', p, t', noff)
  {
    forall i | 0 <= i < p + 12 && !(p + 4 <= i < p + 8) ensures Same(b, b', i) {
      assert Same(b, b1, i) && Same(b1, b', i);
    }
    LoadFrame(b, b', p);
    LoadFrame(b, b', p + 8);
    t' := Prop(t.name, b'[p + 12..p + 12 + len]);
  }

  /** A new property `t` at `p`. */
  lemma AddAt(h: Header, b: seq<byte>, p: nat, t: Tok, noff: nat, h': Header, b1: seq<byte>, b': seq<byte>, now: nat)
    requires t.Prop? && TokAt(b', p, t, noff) && NameIn(h, b, noff, t.name) && now == TokLen(t)
    requires MovedUp(h, b, b1, p, 0, now) && Resized(h, h', now) && Outside(b1, b', p, 12)
    ensures EditAt(h, b, p, p, t, noff, h', b')
  {
    HeadStored(h, b, b1, b', p, p, 0, now, p, 12);
    MakeEdit(h, b, p, p, t, noff, h', b');
  }

  lemma NewToken(b1: seq<byte>, b': seq<byte>, p: nat, name: seq<byte>, len: nat, noff: nat) returns (t: Tok)
    requires len < U32 && noff < U32 && p + 12 + len <= |b1|
    requires b' == Patch(b1, p, Bytes32(FDT_PROP) + Bytes32(len) + Bytes32(noff))
    ensures t.Prop? && t.name == name && |t.data| == len && TokAt(b', p, t, noff) && Outside(b1, b', p, 12)
  {
    var head, d := Bytes32(FDT_PROP) + Bytes32(len) + Bytes32(noff), b1[p + 12..p + 12 + len];
    assert b' == Patch(b1, p, head + d);
    t := Prop(name, d);
    PropStored(b1, b', p, noff, name, d);
  }

  /** A value of the same length written over the old one. */
  lemma FillAt(h: Header, b: seq<byte>, p: nat, t: Tok, noff: nat, val: seq<byte>, b': seq<byte>)
    requires t.Prop? && TokAt(b, p, t, noff) && NameIn(h, b, noff, t.name) && |val| == |t.data|
    requires p + 12 + Align4(|val|) <= DataSize(h) <= h.totalsize <= |b| && b' == Patch(b, p + 12, val)
    ensures EditAt(h, b, p, p + 12 + Align4(|val|), Prop(t.name, val), noff, h, b')
  {
    Align4Facts(|val|);
    LoadFrame(b, b', p);
    LoadFrame(b, b', p + 4);
    LoadFrame(b, b', p + 8);
    assert b'[p + 12..p + 12 + |val|] == val;
  }
}
