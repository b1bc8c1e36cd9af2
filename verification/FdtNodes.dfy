/** Going from node to node: fdt_next_node, fdt_first_subnode and fdt_next_subnode of
    kernel/device/libfdt/fdt.c. */
module FdtNodes {
  import opened Fdt
  import opened FdtWalk
  import opened FdtReader
  import opened FdtProps
  import opened Types

  // ------------------------------------------------------------ on tokens

  function Weight(t: Tok): int {
    match t
    case Begin(_) => 1
    case End => -1
    case _ => 0
  }

  /** How many more nodes begin than end among the tokens `lo..hi`. */
  function Level(log: seq<Tok>, lo: nat, hi: nat): int
    requires lo <= hi <= |log|
    decreases hi
  {
    if lo == hi then 0 else Level(log, lo, hi - 1) + Weight(log[hi - 1])
  }

  lemma {:induction false} LevelSplit(log: seq<Tok>, lo: nat, mid: nat, hi: nat)
    requires lo <= mid <= hi <= |log|
    ensures Level(log, lo, hi) == Level(log, lo, mid) + Level(log, mid, hi)
  {
    if mid < hi {
      LevelSplit(log, lo, mid, hi - 1);
    }
  }

  /** Counted from `d` at token `lo`, the depth is not negative at token `t`. */
  ghost predicate Open(log: seq<Tok>, lo: nat, d: int, t: nat) {
    lo <= t <= |log| && d + Level(log, lo, t) >= 0
  }

  /** ... nor anywhere before token `j`. */
  ghost predicate Inside(log: seq<Tok>, lo: nat, d: int, j: nat) {
    lo <= j <= |log| && forall t | lo <= t <= j :: Open(log, lo, d, t)
  }

  /** A node begins at token `c`, at depth 0, and the depth has not been negative on the way. */
  ghost predicate AtZero(log: seq<Tok>, lo: nat, d: int, c: nat) {
    c < |log| && log[c].Begin? && Inside(log, lo, d, c) && d + Level(log, lo, c) == 0
  }

  /** The node at `c` is a direct child of the node at `n`: between them as many nodes end as begin,
      and the node at `n` has not ended. */
  ghost predicate IsChild(log: seq<Tok>, n: nat, c: nat) {
    AtZero(log, n + 1, 0, c)
  }

  /** The node at `s` follows the node at `c` under the same parent: the node at `c` has ended, and
      since then nothing that it does not belong to itself has. */
  ghost predicate IsSibling(log: seq<Tok>, c: nat, s: nat) {
    AtZero(log, c + 1, 1, s)
  }

  /** The first node at depth 0 at or after token `j`. */
  ghost function ZeroFrom(log: seq<Tok>, lo: nat, d: int, j: nat): (r: Option<nat>)
    requires j <= |log|
    ensures r.Some? ==> j <= r.value < |log| && log[r.value].Begin?
    decreases |log| - j
  {
    if j == |log| then None else if AtZero(log, lo, d, j) then Some(j) else ZeroFrom(log, lo, d, j + 1)
  }

  lemma {:induction false} ZeroFromFirst(log: seq<Tok>, lo: nat, d: int, j: nat)
    requires j <= |log|
    ensures var r := ZeroFrom(log, lo, d, j);
            && (r.Some? ==> AtZero(log, lo, d, r.value) && NoZero(log, lo, d, j, r.value))
            && (r.None? ==> NoZero(log, lo, d, j, |log|))
    decreases |log| - j
  {
    if j < |log| && !AtZero(log, lo, d, j) {
      ZeroFromFirst(log, lo, d, j + 1);
    }
  }

  ghost predicate NoZero(log: seq<Tok>, lo: nat, d: int, j: nat, k: nat) {
    forall c | j <= c < k :: !AtZero(log, lo, d, c)
  }

  lemma {:induction false} ZeroFromSkips(log: seq<Tok>, lo: nat, d: int, j: nat, k: nat)
    requires j <= k <= |log| && NoZero(log, lo, d, j, k)
    ensures ZeroFrom(log, lo, d, j) == ZeroFrom(log, lo, d, k)
    decreases k - j
  {
    if j < k {
      ZeroFromSkips(log, lo, d, j + 1, k);
    }
  }

  lemma SameOpen(log: seq<Tok>, lo: nat, d: int, c: nat, t: nat)
    requires AtZero(log, lo, d, c) && c < t <= |log|
    ensures d + Level(log, lo, t) == 1 + Level(log, c + 1, t)
    ensures Open(log, lo, d, t) <==> Open(log, c + 1, 1, t)
  {
    LevelSplit(log, lo, c + 1, t);
    assert Level(log, lo, c + 1) == Level(log, lo, c) + 1;
  }

  /** Seen from a node at depth 0, the nodes at depth 0 behind it are its siblings. */
  lemma SameZero(log: seq<Tok>, lo: nat, d: int, c: nat, s: nat)
    requires AtZero(log, lo, d, c) && c < s
    ensures AtZero(log, lo, d, s) <==> IsSibling(log, c, s)
  {
    if s < |log| {
      SameOpen(log, lo, d, c, s);
      var from := c + 1;
      if Inside(log, lo, d, s) {
        forall t | from <= t <= s ensures Open(log, from, 1, t) {
          assert Open(log, lo, d, t);
          SameOpen(log, lo, d, c, t);
        }
      }
      if Inside(log, c + 1, 1, s) {
        forall t | lo <= t <= s ensures Open(log, lo, d, t) {
          if t > c {
            assert Open(log, c + 1, 1, t);
            SameOpen(log, lo, d, c, t);
          }
        }
      }
    }
  }

  lemma {:induction false} SameFrom(log: seq<Tok>, lo: nat, d: int, c: nat, j: nat)
    requires AtZero(log, lo, d, c) && c < j <= |log|
    ensures ZeroFrom(log, lo, d, j) == ZeroFrom(log, c + 1, 1, j)
    decreases |log| - j
  {
    if j < |log| {
      SameZero(log, lo, d, c, j);
      SameFrom(log, lo, d, c, j + 1);
    }
  }

  /** Two children of a node: the later one is a sibling of the earlier one. */
  lemma ChildrenAreSiblings(log: seq<Tok>, n: nat, c: nat, s: nat)
    requires IsChild(log, n, c) && c < s
    ensures IsChild(log, n, s) <==> IsSibling(log, c, s)
  {
    SameZero(log, n + 1, 0, c, s);
  }

  /** Where fdt_next_node stops: at a node, behind the token that takes the depth below 0, or at
      the end of the structure. */
  datatype Stop = Node(at: nat, depth: int) | Closed(next: nat, depth: int) | Nowhere

  function Hop(log: seq<Tok>, j: nat, depth: int): Stop
    requires j <= |log|
    decreases |log| - j
  {
    if j == |log| then Nowhere
    else if log[j].Begin? then Node(j, depth + 1)
    else if log[j].End? && depth - 1 < 0 then Closed(j + 1, depth - 1)
    else Hop(log, j + 1, depth + Weight(log[j]))
  }

  /** What the stop means for the nodes at depth 0. */
  ghost predicate Means(log: seq<Tok>, lo: nat, d: int, j: nat, r: Stop) {
    match r
    case Node(i, e) =>
      && Inside(log, lo, d, i) && j <= i < |log| && log[i].Begin? && e == d + Level(log, lo, i) + 1
      && NoZero(log, lo, d, j, i)
    case Closed(k, e) => j < k <= |log| && e < 0 && NoZero(log, lo, d, j, |log|)
    case Nowhere => NoZero(log, lo, d, j, |log|)
  }

  lemma {:induction false} HopMeans(log: seq<Tok>, lo: nat, d: int, j: nat, depth: int)
    requires Inside(log, lo, d, j) && depth == d + Level(log, lo, j)
    ensures Means(log, lo, d, j, Hop(log, j, depth))
    decreases |log| - j
  {
    if j < |log| && !log[j].Begin? {
      assert d + Level(log, lo, j + 1) == depth + Weight(log[j]);
      if log[j].End? && depth - 1 < 0 {
        Left(log, lo, d, j);
      } else {
        assert Open(log, lo, d, j) && Open(log, lo, d, j + 1);
        HopMeans(log, lo, d, j + 1, depth + Weight(log[j]));
      }
    }
  }

  /** Once the depth is negative no node is at depth 0 any more. */
  lemma Left(log: seq<Tok>, lo: nat, d: int, j: nat)
    requires lo <= j < |log| && !log[j].Begin? && d + Level(log, lo, j + 1) < 0
    ensures NoZero(log, lo, d, j, |log|)
  {
    forall c | j <= c < |log| ensures !AtZero(log, lo, d, c) {
      assert !Open(log, lo, d, j + 1);
    }
  }

  lemma {:induction false} HopDepth(log: seq<Tok>, j: nat, depth: int)
    requires j <= |log|
    ensures Hop(log, j, depth).Node? ==> Hop(log, j, depth).depth <= depth + 1
    decreases |log| - j
  {
    if j < |log| && !log[j].Begin? && !(log[j].End? && depth - 1 < 0) {
      HopDepth(log, j + 1, depth + Weight(log[j]));
    }
  }

  /** A stop at depth 1 is the next node at depth 0; a deeper one is none, and the search goes on behind it. */
  lemma StopZero(log: seq<Tok>, lo: nat, d: int, j: nat, r: Stop)
    requires lo <= j <= |log| && Means(log, lo, d, j, r)
    ensures !r.Node? ==> ZeroFrom(log, lo, d, j) == None
    ensures r.Node? ==> r.depth >= 1
    ensures r.Node? && r.depth == 1 ==> ZeroFrom(log, lo, d, j) == Some(r.at)
    ensures r.Node? && r.depth > 1 ==>
              && ZeroFrom(log, lo, d, j) == ZeroFrom(log, lo, d, r.at + 1) && Inside(log, lo, d, r.at + 1)
              && d + Level(log, lo, r.at + 1) == r.depth
  {
    if r.Node? {
      var i := r.at;
      assert Open(log, lo, d, i) && d + Level(log, lo, i + 1) == r.depth;
      if r.depth == 1 {
        ZeroFromSkips(log, lo, d, j, i);
      } else {
        assert Open(log, lo, d, i + 1);
        ZeroFromSkips(log, lo, d, j, i + 1);
      }
    } else {
      ZeroFromSkips(log, lo, d, j, |log|);
    }
  }

  // ------------------------------------------------------------ in the blob

  /** The offset and the depth, or the error, that belong to a stop. */
  ghost predicate Stopped(y: Layout, r: Stop, off: int, depth: int)
    requires Sized(y)
  {
    match r
    case Node(i, d) => i < |y.log| && off == y.offs[i] && depth == d
    case Closed(k, d) => k <= |y.log| && off == y.offs[k] && depth == d
    case Nowhere => off == ERR_NOTFOUND
  }

  /** The offset is not negative and not that of a node. */
  ghost predicate NoNode(h: Header, b: seq<byte>, node: int)
    requires h.totalsize <= |b|
  {
    node >= 0 && CheckTag(h, b, node, FDT_BEGIN_NODE) < 0
  }

  /** Where the way on begins: behind the token of the node or, for a negative offset, at the start. */
  function From(node: int, n: nat): nat {
    if node < 0 then 0 else n + 1
  }

  /** fdt_next_node, with a depth. */
  method NextNode(h: Header, buf: array<byte>, node: int, depth: int, ghost y: Layout, ghost n: nat)
      returns (off: int, depth': int)
    requires NodeArg(h, buf[..], y, node, n)
    ensures if NoNode(h, buf[..], node) then off == ERR_BADOFFSET
            else From(node, n) <= |y.log| && Stopped(y, Hop(y.log, From(node, n), depth), off, depth')
  {
    var next := 0;
    off, depth' := next, depth;
    if node >= 0 {
      next := CheckOffset(h, buf, node, FDT_BEGIN_NODE);
      if next < 0 {
        NextTagAdvances(h, buf[..], node);
        return next, depth;
      }
      TagAt(h, buf[..], y, n);
    }
    ghost var lo := From(node, n);
    ghost var j := lo;
    var stop := false;
    while !stop
      invariant if stop then Stopped(y, Hop(y.log, lo, depth), off, depth')
                else lo <= j <= |y.log| && next == y.offs[j] && Hop(y.log, lo, depth) == Hop(y.log, j, depth')
      decreases !stop, |y.log| - j
    {
      stop, off, next, depth' := Token(h, buf, next, depth', y, j);
      j := j + 1;
    }
  }

  /** One turn of its loop. */
  method Token(h: Header, buf: array<byte>, start: int, depth: int, ghost y: Layout, ghost j: nat)
      returns (stop: bool, off: int, next: int, depth': int)
    requires Ready(h, buf[..], y) && j <= |y.log| && start == y.offs[j]
    ensures if stop then Stopped(y, Hop(y.log, j, depth), off, depth')
            else j < |y.log| && next == y.offs[j + 1] && Hop(y.log, j, depth) == Hop(y.log, j + 1, depth')
  {
    off, depth' := start, depth;
    var tag;
    tag, next := TagOfToken(h, buf, off, y, j);
    stop := tag == FDT_BEGIN_NODE;
    if tag == FDT_BEGIN_NODE {
      depth' := depth' + 1;
    } else if tag == FDT_END_NODE {
      depth' := depth' - 1;
      if depth' < 0 {
        stop, off := true, next;
      }
    } else if tag == FDT_END {
      stop, off := true, ERR_NOTFOUND;
    }
  }

  /** The tag of token `j`, and where the next one is. */
  method TagOfToken(h: Header, buf: array<byte>, off: int, ghost y: Layout, ghost j: nat) returns (tag: nat, next: int)
    requires Ready(h, buf[..], y) && j <= |y.log| && off == y.offs[j]
    ensures if j < |y.log| then tag == TagOf(y.log[j]) && next == y.offs[j + 1] else tag == FDT_END && next >= 0
  {
    TagAt(h, buf[..], y, j);
    tag, next := FdtNextTag(h, buf, off);
  }

  /** The offset of a node, or the error. */
  ghost function OffOf(y: Layout, r: Option<nat>): int
    requires Sized(y) && (r.Some? ==> r.value < |y.log|)
  {
    match r
    case Some(c) => y.offs[c]
    case None => ERR_NOTFOUND
  }

  /** fdt_first_subnode: the first direct child or, for a negative offset, the first node at the top. */
  method FirstSubnode(h: Header, buf: array<byte>, node: int, ghost y: Layout, ghost n: nat) returns (off: int)
    requires NodeArg(h, buf[..], y, node, n)
    ensures if NoNode(h, buf[..], node) then off == ERR_NOTFOUND
            else From(node, n) <= |y.log| && off == OffOf(y, ZeroFrom(y.log, From(node, n), 0, From(node, n)))
  {
    var depth;
    off, depth := NextNode(h, buf, node, 0, y, n);
    if !NoNode(h, buf[..], node) {
      ghost var lo := From(node, n);
      HopMeans(y.log, lo, 0, lo, 0);
      HopDepth(y.log, lo, 0);
      StopZero(y.log, lo, 0, lo, Hop(y.log, lo, 0));
    }
    if off < 0 || depth != 1 {
      off := ERR_NOTFOUND;
    }
  }

  /** fdt_next_subnode: the next sibling of the node. */
  method NextSubnode(h: Header, buf: array<byte>, node: int, ghost y: Layout, ghost n: nat) returns (off: int)
    requires NodeArg(h, buf[..], y, node, n)
    ensures if NoNode(h, buf[..], node) then off == ERR_NOTFOUND
            else From(node, n) <= |y.log| && off == OffOf(y, ZeroFrom(y.log, From(node, n), 1, From(node, n)))
  {
    off := node;
    var depth := 1;
    ghost var lo, i, bad := From(node, n), n, NoNode(h, buf[..], node);
    Arrives(h, buf[..], y, node, n);
    while true
      invariant NodeArg(h, buf[..], y, off, i) && NoNode(h, buf[..], off) == bad
      invariant !bad ==> Searching(y, lo, From(off, i), depth)
      decreases |y.log| - From(off, i)
    {
      ghost var r := Nowhere;
      if !bad {
        r := SearchStep(y, lo, From(off, i), depth);
      }
      off, depth := NextNode(h, buf, off, depth, y, i);
      if off < 0 || depth < 1 {
        return ERR_NOTFOUND;
      }
      if depth <= 1 {
        return;
      }
      i := r.at;
      IsNode(h, buf[..], y, i);
    }
  }

  lemma IsNode(h: Header, b: seq<byte>, y: Layout, i: nat)
    requires Ready(h, b, y) && i < |y.log| && y.log[i].Begin?
    ensures NodeArg(h, b, y, y.offs[i], i) && !NoNode(h, b, y.offs[i])
  {
    TagAt(h, b, y, i);
  }

  lemma Arrives(h: Header, b: seq<byte>, y: Layout, node: int, n: nat)
    requires NodeArg(h, b, y, node, n)
    ensures !NoNode(h, b, node) ==> Searching(y, From(node, n), From(node, n), 1)
  {
  }

  /** The search stands before token `j`, with no node at depth 0 between. */
  ghost predicate Searching(y: Layout, lo: nat, j: nat, depth: int) {
    && Sized(y) && Inside(y.log, lo, 1, j) && depth == 1 + Level(y.log, lo, j) && depth >= 1
    && ZeroFrom(y.log, lo, 1, lo) == ZeroFrom(y.log, lo, 1, j)
  }

  /** One more hop. */
  lemma SearchStep(y: Layout, lo: nat, j: nat, depth: int) returns (r: Stop)
    requires Searching(y, lo, j, depth)
    ensures r == Hop(y.log, j, depth)
    ensures r.Node? ==> j <= r.at < |y.log| && y.log[r.at].Begin? && r.depth >= 1
    ensures r.Closed? ==> r.next <= |y.log| && r.depth < 0
    ensures !r.Node? ==> ZeroFrom(y.log, lo, 1, lo) == None
    ensures r.Node? && r.depth == 1 ==> ZeroFrom(y.log, lo, 1, lo) == Some(r.at)
    ensures r.Node? && r.depth > 1 ==> Searching(y, lo, r.at + 1, r.depth)
  {
    HopMeans(y.log, lo, 1, j, depth);
    r := Hop(y.log, j, depth);
    StopZero(y.log, lo, 1, j, r);
  }

  // ------------------------------------------------------------ all children

  /** The children of node `n` from token `j` on, in order. */
  ghost function Children(log: seq<Tok>, n: nat, j: nat): seq<nat>
    requires j <= |log|
    decreases |log| - j
  {
    match ZeroFrom(log, n + 1, 0, j)
    case None => []
    case Some(c) => [c] + Children(log, n, c + 1)
  }

  /** They are exactly the direct children. */
  lemma {:induction false} ChildrenExactly(log: seq<Tok>, n: nat, j: nat, c: nat)
    requires j <= |log|
    ensures c in Children(log, n, j) <==> j <= c && IsChild(log, n, c)
    decreases |log| - j
  {
    ZeroFromFirst(log, n + 1, 0, j);
    match ZeroFrom(log, n + 1, 0, j)
    case None =>
    case Some(d) => ChildrenExactly(log, n, d + 1, c);
  }

  /** The offsets of these tokens. */
  ghost predicate OffsetsOf(y: Layout, kids: seq<nat>, offs: seq<int>)
    requires Sized(y)
  {
    |offs| == |kids| && forall i | 0 <= i < |kids| :: kids[i] < |y.log| && offs[i] == y.offs[kids[i]]
  }

  lemma OffsetsNext(y: Layout, kids: seq<nat>, offs: seq<int>, c: nat, n: nat, j: nat, all: seq<nat>)
    requires Sized(y) && OffsetsOf(y, kids, offs) && j <= |y.log| && ZeroFrom(y.log, n + 1, 0, j) == Some(c)
    requires all == kids + Children(y.log, n, j)
    ensures OffsetsOf(y, kids + [c], offs + [y.offs[c]]) && all == kids + [c] + Children(y.log, n, c + 1)
  {
  }

  /** The loop stands before the children from token `j` on. */
  ghost predicate Visiting(y: Layout, n: nat, j: nat, off: int, done: seq<nat>, offs: seq<int>) {
    && Sized(y) && n < j <= |y.log| && off == OffOf(y, ZeroFrom(y.log, n + 1, 0, j))
    && OffsetsOf(y, done, offs) && Children(y.log, n, n + 1) == done + Children(y.log, n, j)
  }

  /** It is at a child. */
  lemma AtChild(h: Header, b: seq<byte>, y: Layout, n: nat, j: nat, off: int, done: seq<nat>, offs: seq<int>)
      returns (c: nat)
    requires Ready(h, b, y) && Visiting(y, n, j, off, done, offs) && off >= 0
    ensures j <= c < |y.log| && off == y.offs[c] && NodeArg(h, b, y, off, c) && !NoNode(h, b, off)
    ensures ZeroFrom(y.log, n + 1, 0, j) == Some(c)
  {
    c := ZeroFrom(y.log, n + 1, 0, j).value;
    IsNode(h, b, y, c);
  }

  lemma VisitNext(y: Layout, n: nat, j: nat, off: int, done: seq<nat>, offs: seq<int>, c: nat, next: int)
    requires Visiting(y, n, j, off, done, offs) && c < |y.log| && off == y.offs[c]
    requires ZeroFrom(y.log, n + 1, 0, j) == Some(c)
    requires off >= 0 && next == OffOf(y, ZeroFrom(y.log, From(off, c), 1, From(off, c)))
    ensures Visiting(y, n, c + 1, next, done + [c], offs + [off])
  {
    OffsetsNext(y, done, offs, c, n, j, Children(y.log, n, n + 1));
    NextChild(y.log, n, j, c);
  }

  /** Behind child `c` of node `n`, the next child is the next sibling. */
  lemma NextChild(log: seq<Tok>, n: nat, j: nat, c: nat)
    requires j <= |log| && ZeroFrom(log, n + 1, 0, j) == Some(c)
    ensures c < |log| && ZeroFrom(log, n + 1, 0, c + 1) == ZeroFrom(log, c + 1, 1, c + 1)
  {
    ZeroFromFirst(log, n + 1, 0, j);
    SameFrom(log, n + 1, 0, c, c + 1);
  }

  lemma AllVisited(y: Layout, n: nat, j: nat, off: int, done: seq<nat>, offs: seq<int>)
    requires Visiting(y, n, j, off, done, offs) && off < 0
    ensures OffsetsOf(y, Children(y.log, n, n + 1), offs)
  {
    assert Children(y.log, n, j) == [];
  }

  /** One turn of the loop: from the child at `off` to the next. */
  method VisitOne(h: Header, buf: array<byte>, off: int, ghost y: Layout, ghost n: nat, ghost j: nat,
                  ghost done: seq<nat>, ghost offs: seq<int>) returns (next: int, ghost c: nat)
    requires Ready(h, buf[..], y) && Visiting(y, n, j, off, done, offs) && off >= 0
    ensures j <= c < |y.log| && Visiting(y, n, c + 1, next, done + [c], offs + [off])
  {
    c := AtChild(h, buf[..], y, n, j, off, done, offs);
    next := NextSubnode(h, buf, off, y, c);
    VisitNext(y, n, j, off, done, offs, c, next);
  }

  /** fdt_for_each_subnode: the loop over the subnodes of a node meets its direct children in order;
      an offset that is not that of a node has none. */
  method ForEachSubnode(h: Header, buf: array<byte>, node: nat, ghost y: Layout, ghost n: nat) returns (offs: seq<int>)
    requires NodeArg(h, buf[..], y, node, n)
    ensures if NoNode(h, buf[..], node) then offs == []
            else n < |y.log| && OffsetsOf(y, Children(y.log, n, n + 1), offs)
  {
    offs := [];
    var off := FirstSubnode(h, buf, node, y, n);
    ghost var bad, j := NoNode(h, buf[..], node), n + 1;
    ghost var done: seq<nat> := [];
    while off >= 0
      invariant if bad then off < 0 && offs == [] else Visiting(y, n, j, off, done, offs)
      decreases |y.log| - j
    {
      var next;
      ghost var c;
      next, c := VisitOne(h, buf, off, y, n, j, done, offs);
      offs, done := offs + [off], done + [c];
      off, j := next, c + 1;
    }
    if !bad {
      AllVisited(y, n, j, off, done, offs);
    }
  }
}
