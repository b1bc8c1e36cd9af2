/** fdt_setprop of kernel/device/libfdt/fdt_rw.c as it runs over the buffer. */
module FdtSetProp {
  import opened Fdt
  import opened FdtWalk
  import opened FdtReader
  import opened FdtProps
  import opened FdtWriter
  import opened FdtEdit
  import opened Types

  /** Token `k` is the property that has just been set aside for `name`, `len` bytes long. */
  ghost predicate SetAside(y0: Layout, y: Layout, n: nat, name: seq<byte>, len: nat, k: nat) {
    && n < |y0.log| && n < k < |y.log| && y.log[k].Prop? && |y.log[k].data| == len && y.log[k].name == name
    && y.log == SetLog(y0.log, n, name, y.log[k].data) && k == SetPlace(y0.log, n, name)
    && k < |y0.offs| && k < |y.offs| && y.offs[n] == y0.offs[n] && y.offs[k] == y0.offs[k]
  }

  function SetPlace(log: seq<Tok>, n: nat, name: seq<byte>): nat
    requires n < |log|
  {
    match Seek(log, n + 1, name)
    case Found(k) => k
    case _ => n + 1
  }

  lemma SplicedKeeps(y: Layout, k: nat, m: nat, t: Tok, noff: nat, n: nat)
    requires Sized(y) && n < k && k + m <= |y.log|
    ensures SpliceOf(y, k, m, t, noff, Spliced(y, k, m, t, noff))
    ensures Spliced(y, k, m, t, noff).offs[n] == y.offs[n] && Spliced(y, k, m, t, noff).offs[k] == y.offs[k]
    ensures Spliced(y, k, m, t, noff).log == y.log[..k] + [t] + y.log[k + m..]
  {
    SplicedIs(y, k, m, t, noff);
    assert Spliced(y, k, m, t, noff).offs[n] == OffIn(y, k, m, t, n) &&
        Spliced(y, k, m, t, noff).offs[k] == OffIn(y, k, m, t, k);
  }

  lemma ReplacedAside(y: Layout, n: nat, name: seq<byte>, k: nat, t: Tok, noff: nat)
    requires Sized(y) && n < |y.log| && Seek(y.log, n + 1, name) == Found(k) && t.Prop? && t.name == name
    ensures SetAside(y, Spliced(y, k, 1, t, noff), n, name, |t.data|, k)
  {
    SplicedKeeps(y, k, 1, t, noff, n);
    assert y.log[..k] + [t] + y.log[k + 1..] == y.log[k := t];
  }

  lemma InsertedAside(y: Layout, n: nat, name: seq<byte>, t: Tok, noff: nat)
    requires Sized(y) && n < |y.log| && Seek(y.log, n + 1, name).Absent? && t.Prop? && t.name == name
    ensures SetAside(y, Spliced(y, n + 1, 0, t, noff), n, name, |t.data|, n + 1)
  {
    SplicedKeeps(y, n + 1, 0, t, noff, n);
  }

  /** Filling in the value completes the change. */
  lemma FilledIn(y0: Layout, y: Layout, n: nat, name: seq<byte>, val: seq<byte>, k: nat, noff: nat)
    requires Sized(y) && SetAside(y0, y, n, name, |val|, k)
    ensures Spliced(y, k, 1, Prop(name, val), noff).log == SetLog(y0.log, n, name, val)
    ensures Spliced(y, k, 1, Prop(name, val), noff).offs[n] == y0.offs[n]
  {
    var t := Prop(name, val);
    SplicedKeeps(y, k, 1, t, noff, n);
    var d := y.log[k].data;
    match Seek(y0.log, n + 1, name)
    case Found(_) =>
      assert y0.log[k := Prop(name, d)][..k] + [t] + y0.log[k := Prop(name, d)][k + 1..] == y0.log[k := t];
    case Absent => assert y.log[..k] + [t] + y.log[k + 1..] == y0.log[..n + 1] + [t] + y0.log[n + 1..];
    case Unended =>
  }

  lemma NewString(h: Header, b: seq<byte>, b1: seq<byte>, s: seq<byte>, h': Header, b': seq<byte>)
    requires NoNul(s) && DataSize(h) + |s| + 1 <= |b1| && SameOn(b, b1, 0, DataSize(h))
    requires b' == Patch(b1, DataSize(h), s + [0]) && h' == h.(sizeStrings := h.sizeStrings + |s| + 1)
    ensures NameIn(h', b', h.sizeStrings, s) && SameOn(b, b', 0, DataSize(h))
  {
    var p := DataSize(h);
    assert b'[p..p + |s|] == s && b'[p + |s|] == 0;
    forall q | 0 <= q < p ensures Same(b, b', q) {
      assert Same(b, b1, q);
    }
  }

  class Blob {
    const buf: array<byte>
    var h: Header
    ghost var y: Layout

    constructor (buf: array<byte>, h: Header, ghost y: Layout)
      requires Ready(h, buf[..], y)
      ensures this.buf == buf && this.h == h && this.y == y && Valid()
    {
      this.buf, this.h, this.y := buf, h, y;
    }

    ghost predicate Valid()
      reads this, buf
    {
      Ready(h, buf[..], y)
    }

    /** fdt_splice_ */
    method Splice(p: nat, oldlen: nat, newlen: nat) returns (err: int)
      requires DataSize(h) <= h.totalsize < INT_MAX && h.totalsize <= buf.Length && oldlen <= INT_MAX
      requires newlen <= INT_MAX
      modifies buf
      ensures err == 0 <==> p + oldlen <= DataSize(h) && DataSize(h) - oldlen + newlen <= h.totalsize
      ensures err == 0 ==> MovedUp(h, old(buf[..]), buf[..], p, oldlen, newlen)
      ensures err != 0 ==> buf[..] == old(buf[..]) && (p + oldlen <= DataSize(h) ==> err == ERR_NOSPACE)
    {
      var dsize := DataSize(h);
      if p + oldlen > dsize || dsize + newlen < oldlen {
        return ERR_BADOFFSET;
      }
      if dsize - oldlen + newlen > h.totalsize {
        return ERR_NOSPACE;
      }
      Put(buf, p + newlen, buf[p + oldlen..dsize]);
      return 0;
    }

    /** fdt_splice_struct_ */
    method SpliceStruct(p: nat, oldlen: nat, newlen: nat) returns (err: int)
      requires DataSize(h) <= h.totalsize < INT_MAX && h.totalsize <= buf.Length && oldlen <= h.sizeStruct
      requires newlen <= INT_MAX
      requires p + oldlen <= h.offStrings && oldlen <= h.offStrings
      modifies this`h, buf
      ensures err == if DataSize(old(h)) - oldlen + newlen <= old(h).totalsize then 0 else ERR_NOSPACE
      ensures err == 0 ==>
                MovedUp(old(h), old(buf[..]), buf[..], p, oldlen, newlen) && Resized(old(h), h, newlen - oldlen)
      ensures err != 0 ==> buf[..] == old(buf[..]) && h == old(h)
    {
      err := Splice(p, oldlen, newlen);
      if err == 0 {
        var delta := newlen - oldlen;
        h := h.(sizeStruct := h.sizeStruct + delta, offStrings := h.offStrings + delta);
      }
    }

    /** fdt_find_add_string_: the name's offset in the strings block, or an error. */
    method FindAddString(s: seq<byte>) returns (noff: int, added: bool)
      requires Valid() && Ordered(h) && NoNul(s) && |s| < INT_MAX
      modifies this`h, buf
      ensures Valid() && Ordered(h)
      ensures added <==> !HasString(old(h), old(buf[..]), s) && DataSize(old(h)) + |s| + 1 <= old(h).totalsize
      ensures noff >= 0 <==> HasString(old(h), old(buf[..]), s) || added
      ensures h == if added then old(h).(sizeStrings := old(h).sizeStrings + |s| + 1) else old(h)
      ensures if noff >= 0 then NameIn(h, buf[..], noff, s) else noff == ERR_NOSPACE
      ensures SameOn(old(buf[..]), buf[..], 0, DataSize(old(h)))
    {
      var p := FindString(buf, h.offStrings, h.sizeStrings, s);
      if p >= 0 {
        assert StringIn(buf[..], h.offStrings, h.sizeStrings, s, p);
        noff, added := p - h.offStrings, false;
      } else {
        noff := AddName(s);
        added := noff >= 0;
      }
    }

    /** fdt_splice_string_ and the copy of the name behind it. */
    method AddName(s: seq<byte>) returns (noff: int)
      requires Valid() && Ordered(h) && NoNul(s) && |s| < INT_MAX
      modifies this`h, buf
      ensures Valid() && Ordered(h)
      ensures noff >= 0 <==> DataSize(old(h)) + |s| + 1 <= old(h).totalsize
      ensures h == if noff >= 0 then old(h).(sizeStrings := old(h).sizeStrings + |s| + 1) else old(h)
      ensures if noff >= 0 then NameIn(h, buf[..], noff, s) else noff == ERR_NOSPACE
      ensures SameOn(old(buf[..]), buf[..], 0, DataSize(old(h)))
    {
      ghost var h0, b0 := h, buf[..];
      var err := Splice(DataSize(h), 0, |s| + 1);
      if err != 0 {
        return err;
      }
      ghost var b1 := buf[..];
      noff := h.sizeStrings;
      h := h.(sizeStrings := h.sizeStrings + |s| + 1);
      Put(buf, h.offStrings + noff, s + [0]);
      AppendString(h0, b0, y, s, h, b1, buf[..]);
    }

    /** fdt_resize_property_ once property `k` has been found at `off`. */
    method Resize(off: nat, len: nat, ghost n: nat, ghost name: seq<byte>, ghost k: nat) returns (err: int)
      requires Valid() && Ordered(h) && n < |y.log| && Seek(y.log, n + 1, name) == Found(k) && off == y.offs[k]
      requires len + 15 <= INT_MAX
      modifies this`h, this`y, buf
      ensures Valid() && Ordered(h) && h.offStruct == old(h).offStruct
      ensures err == if DataSize(old(h)) - Align4(|old(y).log[k].data|) + Align4(len) <= old(h).totalsize then 0
                     else ERR_NOSPACE
      ensures err == 0 ==> SetAside(old(y), y, n, name, len, k)
      ensures err != 0 ==> h == old(h) && y == old(y) && buf[..] == old(buf[..])
    {
      ghost var h0, b0 := h, buf[..];
      PropBytes(h, b0, y, k);
      PropEnd(h, b0, y, k);
      var p := h.offStruct + off;
      var was, now := Align4(Load32(buf[..], p + 4)), Align4(len);
      err := SpliceStruct(p + 12, was, now);
      if err == 0 {
        StoreLength(p, len, h0, b0, n, name, k, was, now);
      }
    }

    /** The rest of it, after the bytes behind the value have moved. */
    method StoreLength(p: nat, len: nat, ghost h0: Header, ghost b0: seq<byte>, ghost n: nat, ghost name: seq<byte>,
                       ghost k: nat, ghost was: nat, ghost now: nat)
      requires Ready(h0, b0, y) && Ordered(h0) && n < |y.log| && Seek(y.log, n + 1, name) == Found(k) && len < U32
      requires was == Align4(|y.log[k].data|) && now == Align4(len) && p == h0.offStruct + y.offs[k]
      requires p + 12 <= buf.Length
      requires MovedUp(h0, b0, buf[..], p + 12, was, now) && Resized(h0, h, now - was)
      modifies this`y, buf
      ensures Valid() && Ordered(h) && SetAside(old(y), y, n, name, len, k)
    {
      ghost var b1 := buf[..];
      Put32(buf, p + 4, len);
      ghost var t := ResizeEdit(h0, b0, y, k, p, len, h, b1, buf[..], was, now);
      y := ResizeDone(h0, b0, y, n, name, k, t, h, buf[..]);
    }

    /** fdt_add_property_ once the node has been checked: `next` is behind its begin token `n`. */
    method Add(next: nat, name: seq<byte>, len: nat, ghost n: nat) returns (err: int)
      requires Valid() && Ordered(h) && n < |y.log| && Seek(y.log, n + 1, name).Absent? && next == y.offs[n + 1]
      requires NoNul(name) && |name| < INT_MAX && len + 15 <= INT_MAX
      modifies this`h, this`y, buf
      ensures Valid() && Ordered(h) && h.offStruct == old(h).offStruct
      ensures err == if Fits(old(h), old(buf[..]), name, len) then 0 else ERR_NOSPACE
      ensures err == 0 ==> SetAside(old(y), y, n, name, len, n + 1)
      ensures err != 0 ==> h == old(h) && y == old(y) && SameOn(old(buf[..]), buf[..], 0, DataSize(h))
    {
      ghost var h0, b0 := h, buf[..];
      var noff, added := FindAddString(name);
      if noff < 0 {
        return noff;
      }
      err := Insert(h.offStruct + next, noff, name, len, n);
      if err != 0 {
        if added {
          h := h.(sizeStrings := h.sizeStrings - (|name| + 1));
        }
        ReadyFrame(h0, b0, y, h, buf[..]);
      }
    }

    /** Its second half: room for the property at `p`, and its head. */
    method Insert(p: nat, noff: nat, name: seq<byte>, len: nat, ghost n: nat) returns (err: int)
      requires Valid() && Ordered(h) && n < |y.log| && Seek(y.log, n + 1, name).Absent?
      requires p == h.offStruct + y.offs[n + 1]
      requires NameIn(h, buf[..], noff, name) && len + 15 <= INT_MAX
      modifies this`h, this`y, buf
      ensures err == if DataSize(old(h)) + 12 + Align4(len) <= old(h).totalsize then 0 else ERR_NOSPACE
      ensures err == 0 ==>
                Valid() && Ordered(h) && h.offStruct == old(h).offStruct && SetAside(old(y), y, n, name, len, n + 1)
      ensures err != 0 ==> h == old(h) && y == old(y) && buf[..] == old(buf[..])
    {
      ghost var h0, b0 := h, buf[..];
      InStructBlock(h, b0, y, n + 1);
      Align4Facts(len);
      err := SpliceStruct(p, 0, 12 + Align4(len));
      if err == 0 {
        PutHead(p, noff, name, len, n, h0, b0);
      }
    }

    /** The head of the new property, after the bytes behind it have moved. */
    method PutHead(p: nat, noff: nat, ghost name: seq<byte>, len: nat, ghost n: nat, ghost h0: Header,
                   ghost b0: seq<byte>)
      requires Ready(h0, b0, y) && Ordered(h0) && n < |y.log| && Seek(y.log, n + 1, name).Absent?
      requires p == h0.offStruct + y.offs[n + 1] && p + 12 + len <= buf.Length && len < U32 && noff < U32
      requires NameIn(h0, b0, noff, name) && MovedUp(h0, b0, buf[..], p, 0, 12 + Align4(len))
      requires Resized(h0, h, 12 + Align4(len))
      modifies this`y, buf
      ensures Valid() && Ordered(h) && SetAside(old(y), y, n, name, len, n + 1)
    {
      ghost var b1 := buf[..];
      Put(buf, p, Bytes32(FDT_PROP) + Bytes32(len) + Bytes32(noff));
      y := AddDone(h0, b0, y, n, p, name, len, noff, h, b1, buf[..]);
    }

    /** fdt_rw_probe_: a later version is turned into this one. */
    method Probe(ghost node: int, ghost n: nat) returns (err: int)
      requires NodeArg(h, buf[..], y, node, n)
      modifies this`h
      ensures err == if Ordered(old(h)) then 0 else ERR_BADLAYOUT
      ensures h == old(h).(version := h.version) && NodeArg(h, buf[..], y, node, n) && Ordered(h) == Ordered(old(h))
      ensures CheckTag(h, buf[..], node, FDT_BEGIN_NODE) == CheckTag(old(h), buf[..], node, FDT_BEGIN_NODE)
    {
      if !Ordered(h) {
        return ERR_BADLAYOUT;
      }
      if h.version > LAST_SUPPORTED_VERSION {
        SameVersion(h, buf[..], y, node, n, h.(version := LAST_SUPPORTED_VERSION));
        h := h.(version := LAST_SUPPORTED_VERSION);
      }
      return 0;
    }

    /** fdt_setprop_placeholder: where the value of the property goes. */
    method Placeholder(node: int, name: seq<byte>, len: nat, ghost n: nat) returns (err: int, pos: nat)
      requires NodeArg(h, buf[..], y, node, n) && NoNul(name) && |name| < INT_MAX && len + 15 <= INT_MAX
      modifies this`h, this`y, buf
      ensures Valid() && err == Outcome(old(h), old(buf[..]), old(y), node, n, name, len)
      ensures err == 0 ==> var k := SetPlace(old(y).log, n, name);
                           Ordered(h) && SetAside(old(y), y, n, name, len, k) && pos == h.offStruct + y.offs[k] + 12
      ensures err != 0 ==> y == old(y) && h == old(h).(version := h.version)
    {
      pos := 0;
      err := Probe(node, n);
      if err != 0 {
        return;
      }
      var off := GetProperty(h, buf, node, name, y, n);
      if off >= 0 {
        err := Resize(off, len, n, name, SetPlace(y.log, n, name));
        pos := h.offStruct + off + 12;
      } else if off == ERR_NOTFOUND {
        var next := CheckOffset(h, buf, node, FDT_BEGIN_NODE);
        TagAt(h, buf[..], y, n);
        err := Add(next, name, len, n);
        pos := h.offStruct + next + 12;
      } else {
        err := off;
      }
    }

    /** fdt_setprop: on success a reader sees the tree with that property set, on failure the
        tree as it was. */
    method SetProp(node: int, name: seq<byte>, val: seq<byte>, ghost n: nat) returns (err: int)
      requires NodeArg(h, buf[..], y, node, n) && NoNul(name) && |name| < INT_MAX && |val| + 15 <= INT_MAX
      modifies this`h, this`y, buf
      ensures Valid() && err == Outcome(old(h), old(buf[..]), old(y), node, n, name, |val|)
      ensures y.log == if err == 0 then SetLog(old(y).log, n, name, val) else old(y).log
      ensures err == 0 ==> n < |y.log| && y.offs[n] == node
      ensures Walk(h, buf[..], 0) == Some(y.log)
    {
      var pos;
      err, pos := Placeholder(node, name, |val|, n);
      if err == 0 {
        ghost var b := buf[..];
        ghost var k := SetPlace(old(y).log, n, name);
        Fill(pos, val, old(y), n, name, k);
      }
      ReadyReads(h, buf[..], y);
    }

    /** The copy of the value. */
    method Fill(pos: nat, val: seq<byte>, ghost y0: Layout, ghost n: nat, ghost name: seq<byte>, ghost k: nat)
      requires Valid() && Ordered(h) && SetAside(y0, y, n, name, |val|, k) && pos == h.offStruct + y.offs[k] + 12
      modifies this`y, buf
      ensures Valid() && Sized(y) && y.log == SetLog(y0.log, n, name, val) && n < |y.log| && y.offs[n] == y0.offs[n]
    {
      ghost var b := buf[..];
      ValueRoom(h, b, y, k);
      if |val| > 0 {
        Put(buf, pos, val);
      }
      y := FillDone(h, b, y, y0, n, name, val, k, pos - 12, buf[..]);
    }
  }

  lemma ValueRoom(h: Header, b: seq<byte>, y: Layout, k: nat)
    requires Ready(h, b, y) && Ordered(h) && k < |y.log| && y.log[k].Prop?
    ensures h.offStruct + y.offs[k] + 12 + |y.log[k].data| <= |b|
  {
    PropEnd(h, b, y, k);
  }

  lemma FillEdit(h: Header, b: seq<byte>, y: Layout, val: seq<byte>, k: nat, p: nat, b': seq<byte>)
    requires Ready(h, b, y) && Ordered(h) && k < |y.log| && y.log[k].Prop? && |y.log[k].data| == |val|
    requires p == h.offStruct + y.offs[k]
    requires p + 12 + |val| <= |b| && b' == Patch(b, p + 12, val)
    ensures Edited(h, b, y, k, 1, Prop(y.log[k].name, val), y.noffs[k], h, b')
  {
    PropFacts(h, b, y, k, p);
    PropEnd(h, b, y, k);
    assert p + 12 + Align4(|val|) <= DataSize(h);
    FillAt(h, b, p, y.log[k], y.noffs[k], val, b');
    EditHere(h, b, y, k, 1, p, p + 12 + Align4(|val|), Prop(y.log[k].name, val), y.noffs[k], h, b');
  }

  lemma FillDone(h: Header, b: seq<byte>, y: Layout, y0: Layout, n: nat, name: seq<byte>, val: seq<byte>, k: nat,
                 p: nat, b': seq<byte>)
      returns (y': Layout)
    requires Ready(h, b, y) && Ordered(h) && SetAside(y0, y, n, name, |val|, k) && p == h.offStruct + y.offs[k]
    requires p + 12 + |val| <= |b| && (b' == Patch(b, p + 12, val) || (val == [] && b' == b))
    ensures Ready(h, b', y') && y'.log == SetLog(y0.log, n, name, val) && n < |y'.log| && y'.offs[n] == y0.offs[n]
  {
    assert b' == Patch(b, p + 12, val);
    FillEdit(h, b, y, val, k, p, b');
    EditDone(h, b, y, k, 1, Prop(name, val), y.noffs[k], h, b');
    FilledIn(y0, y, n, name, val, k, y.noffs[k]);
    y' := Spliced(y, k, 1, Prop(name, val), y.noffs[k]);
  }

  lemma {:induction false} SameNul(h: Header, b: seq<byte>, h': Header, off: nat)
    requires h' == h.(version := h'.version) && h.totalsize <= |b| && h.version >= 17 && h'.version >= 17
    ensures NulFrom(h', b, off) == NulFrom(h, b, off)
    decreases h.totalsize - off
  {
    if InStruct(h, off, 1) && b[h.offStruct + off] != 0 {
      SameNul(h, b, h', off + 1);
    }
  }

  /** The version field decides nothing from 17 on. */
  lemma SameVersion(h: Header, b: seq<byte>, y: Layout, node: int, n: nat, h': Header)
    requires NodeArg(h, b, y, node, n) && h' == h.(version := LAST_SUPPORTED_VERSION)
    ensures NodeArg(h', b, y, node, n) && Ordered(h') == Ordered(h)
    ensures CheckTag(h', b, node, FDT_BEGIN_NODE) == CheckTag(h, b, node, FDT_BEGIN_NODE)
  {
    if node >= 0 {
      SameNul(h, b, h', node + 4);
    }
    LaidFrame(h, b, h', b, y);
    NamesFrame(h, b, y, h', b);
  }

  lemma InStructBlock(h: Header, b: seq<byte>, y: Layout, i: nat)
    requires Ready(h, b, y) && Ordered(h) && i <= |y.log|
    ensures h.offStruct + y.offs[i] + 4 <= h.offStrings
  {
    OffsMono(y, i, |y.log|);
  }

  lemma AddDone(h: Header, b: seq<byte>, y: Layout, n: nat, p: nat, name: seq<byte>, len: nat, noff: nat, h': Header,
                b1: seq<byte>, b': seq<byte>)
      returns (y': Layout)
    requires Ready(h, b, y) && Ordered(h) && n < |y.log| && Seek(y.log, n + 1, name).Absent?
    requires p == h.offStruct + y.offs[n + 1]
    requires len < U32 && NameIn(h, b, noff, name) && noff < U32 && MovedUp(h, b, b1, p, 0, 12 + Align4(len))
    requires Resized(h, h', 12 + Align4(len))
    requires p + 12 + len <= |b1| && b' == Patch(b1, p, Bytes32(FDT_PROP) + Bytes32(len) + Bytes32(noff))
    ensures Ready(h', b', y') && Ordered(h') && SetAside(y, y', n, name, len, n + 1)
  {
    var t := NewToken(b1, b', p, name, len, noff);
    AddAt(h, b, p, t, noff, h', b1, b', 12 + Align4(len));
    EditHere(h, b, y, n + 1, 0, p, p, t, noff, h', b');
    EditDone(h, b, y, n + 1, 0, t, noff, h', b');
    InsertedAside(y, n, name, t, noff);
    y' := Spliced(y, n + 1, 0, t, noff);
  }

  /** The property found at token `k`, now `len` bytes long. */
  lemma ResizeEdit(h: Header, b: seq<byte>, y: Layout, k: nat, p: nat, len: nat, h': Header, b1: seq<byte>,
                   b': seq<byte>, was: nat, now: nat)
      returns (t: Tok)
    requires Ready(h, b, y) && Ordered(h) && k < |y.log| && y.log[k].Prop? && p == h.offStruct + y.offs[k]
    requires was == Align4(|y.log[k].data|) && now == Align4(len)
    requires MovedUp(h, b, b1, p + 12, was, now) && Resized(h, h', now - was) && Outside(b1, b', p + 4, 4)
    requires Load32(b', p + 4) == len
    ensures t.Prop? && t.name == y.log[k].name && |t.data| == len && Edited(h, b, y, k, 1, t, y.noffs[k], h', b')
  {
    PropFacts(h, b, y, k, p);
    t := ResizeAt(h, b, p, y.log[k], y.noffs[k], len, h', b1, b', was, now);
    EditHere(h, b, y, k, 1, p, p + 12 + was, t, y.noffs[k], h', b');
  }

  lemma PropFacts(h: Header, b: seq<byte>, y: Layout, k: nat, p: nat)
    requires Ready(h, b, y) && Ordered(h) && k < |y.log| && y.log[k].Prop? && p == h.offStruct + y.offs[k]
    ensures TokAt(b, p, y.log[k], y.noffs[k]) && NameIn(h, b, y.noffs[k], y.log[k].name)
    ensures h.offStruct + y.offs[k + 1] == p + 12 + Align4(|y.log[k].data|)
  {
    LaidAt(h, b, y, k);
    NamedAt(h, b, y, k);
    PropEnd(h, b, y, k);
  }

  lemma EditHere(h: Header, b: seq<byte>, y: Layout, k: nat, m: nat, p: nat, q: nat, t: Tok, noff: nat, h': Header,
                 b': seq<byte>)
    requires Sized(y) && k + m <= |y.log| && p == h.offStruct + y.offs[k] && q == h.offStruct + y.offs[k + m]
    requires EditAt(h, b, p, q, t, noff, h', b')
    ensures Edited(h, b, y, k, m, t, noff, h', b')
  {
  }

  lemma EditDone(h: Header, b: seq<byte>, y: Layout, k: nat, m: nat, t: Tok, noff: nat, h': Header, b': seq<byte>)
    requires Ready(h, b, y) && Ordered(h) && k + m <= |y.log| && Edited(h, b, y, k, m, t, noff, h', b')
    ensures Ready(h', b', Spliced(y, k, m, t, noff)) && Ordered(h')
  {
    SplicedIs(y, k, m, t, noff);
    EditedReady(h, b, y, k, m, t, noff, h', b', Spliced(y, k, m, t, noff));
  }

  /** The same for the search that found it. */
  lemma ResizeDone(h: Header, b: seq<byte>, y: Layout, n: nat, name: seq<byte>, k: nat, t: Tok, h': Header,
                   b': seq<byte>)
      returns (y': Layout)
    requires Ready(h, b, y) && Ordered(h) && n < |y.log| && Seek(y.log, n + 1, name) == Found(k)
    requires t.Prop? && t.name == name && Edited(h, b, y, k, 1, t, y.noffs[k], h', b')
    ensures Ready(h', b', y') && Ordered(h') && SetAside(y, y', n, name, |t.data|, k)
  {
    EditDone(h, b, y, k, 1, t, y.noffs[k], h', b');
    ReplacedAside(y, n, name, k, t, y.noffs[k]);
    y' := Spliced(y, k, 1, t, y.noffs[k]);
  }

  lemma NamedAt(h: Header, b: seq<byte>, y: Layout, k: nat)
    requires Ready(h, b, y) && k < |y.log| && y.log[k].Prop?
    ensures NameIn(h, b, y.noffs[k], y.log[k].name)
  {
  }

  lemma AppendString(h: Header, b: seq<byte>, y: Layout, s: seq<byte>, h': Header, b1: seq<byte>, b': seq<byte>)
    requires Ready(h, b, y) && Ordered(h) && NoNul(s) && MovedUp(h, b, b1, DataSize(h), 0, |s| + 1)
    requires b' == Patch(b1, DataSize(h), s + [0]) && h' == h.(sizeStrings := h.sizeStrings + |s| + 1)
    ensures Ready(h', b', y) && Ordered(h') && NameIn(h', b', h.sizeStrings, s) && SameOn(b, b', 0, DataSize(h))
  {
    NewString(h, b, b1, s, h', b');
    ReadyFrame(h, b, y, h', b');
  }

  /** Get after set, on the bytes: fdt_getprop on the same node returns exactly what fdt_setprop
      was given, and every other property of every node reads as before. */
  method SetThenRead(blob: Blob, node: int, name: seq<byte>, val: seq<byte>, ghost n: nat)
      returns (err: int, pos: int, len: int)
    requires NodeArg(blob.h, blob.buf[..], blob.y, node, n) && NoNul(name) && |name| < INT_MAX && |val| + 15 <= INT_MAX
    modifies blob`h, blob`y, blob.buf
    ensures blob.Valid()
    ensures err == 0 ==> 0 <= pos && 0 <= len && pos + len <= blob.buf.Length && blob.buf[..][pos..pos + len] == val
    ensures err == 0 ==> Kept(old(blob.y).log, blob.y.log, n, name)
    ensures err != 0 ==> blob.y.log == old(blob.y).log
  {
    ghost var log := blob.y.log;
    SetWhere(blob.h, blob.buf[..], blob.y, node, n, name, |val|);
    err := blob.SetProp(node, name, val, n);
    if err == 0 {
      SetKept(log, n, name, val);
      pos, len := ReadBack(blob, node, name, val, n, log);
    } else {
      pos, len := -1, err;
    }
  }

  method ReadBack(blob: Blob, node: int, name: seq<byte>, val: seq<byte>, ghost n: nat, ghost log: seq<Tok>)
      returns (pos: int, len: int)
    requires blob.Valid() && n < |log| && log[n].Begin? && !Seek(log, n + 1, name).Unended?
    requires blob.y.log == SetLog(log, n, name, val)
    requires n < |blob.y.log| && blob.y.offs[n] == node
    ensures 0 <= pos && 0 <= len && pos + len <= blob.buf.Length && blob.buf[..][pos..pos + len] == val
  {
    SetThenGet(log, n, name, val);
    NodeStill(blob.h, blob.buf[..], blob.y, node, n);
    pos, len := GetProp(blob.h, blob.buf, node, name, blob.y, n);
  }

  lemma SetWhere(h: Header, b: seq<byte>, y: Layout, node: int, n: nat, name: seq<byte>, len: nat)
    requires NodeArg(h, b, y, node, n)
    ensures Outcome(h, b, y, node, n, name, len) == 0 ==>
              n < |y.log| && y.log[n].Begin? && !Seek(y.log, n + 1, name).Unended?
  {
  }

  lemma NodeStill(h: Header, b: seq<byte>, y: Layout, node: int, n: nat)
    requires Ready(h, b, y) && n < |y.log| && y.log[n].Begin? && node == y.offs[n]
    ensures NodeArg(h, b, y, node, n) && CheckTag(h, b, node, FDT_BEGIN_NODE) >= 0
  {
    TagAt(h, b, y, n);
  }

  /** Setting `name` of node `n` has left all else: the nodes, and every other property of every node. */
  ghost predicate Kept(log: seq<Tok>, log': seq<Tok>, n: nat, name: seq<byte>)
  {
    && n < |log| && Skeleton(log') == Skeleton(log)
    && forall i: nat, x | i < |log| && log[i].Begin? && (i != n || x != name) ::
         After(log, n, name, i) < |log'| && Value(log', After(log, n, name, i), x) == Value(log, i, x)
  }

  lemma SetKept(log: seq<Tok>, n: nat, name: seq<byte>, val: seq<byte>)
    requires n < |log| && log[n].Begin?
    ensures Kept(log, SetLog(log, n, name, val), n, name)
  {
    SetKeepsNodes(log, n, name, val);
    forall i: nat, x | i < |log| && log[i].Begin? && (i != n || x != name)
      ensures After(log, n, name, i) < |SetLog(log, n, name, val)|
      ensures Value(SetLog(log, n, name, val), After(log, n, name, i), x) == Value(log, i, x)
    {
      SetFrame(log, n, name, val, i, x);
    }
  }
}
