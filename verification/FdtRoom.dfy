/** The room fdt_setprop of kernel/device/libfdt/fdt_rw.c needs: the bytes by which the tree grows. */
module FdtRoom {
  import opened Fdt
  import opened FdtEdit
  import opened FdtFinish
  import opened FdtProps
  import opened FdtWalk
  import opened FdtWriter
  import opened Types

  lemma {:induction false} StructLenConcat(a: seq<Tok>, b: seq<Tok>)
    ensures StructLen(a + b) == StructLen(a) + StructLen(b)
    decreases |b|
  {
    if b == [] {
      assert a + b == a;
    } else {
      var c := b[..|b| - 1];
      assert (a + b)[..|a + b| - 1] == a + c;
      StructLenConcat(a, c);
    }
  }

  lemma StructLenAround(a: seq<Tok>, t: Tok, c: seq<Tok>)
    ensures StructLen(a + [t] + c) == StructLen(a) + TokLen(t) + StructLen(c)
  {
    StructLenConcat(a + [t], c);
    assert (a + [t])[..|a|] == a;
  }

  /** How much the structure grows when a property is set. */
  lemma GrowsBy(log: seq<Tok>, n: nat, name: seq<byte>, val: seq<byte>)
    requires n < |log|
    ensures var more := StructLen(SetLog(log, n, name, val)) - StructLen(log);
            match Seek(log, n + 1, name)
            case Found(k) => more == Align4(|val|) - Align4(|log[k].data|)
            case Absent => more == 12 + Align4(|val|)
            case Unended => more == 0
  {
    match Seek(log, n + 1, name)
    case Found(k) =>
      assert log == log[..k] + [log[k]] + log[k + 1..];
      assert log[k := Prop(name, val)] == log[..k] + [Prop(name, val)] + log[k + 1..];
      StructLenAround(log[..k], log[k], log[k + 1..]);
      StructLenAround(log[..k], Prop(name, val), log[k + 1..]);
    case Absent =>
      assert log == log[..n + 1] + log[n + 1..];
      StructLenConcat(log[..n + 1], log[n + 1..]);
      StructLenAround(log[..n + 1], Prop(name, val), log[n + 1..]);
    case Unended =>
  }

  /** The name of a property stands in the strings block. */
  lemma NameThere(h: Header, b: seq<byte>, y: Layout, k: nat)
    requires Ready(h, b, y) && k < |y.log| && y.log[k].Prop?
    ensures HasString(h, b, y.log[k].name)
  {
    assert NameIn(h, b, y.noffs[k], y.log[k].name);
    assert StringIn(b, h.offStrings, h.sizeStrings, y.log[k].name, h.offStrings + y.noffs[k]);
  }

  /** fdt_setprop succeeds on a node exactly if the blob with the new tokens, and with the name if the strings block
      does not hold it yet, is no larger than its buffer. */
  lemma RoomIff(h: Header, b: seq<byte>, y: Layout, node: int, n: nat, name: seq<byte>, val: seq<byte>)
    requires NodeArg(h, b, y, node, n) && Ordered(h) && CheckTag(h, b, node, FDT_BEGIN_NODE) >= 0
    requires !Seek(y.log, n + 1, name).Unended?
    ensures Outcome(h, b, y, node, n, name, |val|) == 0 <==>
            DataSize(h) + StructLen(SetLog(y.log, n, name, val)) - StructLen(y.log) +
            (if HasString(h, b, name) then 0 else |name| + 1) <= h.totalsize
    ensures Outcome(h, b, y, node, n, name, |val|) != 0 ==> Outcome(h, b, y, node, n, name, |val|) == ERR_NOSPACE
  {
    GrowsBy(y.log, n, name, val);
    match Seek(y.log, n + 1, name)
    case Found(k) => NameThere(h, b, y, k);
    case Absent =>
  }
}
