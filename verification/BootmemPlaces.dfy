/** Where bootmem_alloc of kernel/memory/bootmem.c puts a request, said in bytes of the node. */
module BootmemPlaces {
  import opened Addr
  import opened Arith
  import opened Bootmem

  /** `pos` is the first position from `from` on that is a multiple of `a`. */
  ghost predicate FirstAligned(from: nat, a: nat, pos: nat)
    requires a > 0
  {
    from <= pos && pos % a == 0 && forall x | from <= x < pos :: x % a != 0
  }

  /** Nothing between two multiples. */
  lemma NoMultipleBetween(pos: nat, a: nat, x: nat)
    requires a > 0 && pos % a == 0 && pos - a < x < pos
    ensures x % a != 0
  {
    var q := pos / a;
    assert pos == q * a;
    if x % a == 0 {
      var r := x / a;
      assert x == r * a;
      if r >= q {
        MulMono(q, r, a);
      } else {
        MulMono(r + 1, q, a);
      }
    }
  }

  lemma RoundedIsFirst(page: nat, off: nat, a: nat)
    requires off < PAGE_SIZE && PowerOfTwo(a) && a <= PAGE_SIZE
    ensures a > 0 && FirstAligned(page * PAGE_SIZE + off, a, page * PAGE_SIZE + RoundUp(off, a))
  {
    var p := PageMultiple(a);
    RoundUpFacts(off, a);
    var up := RoundUp(off, a);
    var pos := page * PAGE_SIZE + up;
    MultipleOf(page, p, a, up);
    forall x | page * PAGE_SIZE + off <= x < pos ensures x % a != 0 {
      NoMultipleBetween(pos, a, x);
    }
  }

  lemma MultipleOf(page: nat, p: nat, a: nat, up: nat)
    requires a > 0 && up % a == 0 && PAGE_SIZE == p * a
    ensures (page * PAGE_SIZE + up) % a == 0
  {
    var u := up / a;
    assert up == u * a;
    assert page * (p * a) == (page * p) * a;
    assert page * PAGE_SIZE + up == (page * p + u) * a;
    DivModIs(page * PAGE_SIZE + up, a, page * p + u, 0);
  }

  /** The last byte before `end` is on page `page`, of which then `off` bytes are used, or all of it if `off` is 0. */
  ghost predicate EndsAt(end: nat, page: nat, off: nat) {
    off == end % PAGE_SIZE && page + 1 == PagesFor(end)
  }

  /** A request that goes behind the bytes used last. */
  lemma AppendedPlace(lastPage: nat, lastOff: nat, spot: nat, size: nat, a: nat)
    requires size > 0 && 0 < lastOff < PAGE_SIZE && lastPage + 1 == spot && PowerOfTwo(a) && a <= PAGE_SIZE
    ensures var q := PlaceOf(lastPage, lastOff, spot, size, a);
            && a > 0 && FirstAligned(lastPage * PAGE_SIZE + lastOff, a, q.pos)
            && spot + q.area == PagesFor(q.pos + size) && EndsAt(q.pos + size, q.page, q.off)
  {
    RoundedIsFirst(lastPage, lastOff, a);
    WithinPage(lastOff, a);
    Counted(lastPage, RoundUp(lastOff, a), size);
  }

  /** Pages and bytes behind `offset` bytes of a page. */
  lemma Counted(page: nat, offset: nat, size: nat)
    requires size > 0 && 0 < offset <= PAGE_SIZE
    ensures var end, rem := page * PAGE_SIZE + offset + size, PAGE_SIZE - offset;
            if size < rem then PagesFor(end) == page + 1 && (offset + size) % PAGE_SIZE == end % PAGE_SIZE
            else PagesFor(end) == page + 1 + PagesFor(size - rem) && (size - rem) % PAGE_SIZE == end % PAGE_SIZE
  {
    var rem := PAGE_SIZE - offset;
    if size < rem {
      DivModIs(page * PAGE_SIZE + offset + size + PAGE_SIZE - 1, PAGE_SIZE, page + 1, offset + size - 1);
      DivModIs(page * PAGE_SIZE + offset + size, PAGE_SIZE, page, offset + size);
    } else {
      var b := size - rem;
      var t := b + PAGE_SIZE - 1;
      assert page * PAGE_SIZE + offset + size == (page + 1) * PAGE_SIZE + b;
      DivModIs((page + 1) * PAGE_SIZE + t, PAGE_SIZE, page + 1 + t / PAGE_SIZE, t % PAGE_SIZE);
      DivModIs((page + 1) * PAGE_SIZE + b, PAGE_SIZE, page + 1 + b / PAGE_SIZE, b % PAGE_SIZE);
    }
  }

  lemma FreshPlace(spot: nat, size: nat)
    requires size > 0
    ensures PagesFor(spot * PAGE_SIZE + size) == spot + PagesFor(size) && PagesFor(size) > 0
    ensures (spot * PAGE_SIZE + size) % PAGE_SIZE == size % PAGE_SIZE
  {
    var t := size + PAGE_SIZE - 1;
    DivModIs(spot * PAGE_SIZE + t, PAGE_SIZE, spot + t / PAGE_SIZE, t % PAGE_SIZE);
    DivModIs(spot * PAGE_SIZE + size, PAGE_SIZE, spot + size / PAGE_SIZE, size % PAGE_SIZE);
  }

  /** Where a request goes. If the first fit is right behind the page used last, which has bytes left, and the
      alignment is no more than a page, it begins at the first aligned byte behind the bytes used last; otherwise at
      the page found. It marks, from the page found on, exactly the pages up to the one with its last byte, and that
      page is then the one used last, up to this byte. */
  lemma PlaceExact(lastPage: nat, lastOff: nat, spot: nat, size: nat, a: nat)
    requires size > 0 && lastOff < PAGE_SIZE && PowerOfTwo(a)
    ensures var q := PlaceOf(lastPage, lastOff, spot, size, a);
            && a > 0
            && (if a <= PAGE_SIZE && lastOff != 0 && lastPage + 1 == spot then
                  FirstAligned(lastPage * PAGE_SIZE + lastOff, a, q.pos)
                else q.pos == spot * PAGE_SIZE)
            && spot + q.area == PagesFor(q.pos + size) && EndsAt(q.pos + size, q.page, q.off)
  {
    if a <= PAGE_SIZE && lastOff != 0 && lastPage + 1 == spot {
      AppendedPlace(lastPage, lastOff, spot, size, a);
    } else {
      FreshPlace(spot, size);
    }
  }

  /** So a request that fits behind the bytes used last marks no page, and only such a one. */
  lemma NoPageMarkedIff(lastPage: nat, lastOff: nat, spot: nat, size: nat, a: nat)
    requires size > 0 && lastOff < PAGE_SIZE && PowerOfTwo(a)
    ensures var q := PlaceOf(lastPage, lastOff, spot, size, a);
            q.area == 0 <==>
            && a <= PAGE_SIZE && lastOff != 0 && lastPage + 1 == spot
            && q.pos + size <= (lastPage + 1) * PAGE_SIZE
  {
    PlaceExact(lastPage, lastOff, spot, size, a);
    var q := PlaceOf(lastPage, lastOff, spot, size, a);
    Pages(q.pos + size);
    if !(a <= PAGE_SIZE && lastOff != 0 && lastPage + 1 == spot) {
      FreshPlace(spot, size);
    }
  }

  // ------------------------------------------------------------ where the scans begin

  /** The remainder of a page's address by an alignment of `k` pages. */
  lemma PageRemainder(page: nat, k: nat)
    requires k > 0
    ensures page * PAGE_SIZE % (k * PAGE_SIZE) == page % k * PAGE_SIZE
  {
    var q, r := page / k, page % k;
    assert page * PAGE_SIZE == q * (k * PAGE_SIZE) + r * PAGE_SIZE by {
      assert (q * k + r) * PAGE_SIZE == q * (k * PAGE_SIZE) + r * PAGE_SIZE;
    }
    MulMono(r + 1, k, PAGE_SIZE);
    DivModIs(page * PAGE_SIZE, k * PAGE_SIZE, q, r * PAGE_SIZE);
  }

  lemma OffsetInPages(beginPpn: nat, k: nat)
    requires k > 0
    ensures PpnOffset(beginPpn, k * PAGE_SIZE) == if beginPpn % k == 0 then 0 else k - beginPpn % k
  {
    var a, r := k * PAGE_SIZE, beginPpn % k;
    PageRemainder(beginPpn, k);
    if r == 0 {
      DivModIs(a, a, 1, 0);
    } else {
      var rest := (k - r) * PAGE_SIZE;
      assert a - r * PAGE_SIZE == rest;
      MulMono(k - r + 1, k, PAGE_SIZE);
      DivModIs(rest, a, 0, rest);
      DivModIs(rest, PAGE_SIZE, k - r, 0);
    }
  }

  lemma NextMultiple(x: nat, k: nat)
    requires k > 0
    ensures FirstAligned(x, k, x + if x % k == 0 then 0 else k - x % k)
  {
    if x % k != 0 {
      var q, r := x / k, x % k;
      var up := x + (k - r);
      assert up == (q + 1) * k + 0;
      DivModIs(up, k, q + 1, 0);
      forall y | x <= y < up ensures y % k != 0 {
        if y > up - k {
          NoMultipleBetween(up, k, y);
        }
      }
    }
  }

  /** With an alignment of `k` pages, more than one, the first page the scans may begin at is the first one of the node
      whose number is a multiple of `k`. */
  lemma FirstAdmissible(beginPpn: nat, a: nat) returns (k: nat)
    requires PowerOfTwo(a) && PAGE_SIZE < a <= PMA_LIMIT
    ensures k > 0 && a == k * PAGE_SIZE && FirstAligned(beginPpn, k, beginPpn + PpnOffset(beginPpn, a))
  {
    var c;
    k, c := InPages(a);
    OffsetInPages(beginPpn, k);
    NextMultiple(beginPpn, k);
  }

  /** ... and where they begin for a goal is such a page too, not before the goal. */
  lemma PreferredAligned(beginPpn: nat, num: nat, a: nat, goal: nat) returns (k: nat)
    requires PowerOfTwo(a) && PAGE_SIZE < a <= PMA_LIMIT
    ensures k > 0 && a == k * PAGE_SIZE && (beginPpn + Preferred(beginPpn, num, a, goal)) % k == 0
    ensures goal > 0 && beginPpn <= goal / PAGE_SIZE < beginPpn + num ==>
              beginPpn + Preferred(beginPpn, num, a, goal) >= goal / PAGE_SIZE
  {
    k := FirstAdmissible(beginPpn, a);
    var page := goal / PAGE_SIZE;
    var p := if goal > 0 && beginPpn <= page < beginPpn + num then goal - beginPpn * PAGE_SIZE else 0;
    var n := RoundedTo(p, a, k);
    SumOfMultiples(beginPpn + PpnOffset(beginPpn, a), n, k);
    if goal > 0 && beginPpn <= page < beginPpn + num {
      NotBefore(goal, beginPpn, n * k);
    }
  }

  lemma RoundedTo(p: nat, a: nat, k: nat) returns (n: nat)
    requires k > 0 && a == k * PAGE_SIZE
    ensures RoundUp(p, a) / PAGE_SIZE == n * k && p <= n * k * PAGE_SIZE
  {
    RoundUpFacts(p, a);
    n := (p + a - 1) / a;
    RoundedPages(RoundUp(p, a), n, k);
    assert n * (k * PAGE_SIZE) == n * k * PAGE_SIZE;
  }

  lemma RoundedPages(x: nat, n: nat, k: nat)
    requires k > 0 && x == n * (k * PAGE_SIZE)
    ensures x / PAGE_SIZE == n * k
  {
    assert n * (k * PAGE_SIZE) == n * k * PAGE_SIZE;
    DivModIs(x, PAGE_SIZE, n * k, 0);
  }

  lemma SumOfMultiples(first: nat, n: nat, k: nat)
    requires k > 0 && first % k == 0
    ensures (first + n * k) % k == 0
  {
    var q := first / k;
    assert first + n * k == (q + n) * k + 0;
    DivModIs(first + n * k, k, q + n, 0);
  }

  lemma NotBefore(goal: nat, beginPpn: nat, up: nat)
    requires goal - beginPpn * PAGE_SIZE <= up * PAGE_SIZE
    ensures goal / PAGE_SIZE <= beginPpn + up
  {
    QuotientAtMost(goal, PAGE_SIZE, beginPpn + up);
  }
}
