/** The quicksort of kernel/utilities/algorithm/qsort.c. */
module QSort {

  /** The same elements in `lo..hi` in some order, everything else in place. */
  ghost predicate Perm(s: seq<nat>, t: seq<nat>, lo: nat, hi: nat) {
    && |s| == |t| && lo <= hi <= |s| && multiset(s[lo..hi]) == multiset(t[lo..hi])
    && (forall i | 0 <= i < |s| && !(lo <= i < hi) :: t[i] == s[i])
  }

  ghost predicate Sorted(s: seq<nat>, lo: nat, hi: nat) {
    hi <= |s| && forall i, j | lo <= i < j < hi :: s[i] <= s[j]
  }

  ghost predicate Below(s: seq<nat>, lo: nat, hi: nat, x: nat) {
    hi <= |s| && forall i | lo <= i < hi :: s[i] < x
  }

  ghost predicate AtLeast(s: seq<nat>, lo: nat, hi: nat, x: nat) {
    hi <= |s| && forall i | lo <= i < hi :: s[i] >= x
  }

  lemma PermTrans(s: seq<nat>, t: seq<nat>, u: seq<nat>, lo: nat, hi: nat)
    requires Perm(s, t, lo, hi) && Perm(t, u, lo, hi)
    ensures Perm(s, u, lo, hi)
  {
  }

  lemma PermWider(s: seq<nat>, t: seq<nat>, lo: nat, hi: nat, lo': nat, hi': nat)
    requires Perm(s, t, lo, hi) && lo' <= lo && hi <= hi' <= |s|
    ensures Perm(s, t, lo', hi')
  {
    assert s[lo'..hi'] == s[lo'..lo] + s[lo..hi] + s[hi..hi'] && t[lo'..hi'] == t[lo'..lo] + t[lo..hi] + t[hi..hi'];
    assert s[lo'..lo] == t[lo'..lo] && s[hi..hi'] == t[hi..hi'];
  }

  lemma PermSwap(s: seq<nat>, i: nat, j: nat, lo: nat, hi: nat)
    requires lo <= i < hi <= |s| && lo <= j < hi
    ensures Perm(s, s[i := s[j]][j := s[i]], lo, hi)
  {
    var t := s[i := s[j]][j := s[i]];
    assert t[lo..hi] == s[lo..hi][i - lo := s[j]][j - lo := s[i]];
  }

  lemma PermBelow(s: seq<nat>, t: seq<nat>, lo: nat, hi: nat, x: nat)
    requires Perm(s, t, lo, hi)
    ensures Below(s, lo, hi, x) ==> Below(t, lo, hi, x)
    ensures AtLeast(s, lo, hi, x) ==> AtLeast(t, lo, hi, x)
  {
    forall i | lo <= i < hi ensures exists j :: lo <= j < hi && s[j] == t[i] {
      assert t[i] in multiset(t[lo..hi]);
      assert t[i] in s[lo..hi];
    }
  }

  /** The elements from `lo` up to `j` are split around `x` at `ptr`. */
  ghost predicate Split(s0: seq<nat>, s: seq<nat>, lo: nat, ptr: nat, j: nat, high: nat, x: nat) {
    && lo <= ptr <= j <= high < |s| && s[high] == x && Perm(s0, s, lo, high + 1)
    && Below(s, lo, ptr, x) && AtLeast(s, ptr, j, x)
  }

  /** The partition loop: `ptr` is where the pivot ends up. */
  method Partition(a: array<nat>, low: nat, high: nat) returns (ptr: int)
    requires low < high < a.Length
    modifies a
    ensures low <= ptr <= high && Perm(old(a[..]), a[..], low, high + 1)
    ensures Below(a[..], low, ptr, a[ptr]) && AtLeast(a[..], ptr + 1, high + 1, a[ptr])
  {
    var pivot := a[high];
    ptr := low;
    var j := low;
    while j < high
      invariant low <= ptr <= j <= high && Split(old(a[..]), a[..], low, ptr, j, high, pivot)
    {
      ptr := Step(a, low, ptr, j, high, pivot, old(a[..]));
      j := j + 1;
    }
    ghost var s := a[..];
    Swap(a, ptr, high, low, high + 1, old(a[..]));
    PivotPlaced(s, a[..], low, ptr, high);
  }

  method Step(a: array<nat>, ghost low: nat, ptr: nat, j: nat, ghost high: nat, pivot: nat, ghost s0: seq<nat>)
      returns (ptr': nat)
    requires Split(s0, a[..], low, ptr, j, high, pivot) && j < high
    modifies a
    ensures low <= ptr' <= j + 1 && Split(s0, a[..], low, ptr', j + 1, high, pivot)
  {
    ghost var s := a[..];
    ptr' := ptr;
    if a[j] < pivot {
      Swap(a, ptr, j, low, high + 1, s0);
      SmallerFound(s, a[..], low, ptr, j, pivot);
      ptr' := ptr + 1;
    } else {
      AtLeastNext(s, ptr, j, pivot);
    }
  }

  lemma SmallerFound(s: seq<nat>, t: seq<nat>, lo: nat, ptr: nat, j: nat, x: nat)
    requires lo <= ptr <= j < |s| && t == s[ptr := s[j]][j := s[ptr]] && s[j] < x
    requires Below(s, lo, ptr, x) && AtLeast(s, ptr, j, x)
    ensures Below(t, lo, ptr + 1, x) && AtLeast(t, ptr + 1, j + 1, x)
  {
  }

  lemma AtLeastNext(s: seq<nat>, ptr: nat, j: nat, x: nat)
    requires j < |s| && AtLeast(s, ptr, j, x) && s[j] >= x
    ensures AtLeast(s, ptr, j + 1, x)
  {
  }

  lemma PivotPlaced(s: seq<nat>, t: seq<nat>, lo: nat, ptr: nat, high: nat)
    requires lo <= ptr <= high < |s| && t == s[ptr := s[high]][high := s[ptr]]
    requires Below(s, lo, ptr, s[high]) && AtLeast(s, ptr, high, s[high])
    ensures Below(t, lo, ptr, t[ptr]) && AtLeast(t, ptr + 1, high + 1, t[ptr])
  {
  }

  method Swap(a: array<nat>, i: nat, j: nat, ghost lo: nat, ghost hi: nat, ghost s: seq<nat>)
    requires lo <= i < hi <= a.Length && lo <= j < hi && Perm(s, a[..], lo, hi)
    modifies a
    ensures a[..] == old(a[..])[i := old(a[j])][j := old(a[i])] && Perm(s, a[..], lo, hi)
  {
    PermSwap(a[..], i, j, lo, hi);
    PermTrans(s, a[..], a[..][i := a[j]][j := a[i]], lo, hi);
    var tmp := a[i];
    a[i] := a[j];
    a[j] := tmp;
  }

  /** Two sorted parts around the pivot make one. */
  lemma Join(s: seq<nat>, t: seq<nat>, u: seq<nat>, lo: nat, ptr: nat, hi: nat)
    requires lo <= ptr < hi && Perm(s, t, lo, ptr) && Perm(t, u, ptr + 1, hi) && hi <= |s|
    requires Below(s, lo, ptr, s[ptr]) && AtLeast(s, ptr + 1, hi, s[ptr])
    requires Sorted(t, lo, ptr) && Sorted(u, ptr + 1, hi)
    ensures Sorted(u, lo, hi)
  {
    PermBelow(s, t, lo, ptr, s[ptr]);
    PermBelow(t, u, ptr + 1, hi, s[ptr]);
  }

  lemma Whole(s0: seq<nat>, s: seq<nat>, t: seq<nat>, u: seq<nat>, lo: nat, ptr: nat, hi: nat)
    requires lo <= ptr < hi <= |s| && Perm(s0, s, lo, hi) && Perm(s, t, lo, ptr) && Perm(t, u, ptr + 1, hi)
    requires Below(s, lo, ptr, s[ptr]) && AtLeast(s, ptr + 1, hi, s[ptr])
    requires Sorted(t, lo, ptr) && Sorted(u, ptr + 1, hi)
    ensures Perm(s0, u, lo, hi) && Sorted(u, lo, hi)
  {
    Join(s, t, u, lo, ptr, hi);
    PermWider(s, t, lo, ptr, lo, hi);
    PermWider(t, u, ptr + 1, hi, lo, hi);
    PermTrans(s0, s, t, lo, hi);
    PermTrans(s0, t, u, lo, hi);
  }

  /** __qsort: sorts `low..high` and moves nothing else. */
  method Sort(a: array<nat>, low: int, high: int)
    requires 0 <= low <= high + 1 <= a.Length
    modifies a
    ensures Perm(old(a[..]), a[..], low, high + 1) && Sorted(a[..], low, high + 1)
    decreases high - low
  {
    if low < high {
      ghost var s0 := a[..];
      var ptr := Partition(a, low, high);
      ghost var s := a[..];
      Sort(a, low, ptr - 1);
      ghost var t := a[..];
      Sort(a, ptr + 1, high);
      Whole(s0, s, t, a[..], low, ptr, high + 1);
    }
  }
}
