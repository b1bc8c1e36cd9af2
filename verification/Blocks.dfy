/** Power-of-two aligned page blocks and what the buddy system should list.

    A memory map `m` holds one bit per managed page, `true` for a page in use.
    Everything the free lists and the pair bit maps of kernel/memory/buddy.c
    may contain is stated here as a function of `m` alone. */
module Blocks {

  const MAX_ORDER := 11
  const TOP := MAX_ORDER - 1

  function Pow2(n: nat): (r: nat)
    ensures r > 0
  {
    if n == 0 then 1 else 2 * Pow2(n - 1)
  }

  /** `p >> n`. */
  function Shr(p: nat, n: nat): nat {
    if n == 0 then p else Shr(p / 2, n - 1)
  }

  /** `j << n`. */
  function Shl(j: nat, n: nat): nat {
    if n == 0 then j else 2 * Shl(j, n - 1)
  }

  /** `p & ~((1 << o) - 1)`: the first page of the order-`o` block holding page `p`. */
  function Base(o: nat, p: nat): nat {
    if o == 0 then p else 2 * Base(o - 1, p / 2)
  }

  /** `p ^ (1 << o)`. */
  function Flip(o: nat, p: nat): nat {
    if o == 0 then (if p % 2 == 0 then p + 1 else p - 1) else 2 * Flip(o - 1, p / 2) + p % 2
  }

  ghost predicate Aligned(o: nat, p: nat) {
    Base(o, p) == p
  }

  /** The pages `[p, p + 2^o)` exist and are all clear in the map. */
  ghost predicate FreeRun(m: seq<bool>, o: nat, p: nat) {
    p + Pow2(o) <= |m| && forall q :: p <= q < p + Pow2(o) ==> !m[q]
  }

  /** A maximal aligned free block: free, and not half of a larger free block. */
  ghost predicate Maximal(m: seq<bool>, o: nat, p: nat) {
    Aligned(o, p) && FreeRun(m, o, p) && (o < TOP ==> !FreeRun(m, o + 1, Base(o + 1, p)))
  }

  ghost predicate NoMaximal(m: seq<bool>, o: nat) {
    forall p: nat :: !Maximal(m, o, p)
  }

  /** A maximal block of order `c` begins at `p`, and no order from `order` up to there has one. */
  ghost predicate BestFit(m: seq<bool>, order: nat, c: nat, p: nat) {
    order <= c < MAX_ORDER && Maximal(m, c, p) && forall o | order <= o < c :: NoMaximal(m, o)
  }

  /** First page of the `j`-th pair of order-`o` buddies. */
  function PairBase(o: nat, j: nat): nat {
    Shl(j, o + 1)
  }

  // ---------------------------------------------------------------- alignment

  lemma {:induction false} BaseBounds(o: nat, p: nat)
    ensures Base(o, p) <= p < Base(o, p) + Pow2(o)
    ensures Aligned(o, Base(o, p))
  {
    if o > 0 {
      BaseBounds(o - 1, p / 2);
    }
  }

  /** The aligned block around a page is unique. */
  lemma {:induction false} BaseUnique(o: nat, p: nat, b: nat)
    requires Aligned(o, b) && b <= p < b + Pow2(o)
    ensures Base(o, p) == b
  {
    if o > 0 {
      BaseUnique(o - 1, p / 2, b / 2);
    }
  }

  /** One step up: the block of order `o + 1` around an aligned block is the block
      together with its buddy, whichever comes first. */
  lemma {:induction false} ParentOf(o: nat, p: nat)
    requires Aligned(o, p)
    ensures Aligned(o, Flip(o, p)) && Base(o + 1, Flip(o, p)) == Base(o + 1, p)
    ensures || (Base(o + 1, p) == p && Flip(o, p) == p + Pow2(o))
            || (Base(o + 1, p) == p - Pow2(o) == Flip(o, p))
  {
    if o > 0 {
      ParentOf(o - 1, p / 2);
    }
  }

  lemma {:induction false} AlignedDown(o: nat, p: nat)
    requires Aligned(o + 1, p)
    ensures Aligned(o, p) && Aligned(o, p + Pow2(o))
    ensures Base(o + 1, p + Pow2(o)) == p
  {
    if o > 0 {
      AlignedDown(o - 1, p / 2);
    }
  }

  lemma BaseUp(o: nat, p: nat)
    ensures Base(o + 1, Base(o, p)) == Base(o + 1, p)
    ensures Base(o + 1, p) <= Base(o, p) && Base(o, p) + Pow2(o) <= Base(o + 1, p) + Pow2(o + 1)
  {
    BaseBounds(o, p);
    var b := Base(o, p);
    ParentOf(o, b);
    BaseBounds(o + 1, b);
    BaseUnique(o + 1, p, Base(o + 1, b));
  }

  /** An aligned block lies inside every larger aligned block it meets. */
  lemma {:induction false} Nested(o: nat, o': nat, p: nat)
    requires o <= o'
    ensures Base(o', p) <= Base(o, p) && Base(o, p) + Pow2(o) <= Base(o', p) + Pow2(o')
    ensures Base(o', Base(o, p)) == Base(o', p)
    decreases o' - o
  {
    BaseBounds(o, p);
    if o < o' {
      BaseUp(o, p);
      Nested(o + 1, o', p);
      BaseBounds(o', p);
      BaseUnique(o', Base(o, p), Base(o', p));
    } else {
      BaseUnique(o, Base(o, p), Base(o, p));
    }
  }

  lemma {:induction false} ShlShr(j: nat, n: nat)
    ensures Shr(Shl(j, n), n) == j && Aligned(n, Shl(j, n))
  {
    if n > 0 {
      ShlShr(j, n - 1);
    }
  }

  lemma {:induction false} ShrShl(p: nat, n: nat)
    ensures Shl(Shr(p, n), n) == Base(n, p)
  {
    if n > 0 {
      ShrShl(p / 2, n - 1);
    }
  }

  lemma {:induction false} PairIndex(o: nat, j: nat)
    ensures Shr(PairBase(o, j), o + 1) == j
    ensures Aligned(o + 1, PairBase(o, j))
  {
    ShlShr(j, o + 1);
  }

  lemma {:induction false} PairOf(o: nat, p: nat)
    ensures PairBase(o, Shr(p, o + 1)) == Base(o + 1, p)
  {
    ShrShl(p, o + 1);
  }

  // ------------------------------------------------- maximal blocks tile the free pages

  lemma Halves(m: seq<bool>, o: nat, p: nat)
    ensures FreeRun(m, o + 1, p) <==> FreeRun(m, o, p) && FreeRun(m, o, p + Pow2(o))
  {
    var d := Pow2(o);
    if FreeRun(m, o, p) && FreeRun(m, o, p + d) {
      forall q | p <= q < p + 2 * d ensures !m[q] {
        if q < p + d {} else {}
      }
    }
  }

  lemma FreeInside(m: seq<bool>, o: nat, o': nat, p: nat)
    requires o <= o' && FreeRun(m, o', Base(o', p))
    ensures FreeRun(m, o, Base(o, p))
  {
    Nested(o, o', p);
  }

  /** Two maximal blocks that share a page are the same block of the same order. */
  lemma MaximalDisjoint(m: seq<bool>, o: nat, p: nat, o': nat, p': nat, q: nat)
    requires o <= o' <= TOP
    requires Maximal(m, o, p) && Maximal(m, o', p')
    requires p <= q < p + Pow2(o) && p' <= q < p' + Pow2(o')
    ensures o == o' && p == p'
  {
    BaseUnique(o, q, p);
    BaseUnique(o', q, p');
    if o < o' {
      FreeInside(m, o + 1, o', q);
      BaseUp(o, q);
    }
  }

  /** Every free aligned block lies in a maximal one. */
  lemma {:induction false} MaximalAround(m: seq<bool>, o: nat, p: nat) returns (o': nat)
    requires o <= TOP && FreeRun(m, o, Base(o, p))
    ensures o <= o' <= TOP && Maximal(m, o', Base(o', p))
    decreases TOP - o
  {
    BaseBounds(o, p);
    BaseUp(o, p);
    if o < TOP && FreeRun(m, o + 1, Base(o + 1, p)) {
      o' := MaximalAround(m, o + 1, p);
    } else {
      o' := o;
    }
  }
}
