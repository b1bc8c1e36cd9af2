/** The intrusive doubly linked lists of kernel/utilities/algorithm/list.c.

    Nodes are numbered; `nxt` and `prv` are the two pointer fields of every node
    and `NULL` the null pointer. A list is named by its head node. The ghost field
    `chains` gives, list by list, the nodes met from the head on, the head first. */
module Links {

  const NULL := -1

  ghost predicate Linked(nxt: seq<int>, prv: seq<int>, chain: seq<nat>)
    requires |nxt| == |prv|
  {
    && |chain| > 0
    && (forall i :: 0 <= i < |chain| ==> chain[i] < |nxt|)
    && prv[chain[0]] == NULL
    && nxt[chain[|chain| - 1]] == NULL
    && (forall i :: 0 <= i < |chain| - 1 ==> nxt[chain[i]] == chain[i + 1])
    && (forall i :: 0 < i < |chain| ==> prv[chain[i]] == chain[i - 1])
  }

  /** No node occurs twice, neither in one list nor in two. */
  ghost predicate Apart(chains: seq<seq<nat>>) {
    forall c, i, d, j |
      0 <= c < |chains| && 0 <= i < |chains[c]| && 0 <= d < |chains| && 0 <= j < |chains[d]| ::
      chains[c][i] == chains[d][j] ==> c == d && i == j
  }

  function InsertAt<T>(s: seq<T>, i: nat, x: T): seq<T>
    requires i <= |s|
  {
    s[..i] + [x] + s[i..]
  }

  function RemoveAt<T>(s: seq<T>, i: nat): (r: seq<T>)
    requires i < |s|
    ensures |r| == |s| - 1 && forall j | 0 <= j < |r| :: r[j] == s[if j < i then j else j + 1]
  {
    s[..i] + s[i + 1..]
  }

  ghost predicate InNone(chains: seq<seq<nat>>, x: nat) {
    forall c :: 0 <= c < |chains| ==> x !in chains[c]
  }

  lemma ApartAfterInsert(chains: seq<seq<nat>>, c: nat, x: nat)
    requires Apart(chains) && InNone(chains, x)
    requires c < |chains| && |chains[c]| > 0
    ensures Apart(chains[c := InsertAt(chains[c], 1, x)])
  {
    var after := chains[c := InsertAt(chains[c], 1, x)];
    forall d, i, e, j | 0 <= d < |after| && 0 <= i < |after[d]| && 0 <= e < |after| && 0 <= j < |after[e]| &&
                        after[d][i] == after[e][j]
      ensures d == e && i == j
    {
      var i' := if d == c && i > 0 then i - 1 else i;
      var j' := if e == c && j > 0 then j - 1 else j;
      assert after[d][i] == x || after[d][i] == chains[d][i'];
      assert after[e][j] == x || after[e][j] == chains[e][j'];
    }
  }

  lemma ApartAfterRemove(chains: seq<seq<nat>>, c: nat, k: nat)
    requires Apart(chains)
    requires c < |chains| && k < |chains[c]|
    ensures Apart(chains[c := RemoveAt(chains[c], k)])
  {
    var after := chains[c := RemoveAt(chains[c], k)];
    forall d, i, e, j | 0 <= d < |after| && 0 <= i < |after[d]| && 0 <= e < |after| && 0 <= j < |after[e]| &&
                        after[d][i] == after[e][j]
      ensures d == e && i == j
    {
      var i' := if d == c && i >= k then i + 1 else i;
      var j' := if e == c && j >= k then j + 1 else j;
      assert after[d][i] == chains[d][i'];
      assert after[e][j] == chains[e][j'];
    }
  }

  /** A list none of whose nodes is written stays as it is. */
  lemma LinkedFrame(nxt: seq<int>, prv: seq<int>, nxt': seq<int>, prv': seq<int>, chain: seq<nat>)
    requires |nxt| == |prv| == |nxt'| == |prv'|
    requires Linked(nxt, prv, chain)
    requires forall i :: 0 <= i < |chain| ==> nxt'[chain[i]] == nxt[chain[i]] && prv'[chain[i]] == prv[chain[i]]
    ensures Linked(nxt', prv', chain)
  {
  }

  ghost predicate Distinct(chain: seq<nat>) {
    forall i, j :: 0 <= i < |chain| && 0 <= j < |chain| && chain[i] == chain[j] ==> i == j
  }

  /** The writes of `list_insert` extend the list by one node behind the head. */
  lemma LinkedInsert(nxt: seq<int>, prv: seq<int>, nxt': seq<int>, prv': seq<int>, chain: seq<nat>, x: nat)
    requires |nxt| == |prv| == |nxt'| == |prv'|
    requires Linked(nxt, prv, chain) && Distinct(chain) && x !in chain && x < |nxt|
    requires nxt' == nxt[x := nxt[chain[0]]][chain[0] := x]
    requires prv' == if |chain| > 1 then prv[x := chain[0]][chain[1] := x] else prv[x := chain[0]]
    ensures Linked(nxt', prv', InsertAt(chain, 1, x))
  {
    var after := InsertAt(chain, 1, x);
    assert forall i :: 2 <= i < |after| ==> after[i] == chain[i - 1];
  }

  /** The writes of `list_detach` cut one node out. */
  lemma LinkedRemove(nxt: seq<int>, prv: seq<int>, nxt': seq<int>, prv': seq<int>, chain: seq<nat>, k: nat)
    requires |nxt| == |prv| == |nxt'| == |prv'|
    requires Linked(nxt, prv, chain) && Distinct(chain) && 0 < k < |chain|
    requires nxt' == nxt[chain[k - 1] := nxt[chain[k]]][chain[k] := NULL]
    requires prv' == (if k + 1 < |chain| then prv[chain[k + 1] := chain[k - 1]] else prv)[chain[k] := NULL]
    ensures Linked(nxt', prv', RemoveAt(chain, k))
  {
    var after := RemoveAt(chain, k);
    assert forall i :: 0 <= i < |after| ==> after[i] == chain[if i < k then i else i + 1];
  }

  ghost predicate AllLinked(nxt: seq<int>, prv: seq<int>, chains: seq<seq<nat>>)
    requires |nxt| == |prv|
  {
    Apart(chains) && forall c :: 0 <= c < |chains| ==> Linked(nxt, prv, chains[c])
  }

  lemma InsertKeeps(nxt: seq<int>, prv: seq<int>, nxt': seq<int>, prv': seq<int>, chains: seq<seq<nat>>, c: nat, x: nat)
    requires |nxt| == |prv| == |nxt'| == |prv'|
    requires AllLinked(nxt, prv, chains) && c < |chains| && InNone(chains, x) && x < |nxt|
    requires nxt' == nxt[x := nxt[chains[c][0]]][chains[c][0] := x]
    requires prv' == if |chains[c]| > 1 then prv[x := chains[c][0]][chains[c][1] := x] else prv[x := chains[c][0]]
    ensures AllLinked(nxt', prv', chains[c := InsertAt(chains[c], 1, x)])
  {
    ApartAfterInsert(chains, c, x);
    LinkedInsert(nxt, prv, nxt', prv', chains[c], x);
    forall d | 0 <= d < |chains| && d != c ensures Linked(nxt', prv', chains[d]) {
      LinkedFrame(nxt, prv, nxt', prv', chains[d]);
    }
  }

  lemma DetachKeeps(nxt: seq<int>, prv: seq<int>, nxt': seq<int>, prv': seq<int>, chains: seq<seq<nat>>, c: nat, k: nat)
    requires |nxt| == |prv| == |nxt'| == |prv'|
    requires AllLinked(nxt, prv, chains) && c < |chains| && 0 < k < |chains[c]|
    requires nxt' == nxt[chains[c][k - 1] := nxt[chains[c][k]]][chains[c][k] := NULL]
    requires prv' ==
             (if k + 1 < |chains[c]| then prv[chains[c][k + 1] := chains[c][k - 1]] else prv)[chains[c][k] := NULL]
    ensures AllLinked(nxt', prv', chains[c := RemoveAt(chains[c], k)])
  {
    ApartAfterRemove(chains, c, k);
    LinkedRemove(nxt, prv, nxt', prv', chains[c], k);
    forall d | 0 <= d < |chains| && d != c ensures Linked(nxt', prv', chains[d]) {
      LinkedFrame(nxt, prv, nxt', prv', chains[d]);
    }
  }

  lemma ApartAfterAppend(chains: seq<seq<nat>>, c: nat, x: nat)
    requires Apart(chains) && InNone(chains, x)
    requires c < |chains| && |chains[c]| > 0
    ensures Apart(chains[c := chains[c] + [x]])
  {
    var after := chains[c := chains[c] + [x]];
    forall d, i, e, j | 0 <= d < |after| && 0 <= i < |after[d]| && 0 <= e < |after| && 0 <= j < |after[e]| &&
                        after[d][i] == after[e][j]
      ensures d == e && i == j
    {
      assert after[d][i] == x || (i < |chains[d]| && after[d][i] == chains[d][i]);
      assert after[e][j] == x || (j < |chains[e]| && after[e][j] == chains[e][j]);
    }
  }

  /** One more node behind the last one. */
  lemma AppendKeeps(nxt: seq<int>, prv: seq<int>, nxt': seq<int>, prv': seq<int>, chains: seq<seq<nat>>, c: nat, x: nat)
    requires |nxt| == |prv| == |nxt'| == |prv'|
    requires AllLinked(nxt, prv, chains) && c < |chains| && InNone(chains, x) && x < |nxt|
    requires nxt' == nxt[chains[c][|chains[c]| - 1] := x][x := NULL] && prv' == prv[x := chains[c][|chains[c]| - 1]]
    ensures AllLinked(nxt', prv', chains[c := chains[c] + [x]])
  {
    ApartAfterAppend(chains, c, x);
    forall d | 0 <= d < |chains| && d != c ensures Linked(nxt', prv', chains[d]) {
      LinkedFrame(nxt, prv, nxt', prv', chains[d]);
    }
  }

  class Nodes {
    const nxt: array<int>
    const prv: array<int>
    ghost var chains: seq<seq<nat>>

    ghost predicate Valid()
      reads this, nxt, prv
    {
      && nxt != prv
      && nxt.Length == prv.Length
      && AllLinked(nxt[..], prv[..], chains)
    }

    /** `size` unlinked nodes and, behind them, one empty list for each of `lists` heads. */
    constructor (size: nat, lists: nat)
      ensures Valid() && fresh(nxt) && fresh(prv)
      ensures nxt.Length == size + lists
      ensures chains == seq(lists, c requires 0 <= c < lists => [size + c])
    {
      nxt := new int[size + lists](_ => NULL);
      prv := new int[size + lists](_ => NULL);
      chains := seq(lists, c requires 0 <= c < lists => [size + c]);
    }

    /** `list_insert`: puts `node` right behind `head`. */
    method Insert(head: nat, node: nat, ghost c: nat)
      requires Valid()
      requires c < |chains| && |chains[c]| > 0 && chains[c][0] == head
      requires node < nxt.Length && InNone(chains, node)
      modifies this, nxt, prv
      ensures Valid()
      ensures chains == old(chains)[c := InsertAt(old(chains[c]), 1, node)]
    {
      ghost var n, p := nxt[..], prv[..];
      assert n[head] == if |chains[c]| > 1 then chains[c][1] else NULL;
      prv[node] := head;
      nxt[node] := nxt[head];
      if nxt[node] != NULL {
        prv[nxt[node]] := node;
      }
      nxt[head] := node;
      assert nxt[..] == n[node := n[head]][head := node];
      assert prv[..] == if |chains[c]| > 1 then p[node := head][chains[c][1] := node] else p[node := head];
      InsertKeeps(n, p, nxt[..], prv[..], chains, c, node);
      chains := chains[c := InsertAt(chains[c], 1, node)];
    }

    /** `list_detach`: unlinks a node that is not the head of its list. */
    method Detach(node: nat, ghost c: nat, ghost i: nat)
      requires Valid()
      requires c < |chains| && 0 < i < |chains[c]| && chains[c][i] == node
      modifies this, nxt, prv
      ensures Valid()
      ensures chains == old(chains)[c := RemoveAt(old(chains[c]), i)]
    {
      ghost var n, p := nxt[..], prv[..];
      assert p[node] == chains[c][i - 1];
      assert n[node] == if i + 1 < |chains[c]| then chains[c][i + 1] else NULL;
      if prv[node] != NULL {
        nxt[prv[node]] := nxt[node];
      }
      if nxt[node] != NULL {
        prv[nxt[node]] := prv[node];
      }
      prv[node], nxt[node] := NULL, NULL;
      DetachKeeps(n, p, nxt[..], prv[..], chains, c, i);
      chains := chains[c := RemoveAt(chains[c], i)];
    }

    /** Puts `node` behind `last`, the last node of its list. */
    method Append(last: nat, node: nat, ghost c: nat)
      requires Valid()
      requires c < |chains| && |chains[c]| > 0 && chains[c][|chains[c]| - 1] == last
      requires node < nxt.Length && InNone(chains, node)
      modifies this, nxt, prv
      ensures Valid()
      ensures chains == old(chains)[c := old(chains[c]) + [node]]
    {
      ghost var n, p := nxt[..], prv[..];
      nxt[last] := node;
      prv[node] := last;
      nxt[node] := NULL;
      assert nxt[..] == n[last := node][node := NULL] && prv[..] == p[node := last];
      AppendKeeps(n, p, nxt[..], prv[..], chains, c, node);
      chains := chains[c := chains[c] + [node]];
    }
  }
}
