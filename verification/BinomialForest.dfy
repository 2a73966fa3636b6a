/** The linked binomial forest inside the array of `Store` records of
    deps/lemon/lemon/binomial_heap.h, as a value: what it means for the integer links to be a
    forest, and what the single link manipulations do to it.

    The forest is described by conditions on one slot at a time (`NodeOk`, `OrderOk`)
    instead of a recursive predicate on trees; that these conditions really describe
    binomial trees is proved in BinomialTrees.dfy.
 */
module BinomialForest {

  import opened HeapSpec
  import opened Sequences

  /** One record of `_data`; `live` is the source's field `in`. */
  datatype Store = Store(name: Item, parent: int, right: int, child: int, degree: int, live: bool, prio: int)

  // ---------- the shape of the forest ----------

  ghost predicate Live(d: seq<Store>, i: int) {
    0 <= i < |d| && d[i].live
  }

  ghost predicate IsRoot(d: seq<Store>, i: int) {
    Live(d, i) && d[i].parent == -1
  }

  /** The links of slot `i`: its first child has the next smaller degree, and so has its
      right sibling when it is not a root. (The right link of a root belongs to the
      root list, see `Chain`.) */
  ghost predicate NodeOk(d: seq<Store>, i: int) {
    Live(d, i) ==>
      var s := d[i];
      && 0 <= s.degree
      && (if s.degree == 0 then s.child == -1
          else Live(d, s.child) && d[s.child].parent == i && d[s.child].degree == s.degree - 1)
      && (s.parent != -1 ==>
            && Live(d, s.parent) && s.degree < d[s.parent].degree
            && (if s.degree == 0 then s.right == -1
                else Live(d, s.right) && d[s.right].parent == s.parent && d[s.right].degree == s.degree - 1))
  }

  /** No parent has two children of one degree. */
  ghost predicate SiblingsOk(d: seq<Store>, i: int, j: int) {
    Live(d, i) && Live(d, j) && d[i].parent == d[j].parent != -1 && d[i].degree == d[j].degree ==> i == j
  }

  ghost predicate Links(d: seq<Store>) {
    && (forall i {:trigger NodeOk(d, i)} :: NodeOk(d, i))
    && (forall i, j {:trigger SiblingsOk(d, i, j)} :: SiblingsOk(d, i, j))
  }

  /** Heap order between slot `i` and its parent. */
  ghost predicate OrderOk(d: seq<Store>, i: int) {
    Live(d, i) && Live(d, d[i].parent) ==> d[d[i].parent].prio <= d[i].prio
  }

  ghost predicate Ordered(d: seq<Store>) {
    forall i {:trigger OrderOk(d, i)} :: OrderOk(d, i)
  }

  // ---------- lists of roots ----------

  /** The right links lead from `h` through exactly the slots of `l`, in order. */
  ghost predicate Chain(d: seq<Store>, h: int, l: seq<int>) {
    && h == (if l == [] then -1 else l[0])
    && (forall k :: 0 <= k < |l| ==> 0 <= l[k] < |d|)
    && (forall k {:trigger LinkOk(d, l, k)} :: 0 <= k < |l| ==> LinkOk(d, l, k))
  }

  ghost predicate LinkOk(d: seq<Store>, l: seq<int>, k: int)
    requires 0 <= k < |l| && 0 <= l[k] < |d|
  {
    d[l[k]].right == if k + 1 < |l| then l[k + 1] else -1
  }

  lemma ChainTail(d: seq<Store>, h: int, l: seq<int>)
    requires Chain(d, h, l) && l != []
    ensures 0 <= h < |d| && Chain(d, d[h].right, l[1..])
  {
    assert LinkOk(d, l, 0);
    forall k | 0 <= k < |l[1..]| ensures LinkOk(d, l[1..], k) {
      assert LinkOk(d, l, k + 1);
    }
  }

  /** `l` lists every root, once. */
  ghost predicate ListsRoots(d: seq<Store>, l: seq<int>) {
    && NoDup(l)
    && (forall i :: i in l <==> IsRoot(d, i))
  }

  /** A heap-ordered binomial forest whose root list starts at `h` and is `l`. */
  ghost predicate Forest(d: seq<Store>, h: int, l: seq<int>) {
    Links(d) && Ordered(d) && Chain(d, h, l) && ListsRoots(d, l)
  }

  ghost function Deg(d: seq<Store>, i: int): int {
    if 0 <= i < |d| then d[i].degree else 0
  }

  ghost predicate Increasing(d: seq<Store>, l: seq<int>) {
    forall i, j :: 0 <= i < j < |l| ==> Deg(d, l[i]) < Deg(d, l[j])
  }

  ghost predicate NonDecreasing(d: seq<Store>, l: seq<int>) {
    forall i, j :: 0 <= i < j < |l| ==> Deg(d, l[i]) <= Deg(d, l[j])
  }

  /** In a non-decreasing list: no three entries of one degree from position `k` on. */
  ghost predicate AtMostTwoFrom(d: seq<Store>, l: seq<int>, k: int) {
    forall i, j :: k <= i && 0 <= i && i + 2 <= j < |l| ==> Deg(d, l[i]) < Deg(d, l[j])
  }

  /** `s` is the leftmost entry of `l` of least priority. */
  ghost predicate Leads(d: seq<Store>, l: seq<int>, s: int) {
    && (forall k :: 0 <= k < |l| ==> 0 <= l[k] < |d|)
    && exists k :: IsLeader(d, l, k) && l[k] == s
  }

  ghost predicate IsLeader(d: seq<Store>, l: seq<int>, k: int) {
    && 0 <= k < |l|
    && (forall j :: 0 <= j < |l| ==> 0 <= l[j] < |d|)
    && (forall j :: 0 <= j < k ==> d[l[k]].prio < d[l[j]].prio)
    && (forall j :: k <= j < |l| ==> d[l[k]].prio <= d[l[j]].prio)
  }

  // ---------- sizes ----------

  ghost function Pow2(k: int): (p: nat)
    ensures p >= 1
  {
    if k <= 0 then 1 else 2 * Pow2(k - 1)
  }

  /** Sum over the list of 2^degree: the number of nodes of the listed trees. */
  ghost function Weight(d: seq<Store>, l: seq<int>): nat {
    if l == [] then 0 else Pow2(Deg(d, l[0])) + Weight(d, l[1..])
  }

  lemma {:induction false} WeightConcat(d: seq<Store>, a: seq<int>, b: seq<int>)
    ensures Weight(d, a + b) == Weight(d, a) + Weight(d, b)
  {
    if a == [] {
      assert a + b == b;
    } else {
      assert (a + b)[1..] == a[1..] + b;
      WeightConcat(d, a[1..], b);
    }
  }

  lemma {:induction false} WeightSame(d: seq<Store>, e: seq<Store>, l: seq<int>)
    requires forall k :: 0 <= k < |l| ==> Deg(d, l[k]) == Deg(e, l[k])
    ensures Weight(d, l) == Weight(e, l)
  {
    if l != [] {
      forall k | 0 <= k < |l[1..]| ensures Deg(d, l[1..][k]) == Deg(e, l[1..][k]) {
        assert l[1..][k] == l[k + 1];
      }
      WeightSame(d, e, l[1..]);
    }
  }

  // ---------- what does not change ----------

  /** Only right links differ, and those only on the slots of `l`. */
  ghost predicate Relinked(d: seq<Store>, e: seq<Store>, l: seq<int>) {
    && |e| == |d|
    && (forall i :: 0 <= i < |d| ==> e[i] == d[i].(right := e[i].right))
    && (forall i :: 0 <= i < |d| && i !in l ==> e[i] == d[i])
  }

  /** Names, priorities and membership are the same in every slot. */
  ghost predicate SameItems(d: seq<Store>, e: seq<Store>) {
    && |e| == |d|
    && forall i :: 0 <= i < |d| ==> e[i].name == d[i].name && e[i].prio == d[i].prio && e[i].live == d[i].live
  }

  /** The right links of roots can be changed freely. */
  lemma RelinkRoots(d: seq<Store>, e: seq<Store>, l: seq<int>)
    requires Links(d) && Ordered(d)
    requires Relinked(d, e, l)
    requires forall i :: i in l ==> IsRoot(d, i)
    ensures Links(e) && Ordered(e) && SameItems(d, e)
    ensures forall i :: IsRoot(e, i) <==> IsRoot(d, i)
    ensures forall i :: Deg(e, i) == Deg(d, i)
  {
    forall i ensures NodeOk(e, i) && OrderOk(e, i) {
      assert NodeOk(d, i) && OrderOk(d, i);
      if Live(d, i) && d[i].parent != -1 {
        assert i !in l;
      }
    }
    forall i, j ensures SiblingsOk(e, i, j) {
      assert SiblingsOk(d, i, j);
    }
  }

  // ---------- fuse ----------

  /** Lacing node `a` under node `b` (the source's `fuse`). */
  function Fused(d: seq<Store>, a: int, b: int): seq<Store>
    requires 0 <= a < |d| && 0 <= b < |d| && a != b
  {
    d[a := d[a].(parent := b, right := d[b].child)]
     [b := d[b].(child := a, degree := d[b].degree + 1)]
  }

  /** Lacing a root under a root of the same degree and no larger priority makes one
      binomial tree of the next degree. */
  lemma FusedForest(d: seq<Store>, a: int, b: int)
    requires Links(d) && Ordered(d)
    requires IsRoot(d, a) && IsRoot(d, b) && a != b
    requires d[a].degree == d[b].degree && d[b].prio <= d[a].prio
    ensures var e := Fused(d, a, b);
            && Links(e) && Ordered(e) && SameItems(d, e)
            && (forall i :: IsRoot(e, i) <==> IsRoot(d, i) && i != a)
            && Deg(e, b) == Deg(d, b) + 1
            && (forall i :: i != b ==> Deg(e, i) == Deg(d, i))
  {
    var e := Fused(d, a, b);
    assert NodeOk(d, a) && NodeOk(d, b);
    forall i ensures NodeOk(e, i) && OrderOk(e, i) {
      assert NodeOk(d, i) && OrderOk(d, i);
    }
    forall i, j ensures SiblingsOk(e, i, j) {
      assert SiblingsOk(d, i, j) && NodeOk(d, i) && NodeOk(d, j);
    }
  }

  lemma SameItemsRefl(d: seq<Store>)
    ensures SameItems(d, d)
  {
  }

  lemma SameItemsTrans(d: seq<Store>, e: seq<Store>, f: seq<Store>)
    requires SameItems(d, e) && SameItems(e, f)
    ensures SameItems(d, f)
  {
  }

  lemma TogetherNoDup(d: seq<Store>, p: seq<int>, q: seq<int>, a: int)
    requires ListsRoots(d, p + q) && Chain(d, a, q) && a != -1
    ensures NoDup(p + q) && a !in p && 0 <= a < |d|
  {
    assert (p + q)[|p|] == a;
    forall i | 0 <= i < |p| ensures p[i] != a {
      assert (p + q)[i] == p[i];
    }
  }

  lemma SingleList(d: seq<Store>, a: int, q: seq<int>)
    requires Chain(d, a, q) && 0 <= a < |d| && d[a].right == -1
    ensures q == [a]
  {
    assert LinkOk(d, q, 0);
  }
}
