/** Taking a root out of the forest: the in-place reversal of its child list
    (deps/lemon/lemon/binomial_heap.h, `pop`). */
module BinomialPop {
  import opened HeapSpec
  import opened BinomialForest
  import opened BinomialMerge
  import opened BinomialItems
  import opened Sequences

  ghost predicate IsChild(d: seq<Store>, m: int, i: int) {
    Live(d, i) && d[i].parent == m
  }

  /** `e` is `d` with root `m` marked as out and the children in `done` turned into a list
      of roots. */
  ghost predicate Detached(d: seq<Store>, m: int, e: seq<Store>, done: seq<int>) {
    && |e| == |d|
    && (forall i :: 0 <= i < |d| && i !in done ==> e[i] == if i == m then d[i].(live := false) else d[i])
    && (forall i :: i in done ==> IsChild(d, m, i) && e[i] == d[i].(parent := -1, right := e[i].right))
  }

  /** The state of the reversal loop: the children done so far are those of the largest
      degrees, the last one first; `child` is the next one. */
  ghost predicate Reversing(d: seq<Store>, m: int, e: seq<Store>, child: int, h: int, done: seq<int>) {
    && Detached(d, m, e, done)
    && Chain(e, h, done)
    && |done| <= Deg(d, m)
    && (forall j :: 0 <= j < |done| ==> Deg(d, done[j]) == Deg(d, m) - |done| + j)
    && (if |done| == Deg(d, m) then child == -1
        else IsChild(d, m, child) && d[child].degree == Deg(d, m) - |done| - 1)
  }

  lemma ReverseStart(d: seq<Store>, m: int)
    requires Links(d) && Live(d, m)
    ensures Reversing(d, m, d[m := d[m].(live := false)], d[m].child, -1, [])
  {
    assert NodeOk(d, m);
  }

  lemma ReverseStep(d: seq<Store>, m: int, e: seq<Store>, child: int, h: int, done: seq<int>)
    requires Links(d) && Live(d, m)
    requires Reversing(d, m, e, child, h, done) && child != -1
    ensures 0 <= child < |e|
    ensures Reversing(d, m, e[child := e[child].(parent := -1, right := h)], e[child].right, child, [child] + done)
  {
    var f, w := e[child := e[child].(parent := -1, right := h)], [child] + done;
    assert NodeOk(d, child) && NodeOk(d, m);
    assert child !in done;
    assert e[child] == d[child];
    forall j | 0 <= j < |w| ensures LinkOk(f, w, j) {
      if j > 0 { assert w[j] == done[j - 1] && LinkOk(e, done, j - 1); }
    }
    forall j | 0 <= j < |w| ensures Deg(d, w[j]) == Deg(d, m) - |w| + j {
      if j > 0 { assert w[j] == done[j - 1]; }
    }
    forall i ensures i in w <==> i == child || i in done {
    }
  }

  /** Sum of 2^0 ... 2^(k-1). */
  lemma {:induction false} LadderWeight(d: seq<Store>, l: seq<int>, k: nat)
    requires forall j :: 0 <= j < |l| ==> Deg(d, l[j]) == k + j
    ensures Weight(d, l) + Pow2(k) == Pow2(k + |l|)
    decreases |l|
  {
    if l != [] {
      forall j | 0 <= j < |l[1..]| ensures Deg(d, l[1..][j]) == k + 1 + j {
        assert l[1..][j] == l[j + 1];
      }
      LadderWeight(d, l[1..], k + 1);
    }
  }

  /** With all children of `m` detached, the links and the order of the rest are intact. */
  lemma DetachedLinks(d: seq<Store>, m: int, e: seq<Store>, done: seq<int>)
    requires Links(d) && Ordered(d) && IsRoot(d, m) && Detached(d, m, e, done)
    requires forall i :: IsChild(d, m, i) ==> i in done
    ensures Links(e) && Ordered(e)
  {
    assert forall i :: Live(e, i) <==> Live(d, i) && i != m;
    forall i ensures NodeOk(e, i) {
      DetachedNode(d, m, e, done, i);
    }
    forall i ensures OrderOk(e, i) {
      assert OrderOk(d, i);
    }
    forall i, j ensures SiblingsOk(e, i, j) {
      assert SiblingsOk(d, i, j);
    }
  }

  lemma DetachedNode(d: seq<Store>, m: int, e: seq<Store>, done: seq<int>, i: int)
    requires Links(d) && IsRoot(d, m) && Detached(d, m, e, done)
    requires forall i :: IsChild(d, m, i) ==> i in done
    requires forall i :: Live(e, i) <==> Live(d, i) && i != m
    ensures NodeOk(e, i)
  {
    assert NodeOk(d, i);
    if Live(d, i) && i != m && d[i].degree > 0 {
      assert d[d[i].child].parent == i != m;
      assert e[d[i].child] == d[d[i].child];
    }
  }

  /** All children of `m` are done when their number is its degree. */
  lemma AllDetached(d: seq<Store>, m: int, e: seq<Store>, child: int, h: int, done: seq<int>, i: int)
    requires Links(d) && IsRoot(d, m) && Reversing(d, m, e, child, h, done) && child == -1
    requires IsChild(d, m, i)
    ensures i in done
  {
    assert NodeOk(d, i);
    var j := d[i].degree;
    assert SiblingsOk(d, i, done[j]) && done[j] in done;
  }

  /** After the loop: the rest of the forest, with the former children of `m` as roots of
      degrees 0, 1, 2, ... */
  lemma ReverseEnd(d: seq<Store>, h0: int, l: seq<int>, k: nat, e: seq<Store>, child: int, h: int, done: seq<int>)
    requires Forest(d, h0, l) && k < |l|
    requires Reversing(d, l[k], e, child, h, done) && child == -1
    ensures Links(e) && Ordered(e)
    ensures ListsRoots(e, Without(l, k) + done)
    ensures Increasing(e, done)
    ensures Weight(e, done) + 1 == Pow2(Deg(d, l[k]))
    ensures forall i :: i !in done ==> Deg(e, i) == Deg(d, i)
    ensures forall i :: 0 <= i < |d| && i !in done && i != l[k] ==> e[i] == d[i]
    ensures forall i :: 0 <= i < |d| ==>
              e[i].name == d[i].name && e[i].prio == d[i].prio && e[i].live == (d[i].live && i != l[k])
  {
    var m := l[k];
    assert m in l;
    forall i | IsChild(d, m, i) ensures i in done {
      AllDetached(d, m, e, child, h, done, i);
    }
    DetachedLinks(d, m, e, done);
    hide Links, Ordered, ListsRoots, Chain;
    forall j | 0 <= j < |done| ensures Deg(e, done[j]) == j && Deg(d, done[j]) == j {
      assert done[j] in done;
    }
    DetachedRoots(d, l, k, e, done);
    LadderWeight(e, done, 0);
  }

  lemma DetachedRoots(d: seq<Store>, l: seq<int>, k: nat, e: seq<Store>, done: seq<int>)
    requires ListsRoots(d, l) && k < |l| && Detached(d, l[k], e, done)
    requires forall i :: IsChild(d, l[k], i) ==> i in done
    requires forall i, j :: 0 <= i < j < |done| ==> Deg(d, done[i]) < Deg(d, done[j])
    ensures ListsRoots(e, Without(l, k) + done)
  {
    var w := Without(l, k);
    WithoutElements(l, k);
    assert l[k] in l;
    forall i ensures i in w + done <==> IsRoot(e, i) {
    }
    forall i | i in w ensures i !in done {
    }
    forall i, j | 0 <= i < j < |w + done| ensures (w + done)[i] != (w + done)[j] {
      if i < |w| && |w| <= j { assert (w + done)[i] in w && (w + done)[j] in done; }
      if |w| <= i { assert Deg(d, done[i - |w|]) < Deg(d, done[j - |w|]); }
    }
  }

  // ---------- the rest of pop ----------

  /** Item `t` is out of the heap now; nothing else has changed for the items. */
  ghost predicate Removed(d: seq<Store>, iim: map<Item, int>, t: Item, e: seq<Store>) {
    && NamesOk(e, iim)
    && t in Contents(d, iim)
    && Contents(e, iim) == Contents(d, iim) - {t}
    && Status(e, iim, t) == POST_HEAP
    && (forall x :: x != t ==> Status(e, iim, x) == Status(d, iim, x))
  }

  lemma RemovedSame(d: seq<Store>, iim: map<Item, int>, t: Item, e: seq<Store>, f: seq<Store>)
    requires Removed(d, iim, t, e) && SameItems(e, f)
    ensures Removed(d, iim, t, f)
  {
    SameItemsSameContents(e, f, iim);
  }

  /** The items after slot `m` was marked as out. */
  lemma RemovedNames(d: seq<Store>, iim: map<Item, int>, m: int, e: seq<Store>)
    requires NamesOk(d, iim) && Live(d, m) && |e| == |d|
    requires forall i :: 0 <= i < |d| ==>
               e[i].name == d[i].name && e[i].prio == d[i].prio && e[i].live == (d[i].live && i != m)
    ensures Removed(d, iim, d[m].name, e)
  {
    var t := d[m].name;
    assert Ref(iim, t) == m;
    assert forall i :: Live(e, i) ==> Live(d, i);
    forall x ensures Ref(iim, x) == m <==> x == t {
    }
    var c, c' := Contents(d, iim), Contents(e, iim);
    forall x ensures x in c' <==> x in c && x != t {
      if x in iim { assert Ref(iim, x) == iim[x]; }
    }
    assert c' == c - {t};
  }

  /** `l` without its entry at `k`, next to the detached children: the lists that `pop`
      hands to `merge`, and what they weigh together. */
  ghost predicate Leftover(d: seq<Store>, l: seq<int>, k: nat, e: seq<Store>,
                           h: int, p: seq<int>, g: int, done: seq<int>)
    requires k < |l|
  {
    && Links(e) && Ordered(e) && ListsRoots(e, p + done)
    && Chain(e, h, p) && Chain(e, g, done)
    && Increasing(e, p) && Increasing(e, done)
    && p == Without(l, k)
    && Weight(e, p) + Weight(e, done) + 1 == Weight(d, l)
    && |e| == |d|
    && (forall i :: 0 <= i < |d| ==>
          e[i].name == d[i].name && e[i].prio == d[i].prio && e[i].live == (d[i].live && i != l[k]))
  }

  /** The root list without entry `k`, in an array with the same degrees elsewhere. */
  lemma WithoutRoot(d: seq<Store>, l: seq<int>, k: nat, e: seq<Store>)
    requires Increasing(d, l) && k < |l|
    requires forall j :: 0 <= j < |l| ==> Deg(e, l[j]) == Deg(d, l[j]) || j == k
    ensures Increasing(e, Without(l, k))
    ensures Weight(e, Without(l, k)) + Pow2(Deg(d, l[k])) == Weight(d, l)
  {
    var w := Without(l, k);
    forall j | 0 <= j < |w| ensures w[j] == l[if j < k then j else j + 1] && Deg(e, w[j]) == Deg(d, w[j]) {
    }
    WeightSame(d, e, w);
    WithoutWeight(d, l, k);
  }

  /** The reversal does not touch the records of the other roots. */
  lemma RootsUntouched(d: seq<Store>, h0: int, l: seq<int>, k: nat, e: seq<Store>, done: seq<int>)
    requires Forest(d, h0, l) && k < |l| && Detached(d, l[k], e, done)
    ensures |e| == |d| && NoDup(l) && Chain(e, h0, l)
    ensures forall j :: 0 <= j < |l| ==> l[j] !in done && (Deg(e, l[j]) == Deg(d, l[j]))
  {
    forall j | 0 <= j < |l| ensures l[j] !in done && IsRoot(d, l[j]) {
      var x, m := l[j], l[k];
      assert x in l && m in l && IsRoot(d, m);
    }
    forall j | 0 <= j < |l| ensures LinkOk(e, l, j) {
      assert LinkOk(d, l, j);
    }
  }

  /** After the reversal, with the root list still linked as before. */
  lemma ReversedLists(d: seq<Store>, h0: int, l: seq<int>, k: nat, e: seq<Store>, g: int, done: seq<int>)
    requires Forest(d, h0, l) && Increasing(d, l) && k < |l|
    requires Reversing(d, l[k], e, -1, g, done)
    ensures |e| == |d| && Chain(e, h0, l) && NoDup(l)
    ensures Links(e) && Ordered(e) && ListsRoots(e, Without(l, k) + done)
    ensures Increasing(e, Without(l, k)) && Increasing(e, done) && Chain(e, g, done)
    ensures Weight(e, Without(l, k)) + Weight(e, done) + 1 == Weight(d, l)
    ensures forall j :: 0 <= j < |l| ==> l[j] !in done
    ensures forall i :: 0 <= i < |d| ==>
              e[i].name == d[i].name && e[i].prio == d[i].prio && e[i].live == (d[i].live && i != l[k])
  {
    ReverseEnd(d, h0, l, k, e, -1, g, done);
    RootsUntouched(d, h0, l, k, e, done);
    WithoutRoot(d, l, k, e);
    hide Forest, Links, Ordered, ListsRoots, Increasing, Weight, Chain, Detached, Without, NoDup;
  }

  /** The popped root was the first one. */
  lemma LeftoverFirst(d: seq<Store>, h0: int, l: seq<int>, e: seq<Store>, g: int, done: seq<int>)
    requires Forest(d, h0, l) && Increasing(d, l) && l != []
    requires Reversing(d, l[0], e, -1, g, done)
    ensures h0 == l[0] && 0 <= h0 < |e| && (e[h0].right == -1 <==> Without(l, 0) == [])
    ensures Leftover(d, l, 0, e, e[h0].right, Without(l, 0), g, done)
  {
    ReversedLists(d, h0, l, 0, e, g, done);
    assert LinkOk(e, l, 0);
    ChainTail(e, h0, l);
    assert Without(l, 0) == l[1..];
  }

  /** The popped root was unlaced from the middle or the end of the root list. */
  lemma LeftoverLater(d: seq<Store>, h0: int, l: seq<int>, k: nat, e: seq<Store>, g: int, done: seq<int>)
    requires Forest(d, h0, l) && Increasing(d, l) && 0 < k < |l|
    requires Reversing(d, l[k], e, -1, g, done)
    ensures |e| == |d| && Chain(e, h0, l) && NoDup(l) && 0 <= l[k - 1] < |d| && 0 <= l[k] < |d|
    ensures var f := e[l[k - 1] := e[l[k - 1]].(right := e[l[k]].right)];
            Leftover(d, l, k, f, h0, Without(l, k), g, done)
  {
    ReversedLists(d, h0, l, k, e, g, done);
    var f, w := e[l[k - 1] := e[l[k - 1]].(right := e[l[k]].right)], Without(l, k);
    ChainWithout(e, h0, l, k);
    forall i | i in w ensures IsRoot(e, i) {
      assert i in w + done;
    }
    RelinkRoots(e, f, w);
    forall j | 0 <= j < |done| ensures LinkOk(f, done, j) {
      assert LinkOk(e, done, j) && done[j] in done;
    }
    WeightSame(e, f, w);
    WeightSame(e, f, done);
  }

  /** The popped item is gone; and if one of the lists is empty, there is nothing to merge. */
  lemma LeftoverAlone(d: seq<Store>, iim: map<Item, int>, l: seq<int>, k: nat,
                      e: seq<Store>, h: int, p: seq<int>, g: int, done: seq<int>)
    requires k < |l| && Leftover(d, l, k, e, h, p, g, done)
    requires NamesOk(d, iim) && Live(d, l[k])
    ensures Removed(d, iim, d[l[k]].name, e)
    ensures p == [] ==> Forest(e, g, done) && Increasing(e, done) && Weight(e, done) + 1 == Weight(d, l)
    ensures done == [] ==> Forest(e, h, p) && Increasing(e, p) && Weight(e, p) + 1 == Weight(d, l)
  {
    RemovedNames(d, iim, l[k], e);
    if p == [] { assert p + done == done; }
    if done == [] { assert p + done == p; }
  }

  lemma LeftoverParts(d: seq<Store>, l: seq<int>, k: nat, e: seq<Store>, h: int, p: seq<int>, g: int, done: seq<int>)
    requires k < |l| && Leftover(d, l, k, e, h, p, g, done)
    ensures Links(e) && Ordered(e) && ListsRoots(e, p + done)
    ensures Chain(e, h, p) && Chain(e, g, done)
    ensures Increasing(e, p) && Increasing(e, done)
    ensures Weight(e, p) + Weight(e, done) + 1 == Weight(d, l)
    ensures h == -1 <==> p == []
    ensures g == -1 <==> done == []
  {
  }

  /** The same for a slot `m` that is no root: the root list is untouched, and no root links
      to `m`. */
  lemma StaleList(d: seq<Store>, h: int, l: seq<int>, m: int, e: seq<Store>, g: int, done: seq<int>)
    requires Forest(d, h, l) && Live(d, m) && m !in l && Reversing(d, m, e, -1, g, done)
    ensures |e| == |d| && l != [] && Chain(e, h, l) && NoDup(l) && Chain(e, g, done) && |done| == Deg(d, m)
    ensures 0 <= h < |d| && (e[h].right == -1 <==> |l| == 1)
    ensures IsRoot(e, h) && h !in done
    ensures forall i :: 0 <= i < |d| ==>
              e[i].name == d[i].name && e[i].prio == d[i].prio && e[i].live == (d[i].live && i != m)
  {
    assert RootOf(d, m) in l;
    forall k | 0 <= k < |l| ensures l[k] !in done && e[l[k]] == d[l[k]] && IsRoot(d, l[k]) {
      var x := l[k];
      assert x in l;
    }
    forall k | 0 <= k < |l| ensures LinkOk(e, l, k) {
      assert LinkOk(d, l, k);
    }
    assert LinkOk(d, l, 0);
  }

  lemma ForestParts(d: seq<Store>, h: int, l: seq<int>)
    requires Forest(d, h, l)
    ensures Links(d) && Ordered(d) && Chain(d, h, l) && ListsRoots(d, l) && NoDup(l)
    ensures h == -1 <==> l == []
  {
  }

  lemma EmptyChain(d: seq<Store>, h: int, l: seq<int>)
    requires Chain(d, h, l)
    ensures l == [] ==> h == -1
  {
  }

  /** A forest whose root list misses a root is none. */
  lemma LostRoot(d: seq<Store>, h: int, l: seq<int>, r: int)
    requires IsRoot(d, r) && r !in l
    ensures !Forest(d, h, l)
  {
  }

  lemma LiveInRange(d: seq<Store>, m: int)
    requires Live(d, m)
    ensures 0 <= m < |d|
  {
  }

  lemma PositionIn(l: seq<int>, m: int) returns (k: nat)
    requires m in l
    ensures k < |l| && l[k] == m
  {
    k :| 0 <= k < |l| && l[k] == m;
  }

  /** After the reversal below root number `k`: what is left, whether `k` is the first root
      or has to be unlaced. */
  lemma RootLeftover(d: seq<Store>, h: int, l: seq<int>, k: nat, e: seq<Store>, g: int, done: seq<int>)
    requires Forest(d, h, l) && Increasing(d, l) && k < |l|
    requires Reversing(d, l[k], e, -1, g, done)
    ensures |e| == |d| && 0 <= h < |e| && h == l[0] && (h == l[k] <==> k == 0) && Chain(e, h, l) && NoDup(l)
    ensures e[h].right == -1 <==> |l| == 1
    ensures k == 0 ==> Leftover(d, l, 0, e, e[h].right, Without(l, 0), g, done)
    ensures k > 0 ==>
              && 0 <= l[k - 1] < |e| && 0 <= l[k] < |e|
              && Leftover(d, l, k, e[l[k - 1] := e[l[k - 1]].(right := e[l[k]].right)], h, Without(l, k), g, done)
  {
    ReversedLists(d, h, l, k, e, g, done);
    assert LinkOk(e, l, 0);
    if k == 0 {
      LeftoverFirst(d, h, l, e, g, done);
    } else {
      LeftoverLater(d, h, l, k, e, g, done);
    }
    hide Leftover, Forest, Reversing;
  }

  lemma ForestChain(d: seq<Store>, h: int, l: seq<int>)
    requires Forest(d, h, l)
    ensures Chain(d, h, l)
  {
  }
}
