/** Merging root lists: the interleaving of two degree-sorted lists, and the steps of the
    consolidation loop (deps/lemon/lemon/binomial_heap.h, `merge` and `interleave`). */
module BinomialMerge {
  import opened BinomialForest
  import opened BinomialCarry
  import opened Sequences

  function Without(l: seq<int>, k: nat): (w: seq<int>)
    requires k < |l|
    ensures |w| == |l| - 1
  {
    l[..k] + l[k + 1..]
  }

  lemma WithoutElements(l: seq<int>, k: nat)
    requires k < |l| && NoDup(l)
    ensures NoDup(Without(l, k))
    ensures forall i :: i in Without(l, k) <==> i in l && i != l[k]
  {
    var w := Without(l, k);
    forall i ensures i in w <==> i in l && i != l[k] {
      if i in l && i != l[k] {
        var j :| 0 <= j < |l| && l[j] == i;
        assert w[if j < k then j else j - 1] == i;
      }
    }
  }

  lemma WithoutWeight(d: seq<Store>, l: seq<int>, k: nat)
    requires k < |l|
    ensures Weight(d, l) == Weight(d, Without(l, k)) + Pow2(Deg(d, l[k]))
  {
    assert l == l[..k] + ([l[k]] + l[k + 1..]);
    WeightConcat(d, l[..k], [l[k]] + l[k + 1..]);
    WeightConcat(d, [l[k]], l[k + 1..]);
    WeightConcat(d, l[..k], l[k + 1..]);
    assert [l[k]][1..] == [];
  }

  /** Dropping an entry that does not lead keeps the leftmost least entry. */
  lemma WithoutLeads(d: seq<Store>, e: seq<Store>, l: seq<int>, k: nat, s: int)
    requires k < |l| && SameItems(d, e)
    requires Leads(d, l, s) && l[k] != s
    ensures Leads(e, Without(l, k), s)
  {
    var m :| IsLeader(d, l, m) && l[m] == s;
    var w := Without(l, k);
    assert IsLeader(e, w, if m < k then m else m - 1);
  }

  lemma LeadsUnique(d: seq<Store>, l: seq<int>, s: int, t: int)
    requires Leads(d, l, s) && Leads(d, l, t)
    ensures s == t
  {
  }

  // ---------- one consolidation step ----------

  /** The root after position `k` is laced under the root at `k`. */
  function FuseNext(d: seq<Store>, l: seq<int>, k: nat): seq<Store>
    requires k + 1 < |l| && 0 <= l[k] < |d| && 0 <= l[k + 1] < |d| && l[k] != l[k + 1]
  {
    Fused(d[l[k] := d[l[k]].(right := d[l[k + 1]].right)], l[k + 1], l[k])
  }

  lemma FuseNextForest(d: seq<Store>, h: int, l: seq<int>, k: nat)
    requires Forest(d, h, l) && k + 1 < |l|
    requires Deg(d, l[k]) == Deg(d, l[k + 1]) && d[l[k]].prio <= d[l[k + 1]].prio
    ensures l[k] != l[k + 1]
    ensures var e, w := FuseNext(d, l, k), Without(l, k + 1);
            && Forest(e, h, w) && SameItems(d, e)
            && Deg(e, l[k]) == Deg(d, l[k]) + 1 && (forall i :: i != l[k] ==> Deg(e, i) == Deg(d, i))
  {
    var x, y := l[k], l[k + 1];
    var d1 := d[x := d[x].(right := d[y].right)];
    var e, w := FuseNext(d, l, k), Without(l, k + 1);
    assert x in l && y in l;
    RelinkRoots(d, d1, l);
    FusedForest(d1, y, x);
    WithoutElements(l, k + 1);
    FuseNextChain(d, h, l, k);
  }

  lemma FuseNextChain(d: seq<Store>, h: int, l: seq<int>, k: nat)
    requires Chain(d, h, l) && NoDup(l) && k + 1 < |l|
    ensures Chain(FuseNext(d, l, k), h, Without(l, k + 1))
  {
    var e, w := FuseNext(d, l, k), Without(l, k + 1);
    forall p | 0 <= p < |w| ensures LinkOk(e, w, p) {
      var q := if p <= k then p else p + 1;
      assert w[p] == l[q] && LinkOk(d, l, q) && LinkOk(d, l, k + 1);
      assert w[p] != l[k + 1];
    }
  }

  /** The root at position `k` is laced under the root after it; the root before `k`,
      if there is one, is linked past it. */
  function FuseThis(d: seq<Store>, l: seq<int>, k: nat): seq<Store>
    requires k + 1 < |l| && 0 <= l[k] < |d| && 0 <= l[k + 1] < |d| && l[k] != l[k + 1]
    requires k > 0 ==> 0 <= l[k - 1] < |d|
  {
    Fused(if k == 0 then d else d[l[k - 1] := d[l[k - 1]].(right := l[k + 1])], l[k], l[k + 1])
  }

  lemma FuseThisForest(d: seq<Store>, h: int, l: seq<int>, k: nat)
    requires Forest(d, h, l) && k + 1 < |l|
    requires Deg(d, l[k]) == Deg(d, l[k + 1]) && d[l[k + 1]].prio < d[l[k]].prio
    ensures l[k] != l[k + 1]
    ensures var e, w := FuseThis(d, l, k), Without(l, k);
            && Forest(e, w[0], w) && SameItems(d, e)
            && Deg(e, l[k + 1]) == Deg(d, l[k + 1]) + 1 && (forall i :: i != l[k + 1] ==> Deg(e, i) == Deg(d, i))
  {
    var x, y := l[k], l[k + 1];
    var d1 := if k == 0 then d else d[l[k - 1] := d[l[k - 1]].(right := y)];
    var e, w := FuseThis(d, l, k), Without(l, k);
    assert x in l && y in l;
    assert k > 0 ==> l[k - 1] in l;
    RelinkRoots(d, d1, l);
    FusedForest(d1, x, y);
    WithoutElements(l, k);
    FuseThisChain(d, h, l, k);
  }

  lemma FuseThisChain(d: seq<Store>, h: int, l: seq<int>, k: nat)
    requires Chain(d, h, l) && NoDup(l) && k + 1 < |l|
    ensures Chain(FuseThis(d, l, k), Without(l, k)[0], Without(l, k))
  {
    var e, w := FuseThis(d, l, k), Without(l, k);
    forall p | 0 <= p < |w| ensures LinkOk(e, w, p) {
      var q := if p < k then p else p + 1;
      assert w[p] == l[q] && LinkOk(d, l, q);
      assert w[p] != l[k];
      assert k > 0 && q != k - 1 ==> w[p] != l[k - 1];
    }
  }

  /** What the consolidation loop knows when it stands at position `k` of the root list:
      everything before is strictly increasing, at most three roots of one degree meet
      here, and a tie with the root before is about to be resolved. */
  ghost predicate Cursor(d: seq<Store>, l: seq<int>, k: int) {
    && 0 <= k < |l|
    && NonDecreasing(d, l)
    && Increasing(d, l[..k])
    && AtMostTwoFrom(d, l, k + 1)
    && (k > 0 && Deg(d, l[k - 1]) == Deg(d, l[k]) ==>
          && k + 1 < |l| && Deg(d, l[k + 1]) == Deg(d, l[k])
          && (k + 2 < |l| ==> Deg(d, l[k]) < Deg(d, l[k + 2])))
  }

  lemma CursorAdvances(d: seq<Store>, l: seq<int>, k: int)
    requires Cursor(d, l, k) && k + 1 < |l|
    requires Deg(d, l[k]) != Deg(d, l[k + 1])
             || (k + 2 < |l| && Deg(d, l[k + 2]) == Deg(d, l[k]))
    ensures Cursor(d, l, k + 1)
  {
    if k > 0 {
      assert Deg(d, l[k - 1]) < Deg(d, l[k]);
    }
    forall i, j | 0 <= i < j < k + 1 ensures Deg(d, l[i]) < Deg(d, l[j]) {
      if j < k {
        assert l[..k][i] == l[i] && l[..k][j] == l[j];
      } else if i < k - 1 {
        assert l[..k][i] == l[i] && l[..k][k - 1] == l[k - 1];
      }
    }
    if k + 3 < |l| {
      assert Deg(d, l[k + 1]) < Deg(d, l[k + 3]);
    }
  }

  /** The pair at `k`, `k + 1` of equal degree became one root of the next degree. */
  ghost predicate Collapsed(d: seq<Store>, l: seq<int>, e: seq<Store>, w: seq<int>, k: nat) {
    && k + 1 < |l| && |w| == |l| - 1
    && (forall p :: 0 <= p < k ==> Deg(e, w[p]) == Deg(d, l[p]))
    && Deg(e, w[k]) == Deg(d, l[k]) + 1
    && (forall p :: k < p < |w| ==> Deg(e, w[p]) == Deg(d, l[p + 1]))
  }

  lemma FuseCollapses(d: seq<Store>, e: seq<Store>, l: seq<int>, w: seq<int>, k: nat, r: int)
    requires k + 1 < |l| && NoDup(l) && Deg(d, l[k]) == Deg(d, l[k + 1])
    requires w == l[..k] + [r] + l[k + 2..] && r in [l[k], l[k + 1]]
    requires Deg(e, r) == Deg(d, r) + 1 && forall i :: i != r ==> Deg(e, i) == Deg(d, i)
    ensures Collapsed(d, l, e, w, k)
  {
    forall p | 0 <= p < k ensures Deg(e, w[p]) == Deg(d, l[p]) {
      assert w[p] == l[p] != r;
    }
    forall p | k < p < |w| ensures Deg(e, w[p]) == Deg(d, l[p + 1]) {
      assert w[p] == l[p + 1] != r;
    }
  }

  lemma CollapsedSorted(d: seq<Store>, l: seq<int>, e: seq<Store>, w: seq<int>, k: nat)
    requires Collapsed(d, l, e, w, k) && NonDecreasing(d, l)
    requires k + 2 < |l| ==> Deg(d, l[k]) < Deg(d, l[k + 2])
    ensures NonDecreasing(e, w)
  {
    forall i, j | 0 <= i < j < |w| ensures Deg(e, w[i]) <= Deg(e, w[j]) {
      if i == k { assert Deg(d, l[k + 2]) <= Deg(d, l[j + 1]); }
    }
  }

  lemma CollapsedTwo(d: seq<Store>, l: seq<int>, e: seq<Store>, w: seq<int>, k: nat)
    requires Collapsed(d, l, e, w, k) && AtMostTwoFrom(d, l, k + 1)
    ensures AtMostTwoFrom(e, w, k + 1)
  {
  }

  lemma CollapsedIncreasing(d: seq<Store>, l: seq<int>, e: seq<Store>, w: seq<int>, k: nat)
    requires Collapsed(d, l, e, w, k) && Increasing(d, l[..k])
    ensures Increasing(e, w[..k])
  {
    forall i, j | 0 <= i < j < k ensures Deg(e, w[..k][i]) < Deg(e, w[..k][j]) {
      assert l[..k][i] == l[i] && l[..k][j] == l[j];
    }
  }

  /** After the pair at `k`, `k + 1` has been fused into one root `r` at position `k`. */
  lemma CursorAfterFuse(d: seq<Store>, e: seq<Store>, l: seq<int>, w: seq<int>, k: int, r: int)
    requires Cursor(d, l, k) && k + 1 < |l| && NoDup(l)
    requires Deg(d, l[k]) == Deg(d, l[k + 1]) && !(k + 2 < |l| && Deg(d, l[k + 2]) == Deg(d, l[k]))
    requires w == l[..k] + [r] + l[k + 2..] && r in [l[k], l[k + 1]]
    requires Deg(e, r) == Deg(d, r) + 1 && forall i :: i != r ==> Deg(e, i) == Deg(d, i)
    ensures Cursor(e, w, k)
  {
    hide Increasing, AtMostTwoFrom, NoDup;
    FuseCollapses(d, e, l, w, k, r);
    CollapsedSorted(d, l, e, w, k);
    CollapsedTwo(d, l, e, w, k);
    CollapsedIncreasing(d, l, e, w, k);
  }

  lemma CursorAtEnd(d: seq<Store>, l: seq<int>, k: int)
    requires Cursor(d, l, k) && k + 1 == |l|
    ensures Increasing(d, l)
  {
    forall i, j | 0 <= i < j < |l| ensures Deg(d, l[i]) < Deg(d, l[j]) {
      if j < k {
        assert l[..k][i] == l[i] && l[..k][j] == l[j];
      } else {
        assert Deg(d, l[k - 1]) < Deg(d, l[k]);
        assert l[..k][k - 1] == l[k - 1];
        if i < k - 1 { assert l[..k][i] == l[i]; }
      }
    }
  }

  /** What the consolidation loop keeps, relative to the list `l0` in `d0` it started from: no
      root is lost, no item moves, no node is lost (`Weight`), and the leftmost least root
      stays the leftmost least root. */
  ghost predicate Kept(d0: seq<Store>, l0: seq<int>, d: seq<Store>, h: int, l: seq<int>) {
    && Forest(d, h, l)
    && SameItems(d0, d)
    && Weight(d, l) == Weight(d0, l0)
    && (forall s :: Leads(d0, l0, s) ==> Leads(d, l, s))
  }

  lemma KeptParts(d0: seq<Store>, l0: seq<int>, d: seq<Store>, h: int, l: seq<int>)
    requires Kept(d0, l0, d, h, l)
    ensures Forest(d, h, l) && SameItems(d0, d) && Weight(d, l) == Weight(d0, l0)
    ensures forall s :: Leads(d0, l0, s) ==> Leads(d, l, s)
  {
  }

  /** How far it has come when it stands at position `k`; one root in front of an increasing
      list is fused with just the carry chain. */
  ghost predicate Reached(d0: seq<Store>, l0: seq<int>, d: seq<Store>, l: seq<int>, k: int) {
    Cursor(d, l, k) && Carrying(d0, l0, d, l, k)
  }

  lemma ConsolidateStart(d: seq<Store>, h: int, l: seq<int>)
    requires Forest(d, h, l) && l != [] && NonDecreasing(d, l) && AtMostTwoFrom(d, l, 0)
    ensures Kept(d, l, d, h, l) && Reached(d, l, d, l, 0) && AtCursor(d, l, 0) && h == l[0]
  {
    RootsAtCursor(d, h, l, 0);
    CarryStart(d, l);
  }

  /** At the last root, what the cursor knows holds of the whole list. */
  lemma ConsolidateEnd(d0: seq<Store>, l0: seq<int>, d: seq<Store>, l: seq<int>, k: int)
    requires Reached(d0, l0, d, l, k) && k + 1 == |l|
    ensures Increasing(d, l) && (OneAndIncreasing(d0, l0) ==> l == Carried(d0, l0))
  {
    hide OneAndIncreasing, Carried;
    CarryEnd(d0, l0, d, l, k);
    CursorAtEnd(d, l, k);
  }

  /** What the loop reads: the roots from position `k` on and their links. */
  ghost predicate AtCursor(d: seq<Store>, l: seq<int>, k: int) {
    && 0 <= k < |l|
    && 0 <= l[k] < |d| && LinkOk(d, l, k)
    && (k > 0 ==> 0 <= l[k - 1] < |d| && l[k - 1] != -1)
    && (k + 1 < |l| ==> 0 <= l[k + 1] < |d| && LinkOk(d, l, k + 1) && l[k] != l[k + 1])
    && (k + 2 < |l| ==> 0 <= l[k + 2] < |d|)
  }

  lemma RootsAtCursor(d: seq<Store>, h: int, l: seq<int>, k: int)
    requires Forest(d, h, l) && 0 <= k < |l|
    ensures AtCursor(d, l, k)
  {
    assert LinkOk(d, l, k);
    if k + 1 < |l| { assert LinkOk(d, l, k + 1); }
  }

  lemma ConsolidateSkip(d0: seq<Store>, l0: seq<int>, d: seq<Store>, h: int, l: seq<int>, k: int)
    requires Kept(d0, l0, d, h, l) && Reached(d0, l0, d, l, k) && k + 1 < |l|
    requires Deg(d, l[k]) != Deg(d, l[k + 1]) || (k + 2 < |l| && Deg(d, l[k + 2]) == Deg(d, l[k]))
    ensures Kept(d0, l0, d, h, l) && Reached(d0, l0, d, l, k + 1) && AtCursor(d, l, k + 1)
  {
    CursorAdvances(d, l, k);
    RootsAtCursor(d, h, l, k + 1);
    CarrySkip(d0, l0, d, l, k);
  }

  /** The weight of the list after the root at `k` or `k + 1` was laced under the other. */
  lemma FusedWeight(d: seq<Store>, e: seq<Store>, l: seq<int>, k: nat, gone: nat, r: int)
    requires k + 1 < |l| && NoDup(l) && gone in {k, k + 1} && r == l[2 * k + 1 - gone]
    requires Deg(d, l[k]) == Deg(d, l[k + 1]) >= 0
    requires Deg(e, r) == Deg(d, r) + 1 && forall i :: i != r ==> Deg(e, i) == Deg(d, i)
    ensures Weight(e, Without(l, gone)) == Weight(d, l)
  {
    var w := Without(l, gone);
    assert w[k] == r;
    HeadNotInTail(l, gone);
    HeadNotInTail(w, k);
    WithoutWeight(d, l, gone);
    WithoutWeight(d, w, k);
    WithoutWeight(e, w, k);
    WeightSame(d, e, Without(w, k));
  }

  lemma FusedLeads(d: seq<Store>, e: seq<Store>, l: seq<int>, gone: nat, s: int)
    requires gone < |l| && SameItems(d, e) && NoDup(l) && Leads(d, l, s)
    requires (gone > 0 && d[l[gone - 1]].prio <= d[l[gone]].prio)
             || (gone + 1 < |l| && d[l[gone + 1]].prio < d[l[gone]].prio)
    ensures Leads(e, Without(l, gone), s)
  {
    var m :| IsLeader(d, l, m) && l[m] == s;
    assert l[gone] != s;
    WithoutLeads(d, e, l, gone, s);
  }

  lemma ConsolidateNext(d0: seq<Store>, l0: seq<int>, d: seq<Store>, h: int, l: seq<int>, k: int)
    requires Kept(d0, l0, d, h, l) && Reached(d0, l0, d, l, k) && AtCursor(d, l, k) && k + 1 < |l|
    requires Deg(d, l[k]) == Deg(d, l[k + 1]) && !(k + 2 < |l| && Deg(d, l[k + 2]) == Deg(d, l[k]))
    requires d[l[k]].prio <= d[l[k + 1]].prio
    ensures var e, w := FuseNext(d, l, k), Without(l, k + 1);
            && Kept(d0, l0, e, h, w) && Reached(d0, l0, e, w, k) && AtCursor(e, w, k)
            && w[k] == l[k] && (k > 0 ==> w[k - 1] == l[k - 1])
  {
    hide Weight, Leads, Cursor, Links, Ordered, Chain, Carrying, OneAndIncreasing;
    var e, w := FuseNext(d, l, k), Without(l, k + 1);
    FuseNextForest(d, h, l, k);
    hide FuseNext;
    assert w == l[..k] + [l[k]] + l[k + 2..];
    CursorAfterFuse(d, e, l, w, k, l[k]);
    RootDegree(d, h, l, k);
    FusedWeight(d, e, l, k, k + 1, l[k]);
    forall s | Leads(d, l, s) ensures Leads(e, w, s) {
      FusedLeads(d, e, l, k + 1, s);
    }
    RootsInRange(d, h, l);
    CarryFuse(d0, l0, d, e, l, k, l[k]);
    RootsAtCursor(e, h, w, k);
  }

  lemma ForestHead(d: seq<Store>, h: int, l: seq<int>)
    requires Forest(d, h, l) && l != []
    ensures h == l[0]
  {
  }

  lemma RootsInRange(d: seq<Store>, h: int, l: seq<int>)
    requires Forest(d, h, l)
    ensures forall k :: 0 <= k < |l| ==> 0 <= l[k] < |d|
  {
  }

  lemma RootDegree(d: seq<Store>, h: int, l: seq<int>, k: int)
    requires Forest(d, h, l) && 0 <= k < |l|
    ensures Deg(d, l[k]) >= 0
  {
    assert l[k] in l && NodeOk(d, l[k]);
  }

  lemma ConsolidateThis(d0: seq<Store>, l0: seq<int>, d: seq<Store>, h: int, l: seq<int>, k: int)
    requires Kept(d0, l0, d, h, l) && Reached(d0, l0, d, l, k) && AtCursor(d, l, k) && k + 1 < |l|
    requires Deg(d, l[k]) == Deg(d, l[k + 1]) && !(k + 2 < |l| && Deg(d, l[k + 2]) == Deg(d, l[k]))
    requires d[l[k + 1]].prio < d[l[k]].prio
    ensures var e, w := FuseThis(d, l, k), Without(l, k);
            && Kept(d0, l0, e, if k == 0 then l[1] else h, w) && Reached(d0, l0, e, w, k) && AtCursor(e, w, k)
            && w[k] == l[k + 1] && (k > 0 ==> w[k - 1] == l[k - 1])
  {
    hide Weight, Leads, Cursor, Links, Ordered, Chain, Carrying, OneAndIncreasing;
    var e, w := FuseThis(d, l, k), Without(l, k);
    ForestHead(d, h, l);
    FuseThisForest(d, h, l, k);
    hide FuseThis;
    assert w[0] == if k == 0 then l[1] else h;
    assert w == l[..k] + [l[k + 1]] + l[k + 2..];
    CursorAfterFuse(d, e, l, w, k, l[k + 1]);
    RootDegree(d, h, l, k);
    FusedWeight(d, e, l, k, k, l[k + 1]);
    forall s | Leads(d, l, s) ensures Leads(e, w, s) {
      FusedLeads(d, e, l, k, s);
    }
    RootsInRange(d, h, l);
    CarryFuse(d0, l0, d, e, l, k, l[k + 1]);
    RootsAtCursor(e, w[0], w, k);
  }

  // ---------- interleaving ----------

  /** The two lists merged by degree; of two equal degrees the one from `q` comes first. */
  ghost function Interleaving(d: seq<Store>, p: seq<int>, q: seq<int>): (l: seq<int>)
    ensures |l| == |p| + |q|
    decreases |p| + |q|
  {
    if q == [] || (p != [] && Deg(d, p[0]) < Deg(d, q[0])) then
      if p == [] then [] else [p[0]] + Interleaving(d, p[1..], q)
    else
      [q[0]] + Interleaving(d, p, q[1..])
  }

  lemma {:induction false} InterleavingElements(d: seq<Store>, p: seq<int>, q: seq<int>, i: int)
    ensures i in Interleaving(d, p, q) <==> i in p || i in q
    decreases |p| + |q|
  {
    if q == [] || (p != [] && Deg(d, p[0]) < Deg(d, q[0])) {
      if p != [] {
        InterleavingElements(d, p[1..], q, i);
        assert p == [p[0]] + p[1..];
      }
    } else {
      InterleavingElements(d, p, q[1..], i);
      assert q == [q[0]] + q[1..];
    }
  }

  lemma {:induction false} InterleavingWeight(d: seq<Store>, p: seq<int>, q: seq<int>)
    ensures Weight(d, Interleaving(d, p, q)) == Weight(d, p) + Weight(d, q)
    decreases |p| + |q|
  {
    var l := Interleaving(d, p, q);
    if q == [] || (p != [] && Deg(d, p[0]) < Deg(d, q[0])) {
      if p != [] {
        InterleavingWeight(d, p[1..], q);
        assert l[1..] == Interleaving(d, p[1..], q);
      }
    } else {
      InterleavingWeight(d, p, q[1..]);
      assert l[1..] == Interleaving(d, p, q[1..]);
    }
  }

  lemma HeadNotInTail(l: seq<int>, k: nat)
    requires k < |l| && NoDup(l)
    ensures l[k] !in Without(l, k) && NoDup(Without(l, k))
  {
    WithoutElements(l, k);
  }

  lemma {:induction false} InterleavingNoDup(d: seq<Store>, p: seq<int>, q: seq<int>)
    requires NoDup(p + q)
    ensures NoDup(Interleaving(d, p, q))
    decreases |p| + |q|
  {
    if q == [] || (p != [] && Deg(d, p[0]) < Deg(d, q[0])) {
      if p != [] {
        HeadNotInTail(p + q, 0);
        assert Without(p + q, 0) == p[1..] + q;
        InterleavingElements(d, p[1..], q, p[0]);
        InterleavingNoDup(d, p[1..], q);
      }
    } else {
      HeadNotInTail(p + q, |p|);
      assert Without(p + q, |p|) == p + q[1..];
      InterleavingElements(d, p, q[1..], q[0]);
      InterleavingNoDup(d, p, q[1..]);
    }
  }

  ghost predicate AtLeast(d: seq<Store>, l: seq<int>, b: int) {
    forall k :: 0 <= k < |l| ==> b <= Deg(d, l[k])
  }

  lemma TailIncreasing(d: seq<Store>, l: seq<int>)
    requires Increasing(d, l) && l != []
    ensures Increasing(d, l[1..]) && AtLeast(d, l[1..], Deg(d, l[0]) + 1)
  {
  }

  lemma {:induction false} InterleavingAtLeast(d: seq<Store>, p: seq<int>, q: seq<int>, b: int)
    requires AtLeast(d, p, b) && AtLeast(d, q, b)
    ensures AtLeast(d, Interleaving(d, p, q), b)
    decreases |p| + |q|
  {
    if q == [] || (p != [] && Deg(d, p[0]) < Deg(d, q[0])) {
      if p != [] {
        InterleavingAtLeast(d, p[1..], q, b);
      }
    } else {
      InterleavingAtLeast(d, p, q[1..], b);
    }
  }

  /** Interleaving two strictly increasing lists: sorted, at most two of each degree. */
  lemma {:induction false} InterleavingSorted(d: seq<Store>, p: seq<int>, q: seq<int>)
    requires Increasing(d, p) && Increasing(d, q)
    ensures NonDecreasing(d, Interleaving(d, p, q)) && AtMostTwoFrom(d, Interleaving(d, p, q), 0)
    decreases |p| + |q|
  {
    var l := Interleaving(d, p, q);
    if q == [] || (p != [] && Deg(d, p[0]) < Deg(d, q[0])) {
      if p != [] {
        TailIncreasing(d, p);
        InterleavingSorted(d, p[1..], q);
        InterleavingAtLeast(d, p[1..], q, Deg(d, p[0]) + 1);
        PrependSorted(d, p[0], l[1..]);
      }
    } else {
      TailIncreasing(d, q);
      InterleavingSorted(d, p, q[1..]);
      InterleavingAtLeast(d, p, q[1..], Deg(d, q[0]));
      if p != [] && Deg(d, p[0]) == Deg(d, q[0]) {
        TailIncreasing(d, p);
        InterleavingAtLeast(d, p[1..], q[1..], Deg(d, q[0]) + 1);
        var t := l[1..];
        assert t == [p[0]] + Interleaving(d, p[1..], q[1..]);
        assert forall j :: 1 <= j < |t| ==> Deg(d, q[0]) < Deg(d, t[j]);
      } else {
        InterleavingAtLeast(d, p, q[1..], Deg(d, q[0]) + 1);
      }
      PrependSorted(d, q[0], l[1..]);
    }
  }

  lemma PrependSorted(d: seq<Store>, x: int, t: seq<int>)
    requires NonDecreasing(d, t) && AtMostTwoFrom(d, t, 0)
    requires AtLeast(d, t, Deg(d, x)) && forall j :: 1 <= j < |t| ==> Deg(d, x) < Deg(d, t[j])
    ensures NonDecreasing(d, [x] + t) && AtMostTwoFrom(d, [x] + t, 0)
  {
  }

  /** While interleaving: `out` has been placed, `ps` and `qs` are what is left. */
  ghost predicate Pending(d: seq<Store>, out: seq<int>, ps: seq<int>, qs: seq<int>, l: seq<int>) {
    && NoDup(ps + qs)
    && (forall j :: 0 <= j < |out| ==> out[j] !in ps + qs)
    && l == out + Interleaving(d, ps, qs)
  }

  lemma LeftFirst(d: seq<Store>, ps: seq<int>, qs: seq<int>)
    requires ps != [] && (qs == [] || Deg(d, ps[0]) < Deg(d, qs[0]))
    ensures Interleaving(d, ps, qs) == [ps[0]] + Interleaving(d, ps[1..], qs)
  {
  }

  lemma RightFirst(d: seq<Store>, ps: seq<int>, qs: seq<int>)
    requires qs != [] && (ps == [] || Deg(d, ps[0]) >= Deg(d, qs[0]))
    ensures Interleaving(d, ps, qs) == [qs[0]] + Interleaving(d, ps, qs[1..])
  {
  }

  /** The placed entries stay clear of what is left when entry `k` of the rest is placed. */
  lemma PlaceNext(out: seq<int>, rest: seq<int>, k: nat)
    requires NoDup(rest) && k < |rest| && forall j :: 0 <= j < |out| ==> out[j] !in rest
    ensures rest[k] !in out && NoDup(Without(rest, k))
    ensures forall j :: 0 <= j < |out + [rest[k]]| ==> (out + [rest[k]])[j] !in Without(rest, k)
  {
    WithoutElements(rest, k);
    hide NoDup, Without;
    assert rest[k] in rest;
  }

  lemma PlaceLeft(out: seq<int>, ps: seq<int>, qs: seq<int>)
    requires NoDup(ps + qs) && ps != [] && forall j :: 0 <= j < |out| ==> out[j] !in ps + qs
    ensures ps[0] !in out && NoDup(ps[1..] + qs)
    ensures forall j :: 0 <= j < |out + [ps[0]]| ==> (out + [ps[0]])[j] !in ps[1..] + qs
  {
    PlaceNext(out, ps + qs, 0);
    assert Without(ps + qs, 0) == ps[1..] + qs && (ps + qs)[0] == ps[0];
    hide NoDup, Without;
  }

  lemma PlaceRight(out: seq<int>, ps: seq<int>, qs: seq<int>)
    requires NoDup(ps + qs) && qs != [] && forall j :: 0 <= j < |out| ==> out[j] !in ps + qs
    ensures qs[0] !in out && NoDup(ps + qs[1..])
    ensures forall j :: 0 <= j < |out + [qs[0]]| ==> (out + [qs[0]])[j] !in ps + qs[1..]
  {
    PlaceNext(out, ps + qs, |ps|);
    assert Without(ps + qs, |ps|) == ps + qs[1..] && (ps + qs)[|ps|] == qs[0];
    hide NoDup, Without;
  }

  lemma PendingLeft(d: seq<Store>, out: seq<int>, ps: seq<int>, qs: seq<int>, l: seq<int>)
    requires Pending(d, out, ps, qs, l) && ps != []
    requires qs == [] || Deg(d, ps[0]) < Deg(d, qs[0])
    ensures ps[0] !in out && Pending(d, out + [ps[0]], ps[1..], qs, l)
  {
    LeftFirst(d, ps, qs);
    hide Interleaving, NoDup;
    PlaceLeft(out, ps, qs);
    var r := Interleaving(d, ps[1..], qs);
    assert out + ([ps[0]] + r) == (out + [ps[0]]) + r;
  }

  lemma PendingRight(d: seq<Store>, out: seq<int>, ps: seq<int>, qs: seq<int>, l: seq<int>)
    requires Pending(d, out, ps, qs, l) && qs != []
    requires ps == [] || Deg(d, ps[0]) >= Deg(d, qs[0])
    ensures qs[0] !in out && Pending(d, out + [qs[0]], ps, qs[1..], l)
  {
    RightFirst(d, ps, qs);
    hide Interleaving, NoDup;
    PlaceRight(out, ps, qs);
    var r := Interleaving(d, ps, qs[1..]);
    assert out + ([qs[0]] + r) == (out + [qs[0]]) + r;
  }

  /** While interleaving: `e` is `d` with a dummy record at the end, from which the right
      links lead through the slots of `out`; `curr` is the last record of that list. */
  ghost predicate Laced(d: seq<Store>, e: seq<Store>, out: seq<int>, curr: int) {
    && |e| == |d| + 1
    && NoDup(out)
    && (forall j :: 0 <= j < |out| ==> 0 <= out[j] < |d|)
    && Relinked(d, e[..|d|], out)
    && curr == (if out == [] then |d| else out[|out| - 1])
    && e[|d|].right == (if out == [] then -1 else out[0])
    && (forall j {:trigger LinkOk(e, out, j)} :: 0 <= j < |out| - 1 ==> LinkOk(e, out, j))
  }

  lemma Lace(d: seq<Store>, e: seq<Store>, out: seq<int>, curr: int, x: int)
    requires Laced(d, e, out, curr)
    requires 0 <= x < |d| && x !in out
    ensures var f := e[curr := e[curr].(right := x)];
            Laced(d, f, out + [x], x) && f[x] == d[x]
  {
    var f, w := e[curr := e[curr].(right := x)], out + [x];
    assert e[..|d|][x] == d[x];
    forall i | 0 <= i < |d|
      ensures f[..|d|][i] == d[i].(right := f[..|d|][i].right)
      ensures i !in w ==> f[..|d|][i] == d[i]
    {
      assert e[..|d|][i] == d[i].(right := e[..|d|][i].right);
      if i == curr { assert out[|out| - 1] == i; assert w[|out| - 1] == i; }
      if i !in w {
        assert i != curr;
      }
    }
    forall j | 0 <= j < |w| - 1 ensures LinkOk(f, w, j) {
      if j < |out| - 1 { assert LinkOk(e, out, j); }
    }
  }

  /** The state of the interleaving loop: `p` and `q` start what is left of the lists. */
  ghost predicate Splicing(d: seq<Store>, e: seq<Store>, p: int, q: int, curr: int,
                           out: seq<int>, ps: seq<int>, qs: seq<int>, l: seq<int>) {
    && Laced(d, e, out, curr)
    && Pending(d, out, ps, qs, l)
    && Chain(d, p, ps) && Chain(d, q, qs)
    && 0 <= curr < |e| && (out == [] ==> e[curr].right == -1) && (out != [] ==> e[curr].right in [p, q])
  }

  /** What the loop reads and writes is there. */
  ghost predicate Readable(e: seq<Store>, p: int, q: int, curr: int) {
    (p == -1 || 0 <= p < |e|) && (q == -1 || 0 <= q < |e|) && 0 <= curr < |e|
  }

  lemma SpliceStart(d: seq<Store>, p: int, q: int, ps: seq<int>, qs: seq<int>, dummy: Store)
    requires Chain(d, p, ps) && Chain(d, q, qs) && NoDup(ps + qs) && dummy.right == -1
    ensures Splicing(d, d + [dummy], p, q, |d|, [], ps, qs, Interleaving(d, ps, qs))
    ensures Readable(d + [dummy], p, q, |d|)
  {
    assert (d + [dummy])[..|d|] == d;
  }

  /** At the end of both lists the dummy is dropped. */
  lemma SpliceEnd(d: seq<Store>, e: seq<Store>, curr: int, out: seq<int>, ps: seq<int>, qs: seq<int>, l: seq<int>)
    requires Splicing(d, e, -1, -1, curr, out, ps, qs, l)
    ensures |e| == |d| + 1 && out == l
    ensures Chain(e[..|d|], e[|d|].right, l) && Relinked(d, e[..|d|], l)
  {
    assert ps == qs == [] && out == l;
    forall j | 0 <= j < |out| ensures LinkOk(e[..|d|], out, j) {
      if j < |out| - 1 { assert LinkOk(e, out, j); }
    }
  }

  lemma SpliceLeft(d: seq<Store>, e: seq<Store>, p: int, q: int, curr: int,
                   out: seq<int>, ps: seq<int>, qs: seq<int>, l: seq<int>)
    requires Splicing(d, e, p, q, curr, out, ps, qs, l) && p != -1
    requires q == -1 || Deg(e, p) < Deg(e, q)
    ensures ps != [] && Readable(e, p, q, curr)
    ensures var f := e[curr := e[curr].(right := p)];
            Splicing(d, f, f[p].right, q, p, out + [p], ps[1..], qs, l) && Readable(f, f[p].right, q, p)
  {
    var f := e[curr := e[curr].(right := p)];
    ChainTail(d, p, ps);
    SameOutside(d, e, out, curr, p);
    SameOutside(d, e, out, curr, q);
    PendingLeft(d, out, ps, qs, l);
    Lace(d, e, out, curr, p);
  }

  lemma SpliceRight(d: seq<Store>, e: seq<Store>, p: int, q: int, curr: int,
                    out: seq<int>, ps: seq<int>, qs: seq<int>, l: seq<int>)
    requires Splicing(d, e, p, q, curr, out, ps, qs, l) && q != -1
    requires p == -1 || Deg(e, p) >= Deg(e, q)
    ensures qs != [] && Readable(e, p, q, curr)
    ensures var f := e[curr := e[curr].(right := q)];
            Splicing(d, f, p, f[q].right, q, out + [q], ps, qs[1..], l) && Readable(f, p, f[q].right, q)
  {
    ChainTail(d, q, qs);
    SameOutside(d, e, out, curr, p);
    SameOutside(d, e, out, curr, q);
    PendingRight(d, out, ps, qs, l);
    Lace(d, e, out, curr, q);
  }

  lemma SameOutside(d: seq<Store>, e: seq<Store>, out: seq<int>, curr: int, i: int)
    requires Laced(d, e, out, curr)
    ensures 0 <= i < |d| ==> e[i].degree == d[i].degree && (i !in out ==> e[i] == d[i])
  {
    if 0 <= i < |d| { assert e[..|d|][i] == e[i]; }
  }

  // ---------- merge ----------

  lemma SameDegrees(d: seq<Store>, e: seq<Store>, l: seq<int>)
    requires forall i :: Deg(e, i) == Deg(d, i)
    ensures NonDecreasing(d, l) ==> NonDecreasing(e, l)
    ensures AtMostTwoFrom(d, l, 0) ==> AtMostTwoFrom(e, l, 0)
    ensures Weight(e, l) == Weight(d, l)
  {
    WeightSame(d, e, l);
  }

  lemma SameLeads(d: seq<Store>, e: seq<Store>, l: seq<int>, s: int)
    requires SameItems(d, e) && Leads(d, l, s)
    ensures Leads(e, l, s)
  {
    var k :| IsLeader(d, l, k) && l[k] == s;
    assert IsLeader(e, l, k);
  }

  /** The interleaved list has exactly the roots of both lists. */
  lemma InterleavingRoots(d: seq<Store>, p: seq<int>, q: seq<int>)
    requires ListsRoots(d, p + q)
    ensures ListsRoots(d, Interleaving(d, p, q))
  {
    var l := Interleaving(d, p, q);
    InterleavingNoDup(d, p, q);
    forall i ensures i in l <==> i in p + q {
      InterleavingElements(d, p, q, i);
    }
  }

  /** Two root lists that together hold all roots, spliced into one. */
  lemma SplicedForest(d: seq<Store>, p: seq<int>, q: seq<int>, e: seq<Store>, h: int)
    requires Links(d) && Ordered(d) && ListsRoots(d, p + q)
    requires Increasing(d, p) && Increasing(d, q)
    requires var l := Interleaving(d, p, q); Relinked(d, e, l) && Chain(e, h, l)
    ensures var l := Interleaving(d, p, q);
            && Forest(e, h, l) && NonDecreasing(e, l) && AtMostTwoFrom(e, l, 0)
            && SameItems(d, e)
            && Weight(e, l) == Weight(d, p) + Weight(d, q)
            && (forall s :: Leads(d, l, s) ==> Leads(e, l, s))
            && (OneAndIncreasing(d, l) ==> OneAndIncreasing(e, l) && Carried(e, l) == Carried(d, l))
  {
    hide Links, Ordered, Increasing, Relinked, Chain, NonDecreasing, AtMostTwoFrom, SameItems, Weight, Leads, NoDup;
    hide Carried;
    var l := Interleaving(d, p, q);
    InterleavingRoots(d, p, q);
    InterleavingSorted(d, p, q);
    InterleavingWeight(d, p, q);
    hide Interleaving;
    RelinkRoots(d, e, l);
    SameDegrees(d, e, l);
    if OneAndIncreasing(d, l) { SameCarried(d, e, l); }
    forall s | Leads(d, l, s) ensures Leads(e, l, s) {
      SameLeads(d, e, l, s);
    }
  }

  /** A single root of no larger degree than the others goes to the front. */
  lemma InterleavingSingle(d: seq<Store>, p: seq<int>, a: int)
    requires p != [] && Deg(d, a) <= Deg(d, p[0])
    ensures Interleaving(d, p, [a]) == [a] + p
  {
    InterleavingNil(d, p);
  }

  lemma {:induction false} InterleavingNil(d: seq<Store>, p: seq<int>)
    ensures Interleaving(d, p, []) == p
  {
    if p != [] { InterleavingNil(d, p[1..]); }
  }

  lemma ChainPrepend(d: seq<Store>, h: int, l: seq<int>, a: int)
    requires Chain(d, h, l) && 0 <= a < |d| && a !in l
    ensures var e := d[a := d[a].(right := h)]; Chain(e, a, [a] + l) && Relinked(d, e, [a] + l)
  {
    var e, w := d[a := d[a].(right := h)], [a] + l;
    forall k | 0 <= k < |w| ensures LinkOk(e, w, k) {
      if k > 0 { assert w[k] == l[k - 1] && LinkOk(d, l, k - 1); }
    }
  }

  /** Linking the root before position `k` past it. */
  lemma ChainWithout(d: seq<Store>, h: int, l: seq<int>, k: nat)
    requires Chain(d, h, l) && NoDup(l) && 0 < k < |l|
    ensures var e := d[l[k - 1] := d[l[k - 1]].(right := d[l[k]].right)];
            Chain(e, h, Without(l, k)) && Relinked(d, e, Without(l, k))
  {
    var e, w := d[l[k - 1] := d[l[k - 1]].(right := d[l[k]].right)], Without(l, k);
    assert LinkOk(d, l, k);
    forall p | 0 <= p < |w| ensures LinkOk(e, w, p) {
      var q := if p < k then p else p + 1;
      assert w[p] == l[q] && LinkOk(d, l, q);
      assert q != k - 1 ==> w[p] != l[k - 1];
    }
    assert w[k - 1] == l[k - 1];
  }
}
