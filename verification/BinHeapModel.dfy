/** The array of deps/lemon/lemon/bin_heap.h as a value: heap order with a hole, exact cross
    references, and what one move of `bubbleUp` or `bubbleDown` keeps. */
module BinHeapModel {

  import opened HeapSpec

  datatype Pair = Pair(item: Item, prio: int)

  /** `(i - 1) / 2` with division towards zero. */
  function Parent(i: nat): nat {
    if i == 0 then 0 else (i - 1) / 2
  }

  ghost predicate EdgeOk(s: seq<Pair>, k: nat) {
    0 < k < |s| ==> s[Parent(k)].prio <= s[k].prio
  }

  ghost predicate Ordered(s: seq<Pair>) {
    forall k: nat {:trigger EdgeOk(s, k)} :: EdgeOk(s, k)
  }

  /** In order apart from the edges at slot `h`; the children of `h` fit below its parent. */
  ghost predicate OrderedAround(s: seq<Pair>, h: nat) {
    && (forall k: nat {:trigger EdgeOk(s, k)} :: k != h && Parent(k) != h ==> EdgeOk(s, k))
    && (forall k: nat {:trigger BridgeOk(s, h, k)} :: BridgeOk(s, h, k))
  }

  ghost predicate BridgeOk(s: seq<Pair>, h: nat, k: nat) {
    0 < k < |s| && Parent(k) == h < |s| && h > 0 ==> s[Parent(h)].prio <= s[k].prio
  }

  /** The edges from slot `h` to its children are in order. */
  ghost predicate ChildrenOk(s: seq<Pair>, h: nat) {
    forall k: nat {:trigger EdgeOk(s, k)} :: Parent(k) == h ==> EdgeOk(s, k)
  }

  lemma OrderedAgain(s: seq<Pair>, h: nat)
    requires OrderedAround(s, h) && ChildrenOk(s, h) && EdgeOk(s, h)
    ensures Ordered(s)
  {
    forall k: nat ensures EdgeOk(s, k) {
      assert k != h && Parent(k) != h ==> EdgeOk(s, k);
      assert Parent(k) == h ==> EdgeOk(s, k);
    }
  }

  /** In an ordered array any entry can be overwritten. */
  lemma OrderedAroundUpdate(s: seq<Pair>, h: nat, p: Pair)
    requires Ordered(s) && h < |s|
    ensures OrderedAround(s[h := p], h)
    ensures p.prio >= s[h].prio ==> EdgeOk(s[h := p], h)
    ensures p.prio <= s[h].prio ==> ChildrenOk(s[h := p], h)
  {
    var t := s[h := p];
    assert EdgeOk(s, h);
    forall k: nat
      ensures k != h && Parent(k) != h ==> EdgeOk(t, k)
      ensures BridgeOk(t, h, k)
      ensures p.prio <= s[h].prio && Parent(k) == h ==> EdgeOk(t, k)
    {
      assert EdgeOk(s, k);
    }
  }

  function Swap(s: seq<Pair>, i: nat, j: nat): (t: seq<Pair>)
    requires i < |s| && j < |s|
  {
    s[i := s[j]][j := s[i]]
  }

  /** Moving the hole up past a larger parent. */
  lemma SwapUp(s: seq<Pair>, h: nat)
    requires 0 < h < |s| && OrderedAround(s, h) && s[h].prio < s[Parent(h)].prio
    ensures OrderedAround(Swap(s, h, Parent(h)), Parent(h))
    ensures ChildrenOk(Swap(s, h, Parent(h)), Parent(h))
  {
    var p := Parent(h);
    var t := Swap(s, h, p);
    assert EdgeOk(s, p) by { assert Parent(p) != h; }
    forall k: nat
      ensures k != p && Parent(k) != p ==> EdgeOk(t, k)
      ensures BridgeOk(t, p, k)
      ensures Parent(k) == p ==> EdgeOk(t, k)
    {
      assert k != h && Parent(k) != h ==> EdgeOk(s, k);
      assert BridgeOk(s, h, k);
    }
  }

  /** Moving the hole down past its least child, if that is smaller. */
  lemma SwapDown(s: seq<Pair>, h: nat, c: nat)
    requires h < |s| && OrderedAround(s, h) && EdgeOk(s, h)
    requires c < |s| && LeastChild(s, h, c) && s[c].prio < s[h].prio
    ensures c > h
    ensures OrderedAround(Swap(s, h, c), c) && EdgeOk(Swap(s, h, c), c)
  {
    var t := Swap(s, h, c);
    assert BridgeOk(s, h, c);
    forall k: nat
      ensures k != c && Parent(k) != c ==> EdgeOk(t, k)
      ensures BridgeOk(t, c, k)
    {
      assert k != h && Parent(k) != h ==> EdgeOk(s, k);
    }
  }

  /** The hole is in place when no child is smaller. */
  lemma StopDown(s: seq<Pair>, h: nat, c: nat)
    requires h < |s| && OrderedAround(s, h) && EdgeOk(s, h)
    requires c < |s| ==> s[h].prio <= s[c].prio
    requires LeastChild(s, h, c)
    ensures Ordered(s)
  {
    forall k: nat ensures Parent(k) == h ==> EdgeOk(s, k) {
    }
    OrderedAgain(s, h);
  }

  lemma {:induction false} RootLeast(s: seq<Pair>, k: nat)
    requires Ordered(s) && k < |s|
    ensures s[0].prio <= s[k].prio
  {
    if k > 0 {
      assert EdgeOk(s, k);
      RootLeast(s, Parent(k));
    }
  }

  // ---------- cross references ----------

  /** Every entry is referred to by its item, and no other item has a reference. */
  ghost predicate Indexed(s: seq<Pair>, iim: map<Item, int>) {
    && (forall k {:trigger s[k]} :: 0 <= k < |s| ==> Ref(iim, s[k].item) == k)
    && (forall x {:trigger Ref(iim, x)} :: Ref(iim, x) >= 0 ==> Ref(iim, x) < |s| && s[Ref(iim, x)].item == x)
  }

  /** What `state` reports for an item. */
  function Status(iim: map<Item, int>, x: Item): int {
    if Ref(iim, x) >= 0 then IN_HEAP else Ref(iim, x)
  }

  ghost function Contents(s: seq<Pair>, iim: map<Item, int>): map<Item, int> {
    map x | x in iim.Keys && 0 <= iim[x] < |s| :: s[iim[x]].prio
  }

  lemma ContentsAt(s: seq<Pair>, iim: map<Item, int>, x: Item)
    ensures x in Contents(s, iim) <==> 0 <= Ref(iim, x) < |s|
    ensures x in Contents(s, iim) ==> Contents(s, iim)[x] == s[Ref(iim, x)].prio
  {
  }

  ghost predicate SameRefs(iim: map<Item, int>, jjm: map<Item, int>) {
    forall x {:trigger Ref(jjm, x)} {:trigger Ref(iim, x)} ::
      (Ref(iim, x) >= 0 <==> Ref(jjm, x) >= 0) && (Ref(iim, x) < 0 ==> Ref(jjm, x) == Ref(iim, x))
  }

  /** Swapping two entries together with their references keeps the contents. */
  lemma SwapIndexed(s: seq<Pair>, iim: map<Item, int>, i: nat, j: nat)
    requires i < |s| && j < |s| && i != j && Indexed(s, iim)
    ensures var t, jjm := Swap(s, i, j), iim[s[j].item := i][s[i].item := j];
            Indexed(t, jjm) && Contents(t, jjm) == Contents(s, iim) && SameRefs(iim, jjm)
  {
    var t, jjm := Swap(s, i, j), iim[s[j].item := i][s[i].item := j];
    var a, b := s[i].item, s[j].item;
    assert Ref(iim, a) == i && Ref(iim, b) == j;
    assert forall x :: Ref(jjm, x) == if x == a then j else if x == b then i else Ref(iim, x);
    forall x ensures Ref(jjm, x) >= 0 ==> Ref(jjm, x) < |t| && t[Ref(jjm, x)].item == x {
      assert Ref(iim, x) >= 0 ==> Ref(iim, x) < |s| && s[Ref(iim, x)].item == x;
    }
    var c, c' := Contents(s, iim), Contents(t, jjm);
    forall x ensures (x in c' <==> x in c) && (x in c ==> c'[x] == c[x]) {
      ContentsAt(s, iim, x);
      ContentsAt(t, jjm, x);
    }
    assert c' == c;
  }

  /** `s` with references `m` is a rearrangement of `s0` with `m0`. */
  ghost predicate Rearranged(s0: seq<Pair>, m0: map<Item, int>, s: seq<Pair>, m: map<Item, int>) {
    && |s| == |s0|
    && Indexed(s, m)
    && Contents(s, m) == Contents(s0, m0)
    && SameRefs(m0, m)
  }

  /** One step of either loop: the entry at `j` moves to the hole at `i`. The entry `p` is
      thought of as sitting in the hole although it is written only at the end. */
  lemma MoveStep(s0: seq<Pair>, m0: map<Item, int>, d: seq<Pair>, iim: map<Item, int>, n: nat, p: Pair, i: nat, j: nat)
    requires n <= |d| && i < n && j < n && i != j
    requires Rearranged(s0, m0, d[..n][i := p], iim[p.item := i])
    ensures var e, jjm := d[i := d[j]], iim[d[j].item := i];
            && e[..n][j := p] == Swap(d[..n][i := p], i, j)
            && Rearranged(s0, m0, e[..n][j := p], jjm[p.item := j])
            && e[n..] == d[n..]
  {
    var s, m := d[..n][i := p], iim[p.item := i];
    var e, jjm := d[i := d[j]], iim[d[j].item := i];
    assert e[..n][j := p] == Swap(s, i, j);
    SwapIndexed(s, m, i, j);
    var k := m[s[j].item := i][s[i].item := j];
    assert jjm[p.item := j] == k;
    hide Contents, Indexed;
    forall x ensures (Ref(m0, x) >= 0 <==> Ref(k, x) >= 0) && (Ref(m0, x) < 0 ==> Ref(k, x) == Ref(m0, x)) {
      assert Ref(m, x) >= 0 <==> Ref(k, x) >= 0;
    }
  }

  lemma RearrangedRefl(s: seq<Pair>, m: map<Item, int>)
    requires Indexed(s, m)
    ensures Rearranged(s, m, s, m)
  {
  }

  lemma Children(h: nat, k: nat)
    requires k > 0
    ensures Parent(k) == h <==> k == 2 * h + 1 || k == 2 * h + 2
  {
  }

  /** `c` is a least child of `h`, or past the end if `h` has none. */
  ghost predicate LeastChild(s: seq<Pair>, h: nat, c: nat) {
    && (c < |s| ==> c > 0 && Parent(c) == h)
    && (forall k: nat :: 0 < k < |s| && Parent(k) == h ==> c < |s| && s[c].prio <= s[k].prio)
  }

  lemma TwoChildren(s: seq<Pair>, h: nat)
    requires 2 * h + 2 < |s|
    ensures LeastChild(s, h, if s[2 * h + 1].prio < s[2 * h + 2].prio then 2 * h + 1 else 2 * h + 2)
  {
    var c := if s[2 * h + 1].prio < s[2 * h + 2].prio then 2 * h + 1 else 2 * h + 2;
    Children(h, c);
    forall k: nat | 0 < k < |s| && Parent(k) == h ensures s[c].prio <= s[k].prio { Children(h, k); }
  }

  lemma OneChild(s: seq<Pair>, h: nat)
    requires 2 * h + 2 >= |s|
    ensures LeastChild(s, h, 2 * h + 1)
  {
    Children(h, 2 * h + 1);
    forall k: nat | 0 < k < |s| && Parent(k) == h ensures k == 2 * h + 1 { Children(h, k); }
  }

  // ---------- what the operations start from ----------

  /** Entry `h` is replaced by `p`, which may bring a new item. */
  lemma ReplaceEntry(s: seq<Pair>, iim: map<Item, int>, h: nat, p: Pair)
    requires h < |s| && Indexed(s, iim)
    requires p.item == s[h].item
    ensures Indexed(s[h := p], iim[p.item := h])
    ensures Contents(s[h := p], iim[p.item := h]) == Contents(s, iim)[p.item := p.prio]
    ensures SameRefs(iim, iim[p.item := h])
  {
    assert Ref(iim, p.item) == h;
    var t, jjm := s[h := p], iim[p.item := h];
    forall x
      ensures Ref(jjm, x) == Ref(iim, x) && (Ref(jjm, x) >= 0 ==> Ref(jjm, x) < |t| && t[Ref(jjm, x)].item == x)
    {
      assert Ref(iim, x) >= 0 ==> Ref(iim, x) < |s| && s[Ref(iim, x)].item == x;
    }
    var c, c' := Contents(s, iim)[p.item := p.prio], Contents(t, jjm);
    forall x ensures (x in c' <==> x in c) && (x in c ==> c'[x] == c[x]) {
      ContentsAt(s, iim, x);
      ContentsAt(t, jjm, x);
    }
    assert c' == c;
  }

  /** A new item gets a slot at the end. */
  lemma AppendEntry(s: seq<Pair>, iim: map<Item, int>, p: Pair)
    requires Indexed(s, iim) && Ref(iim, p.item) < 0
    ensures Indexed(s + [p], iim[p.item := |s|])
    ensures Contents(s + [p], iim[p.item := |s|]) == Contents(s, iim)[p.item := p.prio]
    ensures forall x :: x != p.item ==> Ref(iim[p.item := |s|], x) == Ref(iim, x)
  {
    var t, jjm := s + [p], iim[p.item := |s|];
    forall k | 0 <= k < |t| ensures Ref(jjm, t[k].item) == k {
      if k < |s| { assert t[k] == s[k] && Ref(iim, s[k].item) == k; }
    }
    forall x ensures Ref(jjm, x) >= 0 ==> Ref(jjm, x) < |t| && t[Ref(jjm, x)].item == x {
      assert Ref(iim, x) >= 0 ==> Ref(iim, x) < |s| && s[Ref(iim, x)].item == x;
    }
    var c, c' := Contents(s, iim)[p.item := p.prio], Contents(t, jjm);
    forall x ensures (x in c' <==> x in c) && (x in c ==> c'[x] == c[x]) {
      ContentsAt(s, iim, x);
      ContentsAt(t, jjm, x);
    }
    assert c' == c;
  }

  lemma AppendOrdered(s: seq<Pair>, p: Pair)
    requires Ordered(s)
    ensures OrderedAround(s + [p], |s|) && ChildrenOk(s + [p], |s|)
  {
    var t := s + [p];
    forall k: nat
      ensures k != |s| && Parent(k) != |s| ==> EdgeOk(t, k)
      ensures BridgeOk(t, |s|, k)
      ensures Parent(k) == |s| ==> EdgeOk(t, k)
    {
      assert EdgeOk(s, k);
    }
  }

  /** The array and the references after entry `h` was removed by moving the last one there. */
  function WithoutEntry(s: seq<Pair>, h: nat): seq<Pair>
    requires h < |s|
  {
    var n := |s| - 1;
    if h < n then s[..n][h := s[n]] else s[..n]
  }

  function WithoutRef(s: seq<Pair>, iim: map<Item, int>, h: nat, st: int): map<Item, int>
    requires h < |s|
  {
    var n, m := |s| - 1, iim[s[h].item := st];
    if h < n then m[s[n].item := h] else m
  }

  lemma RemoveRefs(s: seq<Pair>, iim: map<Item, int>, h: nat, st: int)
    requires h < |s| && Indexed(s, iim)
    ensures var x, last, m := s[h].item, s[|s| - 1].item, WithoutRef(s, iim, h, st);
            && Ref(iim, x) == h && Ref(iim, last) == |s| - 1
            && forall y {:trigger Ref(m, y)} ::
                 Ref(m, y) == if y == x then st else if y == last then h else Ref(iim, y)
  {
  }

  lemma RemoveIndexed(s: seq<Pair>, iim: map<Item, int>, h: nat, st: int)
    requires h < |s| && Indexed(s, iim) && st < 0
    ensures Indexed(WithoutEntry(s, h), WithoutRef(s, iim, h, st))
  {
    var t, m := WithoutEntry(s, h), WithoutRef(s, iim, h, st);
    RemoveRefs(s, iim, h, st);
    hide WithoutRef;
    forall k | 0 <= k < |t| ensures Ref(m, t[k].item) == k {
      assert Ref(iim, s[k].item) == k;
    }
    forall y ensures Ref(m, y) >= 0 ==> Ref(m, y) < |t| && t[Ref(m, y)].item == y {
      assert Ref(iim, y) >= 0 ==> Ref(iim, y) < |s| && s[Ref(iim, y)].item == y;
    }
  }

  /** The last entry takes the place of entry `h`, whose item leaves the heap. */
  lemma RemoveEntry(s: seq<Pair>, iim: map<Item, int>, h: nat, st: int)
    requires h < |s| && Indexed(s, iim) && st < 0
    ensures var x, t, m := s[h].item, WithoutEntry(s, h), WithoutRef(s, iim, h, st);
            && Indexed(t, m) && Contents(t, m) == Contents(s, iim) - {x}
            && (forall y :: Status(m, y) == if y == x then st else Status(iim, y))
  {
    var x, t, m := s[h].item, WithoutEntry(s, h), WithoutRef(s, iim, h, st);
    RemoveRefs(s, iim, h, st);
    RemoveIndexed(s, iim, h, st);
    var c, c' := Contents(s, iim) - {x}, Contents(t, m);
    forall y ensures (y in c' <==> y in c) && (y in c ==> c'[y] == c[y]) {
      ContentsAt(s, iim, y);
      ContentsAt(t, m, y);
      assert Ref(iim, y) >= 0 ==> Ref(iim, y) < |s| && s[Ref(iim, y)].item == y;
    }
    assert c' == c;
  }

  lemma PrefixOrdered(s: seq<Pair>)
    requires Ordered(s) && s != []
    ensures Ordered(s[..|s| - 1])
  {
    var t := s[..|s| - 1];
    forall k: nat ensures EdgeOk(t, k) { assert EdgeOk(s, k); }
  }

  /** The item at `h` hands its place and priority to `j`, which was outside. */
  lemma RenameEntry(s: seq<Pair>, iim: map<Item, int>, h: nat, j: Item)
    requires h < |s| && Indexed(s, iim) && Ref(iim, j) < 0
    ensures var i := s[h].item;
            var t, m := s[h := s[h].(item := j)], iim[i := Ref(iim, j)][j := h];
            && Indexed(t, m) && Contents(t, m) == (Contents(s, iim) - {i})[j := s[h].prio]
            && Ref(m, i) == Ref(iim, j)
            && (forall y :: y != i && y != j ==> Ref(m, y) == Ref(iim, y))
  {
    var i := s[h].item;
    var t, m := s[h := s[h].(item := j)], iim[i := Ref(iim, j)][j := h];
    assert Ref(iim, i) == h;
    forall y ensures Ref(m, y) == if y == j then h else if y == i then Ref(iim, j) else Ref(iim, y) {
    }
    forall k | 0 <= k < |t| ensures Ref(m, t[k].item) == k {
      assert Ref(iim, s[k].item) == k;
    }
    forall y ensures Ref(m, y) >= 0 ==> Ref(m, y) < |t| && t[Ref(m, y)].item == y {
      assert Ref(iim, y) >= 0 ==> Ref(iim, y) < |s| && s[Ref(iim, y)].item == y;
    }
    var c, c' := (Contents(s, iim) - {i})[j := s[h].prio], Contents(t, m);
    forall y ensures (y in c' <==> y in c) && (y in c ==> c'[y] == c[y]) {
      ContentsAt(s, iim, y);
      ContentsAt(t, m, y);
    }
    assert c' == c;
  }

  lemma RenameOrdered(s: seq<Pair>, h: nat, j: Item)
    requires h < |s| && Ordered(s)
    ensures Ordered(s[h := s[h].(item := j)])
  {
    var t := s[h := s[h].(item := j)];
    forall k: nat ensures EdgeOk(t, k) { assert EdgeOk(s, k); }
  }

  /** Rearranging changes neither what is stored nor what is reported. */
  lemma RearrangedView(s0: seq<Pair>, m0: map<Item, int>, s: seq<Pair>, m: map<Item, int>)
    requires Rearranged(s0, m0, s, m)
    ensures Indexed(s, m) && Contents(s, m) == Contents(s0, m0)
    ensures forall x :: Status(m, x) == Status(m0, x)
  {
    forall x ensures Status(m, x) == Status(m0, x) {
      assert Ref(m0, x) >= 0 <==> Ref(m, x) >= 0;
    }
  }

  lemma InHeap(s: seq<Pair>, iim: map<Item, int>, x: Item)
    requires Indexed(s, iim)
    ensures x in Contents(s, iim) <==> Ref(iim, x) >= 0
    ensures x in Contents(s, iim) ==>
            Ref(iim, x) < |s| && s[Ref(iim, x)].item == x && Contents(s, iim)[x] == s[Ref(iim, x)].prio
  {
    ContentsAt(s, iim, x);
  }

  lemma TopLeast(s: seq<Pair>, iim: map<Item, int>)
    requires Ordered(s) && Indexed(s, iim) && s != []
    ensures s[0].item in Contents(s, iim) && Contents(s, iim)[s[0].item] == s[0].prio
    ensures forall x :: x in Contents(s, iim) ==> s[0].prio <= Contents(s, iim)[x]
  {
    assert Ref(iim, s[0].item) == 0;
    forall x | x in Contents(s, iim) ensures s[0].prio <= Contents(s, iim)[x] {
      RootLeast(s, iim[x]);
    }
  }

  lemma MapRemoveSize(c: map<Item, int>, x: Item)
    requires x in c
    ensures |c - {x}| == |c| - 1
  {
    assert c == (c - {x})[x := c[x]];
  }

  /** The number of stored items. */
  lemma {:induction false} ContentsSize(s: seq<Pair>, iim: map<Item, int>)
    requires Indexed(s, iim)
    ensures |Contents(s, iim)| == |s|
    decreases |s|
  {
    if s == [] {
      assert Contents(s, iim) == map[];
    } else {
      var n := |s| - 1;
      assert Ref(iim, s[n].item) == n;
      InHeap(s, iim, s[n].item);
      RemoveEntry(s, iim, n, PRE_HEAP);
      hide Contents, Indexed;
      ContentsSize(s[..n], iim[s[n].item := PRE_HEAP]);
      MapRemoveSize(Contents(s, iim), s[n].item);
    }
  }

  lemma FirstEdge(s: seq<Pair>)
    ensures EdgeOk(s, 0)
  {
  }

  /** An entry's own reference is up to date. */
  lemma SettledRef(s: seq<Pair>, iim: map<Item, int>, h: nat)
    requires h < |s| && Indexed(s, iim)
    ensures iim[s[h].item := h] == iim
  {
    assert Ref(iim, s[h].item) == h;
  }

  /** An item outside may get any negative reference. */
  lemma ForgetItem(s: seq<Pair>, iim: map<Item, int>, x: Item, st: int)
    requires Indexed(s, iim) && x !in Contents(s, iim) && st < 0
    ensures Indexed(s, iim[x := st]) && Contents(s, iim[x := st]) == Contents(s, iim)
    ensures Ref(iim[x := st], x) == st && forall y :: y != x ==> Ref(iim[x := st], y) == Ref(iim, y)
  {
    var m := iim[x := st];
    InHeap(s, iim, x);
    forall y ensures Ref(m, y) == if y == x then st else Ref(iim, y) {
    }
    forall k | 0 <= k < |s| ensures Ref(m, s[k].item) == k { assert Ref(iim, s[k].item) == k; }
    assert Contents(s, m) == Contents(s, iim);
  }
}
