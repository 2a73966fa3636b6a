/** The items in the forest: the cross reference map, the abstract contents, the global
    minimum, and the name-swapping climb of `decrease` (deps/lemon/lemon/binomial_heap.h). */
module BinomialItems {
  import opened HeapSpec
  import opened BinomialForest
  import opened BinomialMerge
  import opened BinomialCarry
  import opened Sequences

  /** Cross references and slot names agree: every reference leads to a slot of that name
      (also when the item was popped), and every live slot is the one its name refers to. */
  ghost predicate NamesOk(d: seq<Store>, iim: map<Item, int>) {
    && (forall x :: Ref(iim, x) >= 0 ==> Ref(iim, x) < |d| && d[Ref(iim, x)].name == x)
    && (forall i :: Live(d, i) ==> Ref(iim, d[i].name) == i)
  }

  /** The items in the heap with their priorities. */
  ghost function Contents(d: seq<Store>, iim: map<Item, int>): map<Item, int> {
    map x | x in iim.Keys && Live(d, iim[x]) :: d[iim[x]].prio
  }

  /** What `state` reports for an item. */
  function Status(d: seq<Store>, iim: map<Item, int>, x: Item): int {
    var i := Ref(iim, x);
    if 0 <= i < |d| then (if d[i].live then IN_HEAP else POST_HEAP) else i
  }

  ghost predicate SameStatus(d: seq<Store>, iim: map<Item, int>, e: seq<Store>, jjm: map<Item, int>) {
    forall x {:trigger Status(d, iim, x)} {:trigger Status(e, jjm, x)} :: Status(e, jjm, x) == Status(d, iim, x)
  }

  lemma InHeap(d: seq<Store>, iim: map<Item, int>, x: Item)
    requires NamesOk(d, iim)
    ensures Status(d, iim, x) == IN_HEAP <==> x in Contents(d, iim)
  {
    assert Ref(iim, x) >= 0 ==> Ref(iim, x) < |d|;
  }

  // ---------- ties with the minimum ----------

  /** Slot `m` holds an item of least priority; it need not be a root. */
  ghost predicate LeastLive(d: seq<Store>, m: int) {
    Live(d, m) && forall i {:trigger Live(d, i)} :: Live(d, i) ==> d[m].prio <= d[i].prio
  }

  lemma LeastLiveTies(d: seq<Store>, iim: map<Item, int>, m: int)
    requires NamesOk(d, iim) && LeastLive(d, m)
    ensures Live(d, m)
    ensures var c := Contents(d, iim);
            && d[m].name in c && c[d[m].name] == d[m].prio && Least(c, d[m].name)
            && Ties(c, d[m].prio) && (forall v :: Ties(c, v) ==> v == d[m].prio)
  {
    assert Ref(iim, d[m].name) == m;
  }

  lemma LeastLiveRoot(d: seq<Store>, h: int, l: seq<int>, m: int)
    requires Forest(d, h, l) && LeastLive(d, m)
    ensures m in l ==> LeastRoot(d, l, m)
    ensures forall k :: 0 <= k < |l| ==> Live(d, l[k]) && d[m].prio <= d[l[k]].prio
  {
    forall k | 0 <= k < |l| ensures Live(d, l[k]) {
      var r := l[k];
      assert r in l;
    }
  }

  lemma SameItemsSameContents(d: seq<Store>, e: seq<Store>, iim: map<Item, int>)
    requires SameItems(d, e)
    ensures NamesOk(d, iim) <==> NamesOk(e, iim)
    ensures Contents(d, iim) == Contents(e, iim)
    ensures SameStatus(d, iim, e, iim)
  {
    assert forall i :: Live(d, i) <==> Live(e, i);
  }

  // ---------- depth and roots ----------

  ghost function MaxDeg(d: seq<Store>): (m: int)
    ensures forall i :: 0 <= i < |d| ==> d[i].degree <= m
  {
    if d == [] then 0
    else
      var r, n := MaxDeg(d[..|d| - 1]), d[|d| - 1].degree;
      assert forall i :: 0 <= i < |d| - 1 ==> d[..|d| - 1][i] == d[i];
      if r < n then n else r
  }

  /** The root of the tree that holds slot `i`. */
  ghost function RootOf(d: seq<Store>, i: int): (r: int)
    requires Links(d) && Live(d, i)
    ensures IsRoot(d, r)
    decreases MaxDeg(d) - d[i].degree
  {
    assert NodeOk(d, i);
    if d[i].parent == -1 then i else RootOf(d, d[i].parent)
  }

  /** No slot is below the root of its tree, and none has a larger degree. */
  lemma {:induction false} RootBelow(d: seq<Store>, i: int)
    requires Links(d) && Ordered(d) && Live(d, i)
    ensures d[RootOf(d, i)].prio <= d[i].prio && d[i].degree <= d[RootOf(d, i)].degree
    decreases MaxDeg(d) - d[i].degree
  {
    assert NodeOk(d, i) && OrderOk(d, i);
    if d[i].parent != -1 {
      RootBelow(d, d[i].parent);
    }
  }

  /** A least root is least in the whole heap. */
  lemma LeastRootLeast(d: seq<Store>, h: int, l: seq<int>, s: int)
    requires Forest(d, h, l) && LeastRoot(d, l, s)
    ensures IsRoot(d, s) && LeastLive(d, s)
  {
    forall i | Live(d, i) ensures d[s].prio <= d[i].prio {
      RootBelow(d, i);
      var r := RootOf(d, i);
      assert r in l;
    }
  }

  lemma LeaderLeast(d: seq<Store>, h: int, l: seq<int>, s: int)
    requires Forest(d, h, l) && Leads(d, l, s)
    ensures IsRoot(d, s) && LeastLive(d, s) && s in l
  {
    LeadsLeast(d, l, s);
    LeastRootLeast(d, h, l, s);
  }

  // ---------- the climb of decrease ----------

  /** Only names and priorities differ. */
  ghost predicate SameLinks(d: seq<Store>, e: seq<Store>) {
    && |e| == |d|
    && forall i :: 0 <= i < |d| ==> e[i] == d[i].(name := e[i].name, prio := e[i].prio)
  }

  lemma SameLinksLinks(d: seq<Store>, e: seq<Store>)
    requires SameLinks(d, e) && Links(d)
    ensures Links(e)
    ensures forall i :: (IsRoot(e, i) <==> IsRoot(d, i)) && Deg(e, i) == Deg(d, i)
  {
    forall i ensures NodeOk(e, i) { assert NodeOk(d, i); }
    forall i, j ensures SiblingsOk(e, i, j) { assert SiblingsOk(d, i, j); }
  }

  /** Heap order holds everywhere but between slot `i` and its parent, and the children
      of `i` are no smaller than that parent. */
  ghost predicate OrderedBut(d: seq<Store>, i: int) {
    forall j {:trigger OrderOk(d, j)} ::
      && (j != i ==> OrderOk(d, j))
      && (Live(d, j) && d[j].parent == i && Live(d, i) && Live(d, d[i].parent) ==> d[d[i].parent].prio <= d[j].prio)
  }

  function Swapped(d: seq<Store>, i: int, p: int, item: Item, value: int): seq<Store>
    requires 0 <= i < |d| && 0 <= p < |d|
  {
    d[i := d[i].(name := d[p].name, prio := d[p].prio)][p := d[p].(name := item, prio := value)]
  }

  /** The state of the climbing loop: `item` with its new priority sits at slot `i`, its
      cross reference not yet written. */
  ghost predicate Climbing(d0: seq<Store>, iim0: map<Item, int>, item: Item, value: int,
                           d: seq<Store>, iim: map<Item, int>, i: int) {
    && SameLinks(d0, d)
    && Live(d, i) && d[i].name == item && d[i].prio == value
    && NamesOk(d, iim[item := i])
    && Contents(d, iim[item := i]) == Contents(d0, iim0)[item := value]
    && SameStatus(d0, iim0, d, iim[item := i])
    && OrderedBut(d, i)
    && value <= d0[i].prio
    && (forall r :: IsRoot(d0, r) && r != i ==> d[r].prio == d0[r].prio)
    && (forall j :: 0 <= j < |d| && d[j].degree > d[i].degree ==> d[j] == d0[j])
    && (forall j :: Live(d0, j) && j != i && d0[j].prio <= value ==> d[j].prio == d0[j].prio)
  }

  lemma ClimbStart(d: seq<Store>, iim: map<Item, int>, item: Item, value: int)
    requires Ordered(d) && NamesOk(d, iim)
    requires item in Contents(d, iim) && value <= Contents(d, iim)[item]
    ensures var i := iim[item];
            Live(d, i) && Climbing(d, iim, item, value, d[i := d[i].(prio := value)], iim, i)
  {
    var i := iim[item];
    var e := d[i := d[i].(prio := value)];
    assert iim[item := i] == iim;
    assert forall j :: Live(e, j) <==> Live(d, j);
    assert Ref(iim, item) == i;
    forall x | x in iim && Live(d, iim[x]) ensures iim[x] == i ==> x == item {
      assert d[Ref(iim, x)].name == x;
    }
    assert Contents(e, iim) == Contents(d, iim)[item := value];
    forall j
      ensures j != i ==> OrderOk(e, j)
      ensures Live(e, j) && e[j].parent == i && Live(e, e[i].parent) ==> e[e[i].parent].prio <= e[j].prio
    {
      assert OrderOk(d, j) && OrderOk(d, i);
    }
  }

  /** The references `n` are `m` with those of `item` (slot `i`) and `other` (slot `p`)
      exchanged, and no other item refers to these slots. */
  ghost predicate Exchanged(m: map<Item, int>, n: map<Item, int>, item: Item, other: Item, i: int, p: int) {
    && item != other && i != p
    && Ref(m, item) == i && Ref(m, other) == p
    && (forall x {:trigger Ref(n, x)} :: Ref(n, x) == if x == item then p else if x == other then i else Ref(m, x))
    && (forall x {:trigger Ref(m, x)} :: x != item && x != other ==> Ref(m, x) != i && Ref(m, x) != p)
  }

  lemma SwapExchanges(d: seq<Store>, iim: map<Item, int>, i: int, p: int, item: Item)
    requires Live(d, i) && Live(d, p) && i != p && d[i].name == item
    requires NamesOk(d, iim[item := i])
    ensures Exchanged(iim[item := i], iim[d[p].name := i][item := p], item, d[p].name, i, p)
  {
    var m := iim[item := i];
    assert Ref(m, d[i].name) == i && Ref(m, d[p].name) == p;
  }

  lemma ExchangedNames(d: seq<Store>, m: map<Item, int>, n: map<Item, int>, i: int, p: int, item: Item, value: int)
    requires Live(d, i) && Live(d, p) && Exchanged(m, n, item, d[p].name, i, p) && NamesOk(d, m)
    ensures var e := Swapped(d, i, p, item, value); NamesOk(e, n) && SameStatus(d, m, e, n)
  {
    var e := Swapped(d, i, p, item, value);
    forall j | Live(e, j) ensures Ref(n, e[j].name) == j {
      if j != i && j != p { assert Ref(m, d[j].name) == j; }
    }
    forall x ensures Ref(n, x) >= 0 ==> Ref(n, x) < |e| && e[Ref(n, x)].name == x {
      assert Ref(m, x) >= 0 ==> Ref(m, x) < |d| && d[Ref(m, x)].name == x;
    }
  }

  lemma ContentsAt(d: seq<Store>, iim: map<Item, int>, x: Item)
    ensures x in Contents(d, iim) <==> Live(d, Ref(iim, x))
    ensures x in Contents(d, iim) ==> Contents(d, iim)[x] == d[Ref(iim, x)].prio
  {
  }

  lemma ExchangedContents(d: seq<Store>, m: map<Item, int>, n: map<Item, int>, i: int, p: int, item: Item, value: int)
    requires Live(d, i) && Live(d, p) && Exchanged(m, n, item, d[p].name, i, p) && d[i].prio == value
    ensures Contents(Swapped(d, i, p, item, value), n) == Contents(d, m)
  {
    var e := Swapped(d, i, p, item, value);
    var c, c' := Contents(d, m), Contents(e, n);
    forall x ensures (x in c' <==> x in c) && (x in c ==> c'[x] == c[x]) {
      ContentsAt(d, m, x);
      ContentsAt(e, n, x);
    }
    assert c' == c;
  }

  lemma SwapNames(d: seq<Store>, iim: map<Item, int>, i: int, p: int, item: Item, value: int)
    requires Live(d, i) && Live(d, p) && i != p && d[i].name == item && d[i].prio == value
    requires NamesOk(d, iim[item := i])
    ensures var e, jjm := Swapped(d, i, p, item, value), iim[d[p].name := i];
            && NamesOk(e, jjm[item := p])
            && Contents(e, jjm[item := p]) == Contents(d, iim[item := i])
            && SameStatus(d, iim[item := i], e, jjm[item := p])
  {
    hide NamesOk, Exchanged, Contents, SameStatus;
    var m, n := iim[item := i], iim[d[p].name := i][item := p];
    SwapExchanges(d, iim, i, p, item);
    ExchangedNames(d, m, n, i, p, item, value);
    ExchangedContents(d, m, n, i, p, item, value);
  }

  lemma SwapOrder(d: seq<Store>, i: int, p: int, item: Item, value: int)
    requires Links(d) && OrderedBut(d, i)
    requires Live(d, i) && Live(d, p) && d[i].parent == p && d[i].prio == value < d[p].prio
    ensures OrderedBut(Swapped(d, i, p, item, value), p)
  {
    var e := Swapped(d, i, p, item, value);
    assert NodeOk(d, i) && NodeOk(d, p);
    forall j
      ensures j != p ==> OrderOk(e, j)
      ensures Live(e, j) && e[j].parent == p && Live(e, e[p].parent) ==> e[e[p].parent].prio <= e[j].prio
    {
      assert NodeOk(d, j);
      assert j != i ==> OrderOk(d, j);
      assert OrderOk(d, p);
    }
  }

  lemma ClimbStep(d0: seq<Store>, iim0: map<Item, int>, item: Item, value: int,
                  d: seq<Store>, iim: map<Item, int>, i: int)
    requires Links(d) && Ordered(d0) && Climbing(d0, iim0, item, value, d, iim, i)
    requires var p := d[i].parent; p != -1 && Live(d, p) && value < d[p].prio
    ensures var p := d[i].parent;
            && p != i && d[i].degree < d[p].degree
            && Climbing(d0, iim0, item, value, Swapped(d, i, p, item, value), iim[d[p].name := i], p)
  {
    var p := d[i].parent;
    assert NodeOk(d, i) && OrderOk(d0, i);
    SwapNames(d, iim, i, p, item, value);
    SwapOrder(d, i, p, item, value);
  }

  /** Where the loop stands: a live slot whose parent, if any, is live. */
  ghost predicate Standing(d: seq<Store>, i: int) {
    Live(d, i) && (d[i].parent != -1 ==> Live(d, d[i].parent))
  }

  lemma DecreaseStart(d: seq<Store>, iim: map<Item, int>, h: int, l: seq<int>, item: Item, value: int)
    requires Forest(d, h, l) && NamesOk(d, iim)
    requires item in Contents(d, iim) && value <= Contents(d, iim)[item]
    ensures item in iim && l != []
    ensures var i := iim[item];
            && Links(d) && Ordered(d) && Standing(d, i)
            && var e := d[i := d[i].(prio := value)]; Climbing(d, iim, item, value, e, iim, i) && Standing(e, i)
  {
    ClimbStart(d, iim, item, value);
    assert NodeOk(d, iim[item]);
    assert RootOf(d, iim[item]) in l;
  }

  lemma DecreaseStep(d0: seq<Store>, iim0: map<Item, int>, item: Item, value: int,
                     d: seq<Store>, iim: map<Item, int>, i: int)
    requires Links(d0) && Ordered(d0) && Climbing(d0, iim0, item, value, d, iim, i)
    requires var p := d[i].parent; p != -1 && Live(d, p) && value < d[p].prio
    ensures var p := d[i].parent;
            && p != i && Deg(d0, i) < Deg(d0, p) && Live(d0, i) && Live(d0, p) && RootOf(d0, p) == RootOf(d0, i)
            && Climbing(d0, iim0, item, value, Swapped(d, i, p, item, value), iim[d[p].name := i], p)
            && Standing(Swapped(d, i, p, item, value), p)
  {
    SameLinksLinks(d0, d);
    ClimbStep(d0, iim0, item, value, d, iim, i);
    ClimbRoot(d0, i);
    assert NodeOk(d0, d0[i].parent);
  }

  lemma ClimbRoot(d: seq<Store>, i: int)
    requires Links(d) && Live(d, i) && d[i].parent != -1
    ensures Live(d, d[i].parent) && RootOf(d, d[i].parent) == RootOf(d, i)
  {
    assert NodeOk(d, i);
  }

  /** Root `r` comes before root `m` in the root list. */
  ghost predicate LeftOf(l: seq<int>, r: int, m: int) {
    exists a, b :: 0 <= a < b < |l| && l[a] == r && l[b] == m
  }

  ghost predicate ClimbDone(d: seq<Store>, i: int, value: int) {
    Live(d, i) && (d[i].parent == -1 || (Live(d, d[i].parent) && d[d[i].parent].prio <= value))
  }

  lemma StandingDone(d: seq<Store>, i: int, value: int)
    requires Standing(d, i) && (d[i].parent == -1 || d[d[i].parent].prio <= value)
    ensures ClimbDone(d, i, value)
  {
  }

  lemma ClimbedForest(d0: seq<Store>, iim0: map<Item, int>, h: int, l: seq<int>, item: Item, value: int,
                      d: seq<Store>, iim: map<Item, int>, i: int)
    requires Forest(d0, h, l)
    requires Climbing(d0, iim0, item, value, d, iim, i) && ClimbDone(d, i, value)
    ensures Forest(d, h, l)
    ensures forall k :: 0 <= k < |l| ==> Deg(d, l[k]) == Deg(d0, l[k])
    ensures Weight(d, l) == Weight(d0, l)
    ensures Increasing(d0, l) ==> Increasing(d, l)
  {
    SameLinksLinks(d0, d);
    forall j ensures OrderOk(d, j) {
      assert j != i ==> OrderOk(d, j);
    }
    forall k | 0 <= k < |l| ensures LinkOk(d, l, k) { assert LinkOk(d0, l, k); }
    WeightSame(d, d0, l);
  }

  /** Where the climb ends: at the root of the item's tree, if no root is as small. */
  lemma ClimbedToRoot(d0: seq<Store>, iim0: map<Item, int>, item: Item, value: int,
                      d: seq<Store>, iim: map<Item, int>, i: int)
    requires Links(d0) && Ordered(d0)
    requires Climbing(d0, iim0, item, value, d, iim, i) && ClimbDone(d, i, value)
    ensures Live(d0, i)
    ensures d0[RootOf(d0, i)].prio > value ==> RootOf(d0, i) == i
    ensures IsRoot(d0, i) <==> RootOf(d0, i) == i
  {
    if d[i].parent != -1 {
      ClimbRoot(d0, i);
      assert NodeOk(d0, i);
      RootBelow(d0, d[i].parent);
    }
  }

  /** What the climb leaves in each slot is some item's priority. */
  lemma ClimbedPriorities(d0: seq<Store>, iim0: map<Item, int>, item: Item, value: int,
                          d: seq<Store>, iim: map<Item, int>, i: int, m: int)
    requires LeastLive(d0, m) && Climbing(d0, iim0, item, value, d, iim, i)
    ensures forall j {:trigger Live(d, j)} :: Live(d, j) && j != i ==> d0[m].prio <= d[j].prio
  {
    var jjm := iim[item := i];
    forall j | Live(d, j) && j != i ensures d0[m].prio <= d[j].prio {
      var x := d[j].name;
      assert Ref(jjm, x) == j && x != item;
      ContentsAt(d, jjm, x);
      ContentsAt(d0, iim0, x);
      assert Contents(d, jjm)[x] == Contents(d0, iim0)[x];
    }
  }

  lemma SmallestLeads(d: seq<Store>, l: seq<int>, i: int)
    requires i in l && 0 <= i < |d|
    requires forall k :: 0 <= k < |l| ==> 0 <= l[k] < |d| && (l[k] != i ==> d[i].prio < d[l[k]].prio)
    requires NoDup(l)
    ensures Leads(d, l, i)
  {
    var k :| 0 <= k < |l| && l[k] == i;
    assert IsLeader(d, l, k);
  }

  /** A least item stays one, unless the lowered item becomes smaller: that has climbed to a
      root then, the only least one. */
  lemma ClimbedLeast(d0: seq<Store>, iim0: map<Item, int>, h: int, l: seq<int>, item: Item, value: int,
                     d: seq<Store>, iim: map<Item, int>, i: int, m: int)
    requires Forest(d0, h, l) && LeastLive(d0, m)
    requires Climbing(d0, iim0, item, value, d, iim, i) && ClimbDone(d, i, value)
    ensures 0 <= m < |d| && m < |d0|
    ensures var t := if value < d[m].prio then i else m;
            && LeastLive(d, t) && d[t].prio == (if value < d0[m].prio then value else d0[m].prio)
            && (t in l <==> m in l || value < d0[m].prio)
            && (value < d0[m].prio ==> Leads(d, l, t))
  {
    ClimbedPriorities(d0, iim0, item, value, d, iim, i, m);
    if value < d0[m].prio {
      ClimbedToRoot(d0, iim0, item, value, d, iim, i);
      var r := RootOf(d0, i);
      assert r in l && r == i;
      forall k | 0 <= k < |l| ensures Live(d, l[k]) {
        var x := l[k];
        assert x in l;
      }
      SmallestLeads(d, l, i);
    }
  }

  /** The facts about root priorities that decide where the leftmost least root is. */
  lemma ClimbedPrios(d0: seq<Store>, iim0: map<Item, int>, h: int, l: seq<int>, item: Item, value: int,
                     d: seq<Store>, iim: map<Item, int>, i: int, k: int)
    requires Forest(d0, h, l) && IsLeader(d0, l, k)
    requires Climbing(d0, iim0, item, value, d, iim, i) && ClimbDone(d, i, value)
    ensures Live(d0, i) && |d| == |d0|
    ensures forall j :: 0 <= j < |l| && l[j] != i ==> d[l[j]].prio == d0[l[j]].prio
    ensures d[i].prio == value <= d0[i].prio && d0[l[k]].prio <= d0[i].prio
    ensures d0[RootOf(d0, i)].prio > value ==> RootOf(d0, i) == i
    ensures i in l ==> RootOf(d0, i) == i
    ensures i !in l ==> d0[RootOf(d0, i)].prio <= value
    ensures RootOf(d0, i) in l
  {
    assert forall j :: 0 <= j < |l| ==> l[j] in l;
    assert Leads(d0, l, l[k]);
    LeaderLeast(d0, h, l, l[k]);
    ClimbedToRoot(d0, iim0, item, value, d, iim, i);
  }

  lemma ClimbedBelow(d0: seq<Store>, d: seq<Store>, l: seq<int>, i: int, k: int)
    requires IsLeader(d0, l, k) && |d| == |d0| && i in l && NoDup(l)
    requires forall j :: 0 <= j < |l| && l[j] != i ==> d[l[j]].prio == d0[l[j]].prio
    requires d[i].prio < d0[l[k]].prio
    ensures Leads(d, l, i)
  {
    var a :| 0 <= a < |l| && l[a] == i;
    assert IsLeader(d, l, a);
  }

  lemma ClimbedAbove(d0: seq<Store>, d: seq<Store>, l: seq<int>, i: int, k: int)
    requires IsLeader(d0, l, k) && |d| == |d0|
    requires forall j :: 0 <= j < |l| && l[j] != i ==> d[l[j]].prio == d0[l[j]].prio
    requires i in l ==> d0[l[k]].prio <= d[i].prio <= d0[i].prio
    requires i in l && d[i].prio == d0[l[k]].prio ==> !LeftOf(l, i, l[k])
    ensures Leads(d, l, l[k])
  {
    forall j | 0 <= j < k ensures d[l[k]].prio < d[l[j]].prio {
      assert l[j] in l && l[k] in l;
      assert l[j] == i ==> LeftOf(l, i, l[k]);
    }
    assert forall j :: 0 <= j < |l| ==> l[j] in l;
    assert IsLeader(d, l, k);
  }

  lemma ClimbedTie(d0: seq<Store>, d: seq<Store>, l: seq<int>, i: int, k: int)
    requires IsLeader(d0, l, k) && |d| == |d0| && NoDup(l)
    requires forall j :: 0 <= j < |l| && l[j] != i ==> d[l[j]].prio == d0[l[j]].prio
    requires i in l && d[i].prio == d0[l[k]].prio && LeftOf(l, i, l[k])
    ensures !Leads(d, l, l[k])
  {
    var a, b :| 0 <= a < b < |l| && l[a] == i && l[b] == l[k];
    forall m | IsLeader(d, l, m) ensures l[m] != l[k] {
      assert d[l[a]].prio == d[l[k]].prio;
    }
  }

  /** How the leftmost least root moves under `decrease`. */
  lemma ClimbedLeads(d0: seq<Store>, iim0: map<Item, int>, h: int, l: seq<int>, item: Item, value: int,
                     d: seq<Store>, iim: map<Item, int>, i: int, m: int)
    requires Forest(d0, h, l) && Leads(d0, l, m)
    requires Climbing(d0, iim0, item, value, d, iim, i) && ClimbDone(d, i, value)
    ensures Live(d0, i) && 0 <= m < |d0| && |d| == |d0|
    ensures value < d0[m].prio ==> Leads(d, l, i) && d[m].prio == if m == i then value else d0[m].prio
    ensures value >= d0[m].prio ==> d[m].prio == d0[m].prio
    ensures value >= d0[m].prio ==>
              (Leads(d, l, m) <==> value != d0[m].prio || !LeftOf(l, RootOf(d0, i), m))
  {
    hide Links, Ordered, Chain, ListsRoots, Climbing, ClimbDone, LeftOf, NoDup;
    ForestNoDup(d0, h, l);
    var k :| IsLeader(d0, l, k) && l[k] == m;
    ClimbedPrios(d0, iim0, h, l, item, value, d, iim, i, k);
    var r := RootOf(d0, i);
    if value < d0[m].prio {
      RootsAbove(d0, l, k, r);
      ClimbedBelow(d0, d, l, i, k);
    } else if value == d0[m].prio && LeftOf(l, r, m) {
      LeftOfLeader(d0, l, k, r);
      ClimbedTie(d0, d, l, i, k);
    } else {
      ClimbedAbove(d0, d, l, i, k);
    }
  }

  lemma RootsAbove(d: seq<Store>, l: seq<int>, k: int, r: int)
    requires IsLeader(d, l, k) && r in l
    ensures 0 <= r < |d| && d[l[k]].prio <= d[r].prio
  {
    var a :| 0 <= a < |l| && l[a] == r;
    assert a < k || k <= a;
  }

  lemma LeftOfLeader(d: seq<Store>, l: seq<int>, k: int, r: int)
    requires IsLeader(d, l, k) && LeftOf(l, r, l[k])
    requires NoDup(l)
    ensures 0 <= r < |d| && d[l[k]].prio < d[r].prio
  {
  }

  lemma ForestNoDup(d: seq<Store>, h: int, l: seq<int>)
    requires Forest(d, h, l)
    ensures NoDup(l)
  {
  }

  // ---------- entering an item ----------

  /** The record written by `push` at slot `i`: a new one at the end, or the one the item
      had before, whose name is already right. */
  ghost predicate Entered(d: seq<Store>, iim: map<Item, int>, item: Item, value: int,
                          e: seq<Store>, jjm: map<Item, int>, i: int) {
    if Ref(iim, item) < 0 then
      && i == |d| && jjm == iim[item := i]
      && e == d + [Store(item, -1, -1, -1, 0, true, value)]
    else
      && i == Ref(iim, item) < |d| && jjm == iim
      && e == d[i := Store(d[i].name, -1, -1, -1, 0, true, value)]
  }

  /** The pushed item becomes a one-node tree beside the forest. */
  lemma EnteredForest(d: seq<Store>, iim: map<Item, int>, item: Item, value: int,
                      e: seq<Store>, jjm: map<Item, int>, i: int, h: int, l: seq<int>)
    requires Forest(d, h, l) && NamesOk(d, iim) && item !in Contents(d, iim)
    requires Entered(d, iim, item, value, e, jjm, i)
    ensures Links(e) && Ordered(e) && ListsRoots(e, l + [i])
    ensures Chain(e, h, l) && Chain(e, i, [i])
    ensures e[i].degree == 0 && e[i].prio == value
    ensures forall j :: j in l ==> 0 <= j < |d| && e[j] == d[j]
    ensures forall j {:trigger Live(d, j)} :: Live(d, j) ==> j != i && e[j] == d[j]
    ensures Live(e, i) && forall j {:trigger Live(e, j)} :: Live(e, j) ==> Live(d, j) || j == i
    ensures NoDup([i] + l)
  {
    if Ref(iim, item) >= 0 {
      assert d[Ref(iim, item)].name == item;
    }
    assert !Live(d, i);
    assert forall j :: Live(e, j) <==> Live(d, j) || j == i;
    forall j ensures NodeOk(e, j) && OrderOk(e, j) {
      assert NodeOk(d, j) && OrderOk(d, j);
    }
    forall j, k ensures SiblingsOk(e, j, k) {
      assert SiblingsOk(d, j, k) && NodeOk(d, j) && NodeOk(d, k);
    }
    assert forall j :: IsRoot(e, j) <==> IsRoot(d, j) || j == i;
    forall j | j in l ensures e[j] == d[j] {
      assert IsRoot(d, j);
    }
    forall k | 0 <= k < |l| ensures LinkOk(e, l, k) {
      assert LinkOk(d, l, k) && l[k] in l;
    }
    assert LinkOk(e, [i], 0);
  }

  lemma EnteredRefs(d: seq<Store>, iim: map<Item, int>, item: Item, value: int,
                    e: seq<Store>, jjm: map<Item, int>, i: int)
    requires NamesOk(d, iim) && item !in Contents(d, iim)
    requires Entered(d, iim, item, value, e, jjm, i)
    ensures Live(e, i) && e[i].name == item && e[i].prio == value && !Live(d, i) && |d| <= |e|
    ensures forall j {:trigger Live(e, j)} :: j != i ==> (Live(e, j) <==> Live(d, j))
    ensures forall j :: 0 <= j < |d| && j != i ==> e[j] == d[j]
    ensures forall x {:trigger Ref(jjm, x)} :: Ref(jjm, x) == if x == item then i else Ref(iim, x)
    ensures forall x {:trigger Ref(iim, x)} :: x != item ==> Ref(iim, x) != i && Ref(iim, x) < |d|
  {
    if Ref(iim, item) >= 0 {
      assert d[Ref(iim, item)].name == item;
    }
  }

  lemma EnteredNames(d: seq<Store>, iim: map<Item, int>, item: Item, value: int,
                     e: seq<Store>, jjm: map<Item, int>, i: int)
    requires NamesOk(d, iim) && item !in Contents(d, iim)
    requires Entered(d, iim, item, value, e, jjm, i)
    ensures NamesOk(e, jjm)
    ensures Contents(e, jjm) == Contents(d, iim)[item := value]
    ensures forall x :: x != item ==> Status(e, jjm, x) == Status(d, iim, x)
  {
    EnteredRefs(d, iim, item, value, e, jjm, i);
    hide Entered;
    assert NamesOk(e, jjm) by {
      forall j | Live(e, j) && j != i ensures Ref(jjm, e[j].name) == j {
        assert Ref(iim, d[j].name) == j;
      }
    }
    var c, c' := Contents(d, iim)[item := value], Contents(e, jjm);
    forall x ensures (x in c' <==> x in c) && (x in c ==> c'[x] == c[x]) {
      ContentsAt(d, iim, x);
      ContentsAt(e, jjm, x);
    }
    assert c' == c;
  }

  /** In front of the root list, the pushed item leads it unless the minimum is smaller. */
  lemma EnteredLeads(d: seq<Store>, e: seq<Store>, l: seq<int>, i: int, s: int)
    requires Leads(d, l, s) && 0 <= i < |e| && |d| <= |e|
    requires forall j :: j in l ==> e[j] == d[j]
    ensures 0 <= s < |d|
    ensures e[i].prio <= d[s].prio ==> Leads(e, [i] + l, i)
    ensures e[i].prio > d[s].prio ==> Leads(e, [i] + l, s)
  {
    var k :| IsLeader(d, l, k) && l[k] == s;
    var w := [i] + l;
    forall j | 0 <= j < |w| ensures 0 <= w[j] < |e| && (j > 0 ==> w[j] == l[j - 1] && e[w[j]] == d[w[j]]) {
      if j > 0 { assert l[j - 1] in l; }
    }
    if e[i].prio <= d[s].prio {
      assert IsLeader(e, w, 0);
    } else {
      assert IsLeader(e, w, k + 1);
    }
  }

  /** The smaller of the old minimum and the pushed record is least. */
  lemma PushedLive(d: seq<Store>, e: seq<Store>, m: int, i: int, f: seq<Store>)
    requires LeastLive(d, m) && |d| <= |e| && Live(e, i) && SameItems(e, f)
    requires forall j {:trigger Live(e, j)} :: Live(e, j) ==> Live(d, j) || j == i
    requires forall j {:trigger Live(d, j)} :: Live(d, j) ==> j != i && e[j] == d[j]
    ensures 0 <= m < |d| && i != m && |f| == |e| && f[i].prio == e[i].prio && f[m].prio == d[m].prio
    ensures LeastLive(f, if f[i].prio < f[m].prio then i else m)
  {
    assert forall j :: Live(f, j) ==> Live(e, j);
  }

  /** Which root leads the roots after the push. */
  lemma PushedLeads(d: seq<Store>, iim: map<Item, int>, l: seq<int>, m: int,
                    e: seq<Store>, i: int, f: seq<Store>, w: seq<int>)
    requires LeastLive(d, m) && NamesOk(d, iim) && |d| <= |e| && 0 <= i < |e| && i != m
    requires forall j :: j in l ==> 0 <= j < |d| && e[j] == d[j]
    requires forall k :: 0 <= k < |l| ==> 0 <= l[k] < |e| && d[m].prio <= e[l[k]].prio
    requires |f| == |e| && f[i].prio == e[i].prio && f[m].prio == d[m].prio
    requires forall s :: Leads(e, [i] + l, s) ==> Leads(f, w, s)
    ensures var v, t := e[i].prio, if f[i].prio < f[m].prio then i else m;
            && (v < d[m].prio ==> Leads(f, w, t))
            && (Leads(d, l, m) ==> (Leads(f, w, t) <==> !Ties(Contents(d, iim), v)))
  {
    var v := e[i].prio;
    LeastLiveTies(d, iim, m);
    hide NamesOk, Contents, Ties, LeastLive;
    if v < d[m].prio { PushedSmallest(e, l, i); }
    if Leads(d, l, m) {
      EnteredLeads(d, e, l, i, m);
      hide Leads;
      if v == d[m].prio && Leads(f, w, m) { LeadsUnique(f, w, m, i); }
    }
  }

  /** What a push does to the cached minimum `m`: `e` is the array with the new record `i`,
      `f` the array and `w` the root list after merging. */
  lemma PushedMin(d: seq<Store>, iim: map<Item, int>, h: int, l: seq<int>, m: int,
                  e: seq<Store>, i: int, f: seq<Store>, w: seq<int>)
    requires Forest(d, h, l) && NamesOk(d, iim) && Increasing(d, l) && LeastLive(d, m) && l != []
    requires |d| <= |e| && Live(e, i) && Deg(e, i) == 0 && NoDup([i] + l)
    requires forall j {:trigger Live(e, j)} :: Live(e, j) ==> Live(d, j) || j == i
    requires forall j {:trigger Live(d, j)} :: Live(d, j) ==> j != i && e[j] == d[j]
    requires SameItems(e, f) && w == Carried(e, [i] + l)
    requires forall s :: Leads(e, [i] + l, s) ==> Leads(f, w, s)
    ensures w != [] && 0 <= m < |d| && |f| == |e| && f[i].prio == e[i].prio && f[m].prio == d[m].prio
    ensures var v, t := e[i].prio, if f[i].prio < f[m].prio then i else m;
            && LeastLive(f, t)
            && (t in w <==> v < d[m].prio || (m in l && (!InCarry(d, l, m) || (v > d[m].prio && Leads(d, l, m)))))
            && (v < d[m].prio ==> Leads(f, w, t))
            && (Leads(d, l, m) ==> (Leads(f, w, t) <==> !Ties(Contents(d, iim), v)))
  {
    FirstDegree(d, h, l);
    LeastLiveRoot(d, h, l, m);
    PushedLive(d, e, m, i, f);
    PushedEntries(d, e, l, m);
    hide Forest, NamesOk, Contents, LeastLive, Leads, Ties, InCarry, SameItems, NoDup, Live;
    PushedLeads(d, iim, l, m, e, i, f, w);
    PushedRoot(e, l, i, m);
    hide Increasing, Deg;
  }

  lemma PushedSmallest(e: seq<Store>, l: seq<int>, i: int)
    requires 0 <= i < |e| && forall k :: 0 <= k < |l| ==> 0 <= l[k] < |e| && e[i].prio < e[l[k]].prio
    ensures Leads(e, [i] + l, i)
  {
    assert IsLeader(e, [i] + l, 0);
  }

  /** The records of the roots and of the cached minimum are those from before the push. */
  lemma PushedEntries(d: seq<Store>, e: seq<Store>, l: seq<int>, m: int)
    requires |d| <= |e| && Live(d, m) && forall k :: 0 <= k < |l| ==> Live(d, l[k])
    requires forall j {:trigger Live(d, j)} :: Live(d, j) ==> e[j] == d[j]
    ensures e[m] == d[m] && forall j :: j in l ==> 0 <= j < |d| && e[j] == d[j]
    ensures forall k :: 0 <= k < |l| ==> 0 <= l[k] < |e| && e[l[k]] == d[l[k]] && Deg(e, l[k]) == Deg(d, l[k])
    ensures Increasing(d, l) ==> Increasing(e, l)
    ensures Leads(e, l, m) <==> Leads(d, l, m)
    ensures InCarry(e, l, m) <==> InCarry(d, l, m)
  {
    if Leads(d, l, m) {
      var k :| IsLeader(d, l, k) && l[k] == m;
      assert IsLeader(e, l, k);
    }
    if Leads(e, l, m) {
      var k :| IsLeader(e, l, k) && l[k] == m;
      assert IsLeader(d, l, k);
    }
  }

  lemma RefInRange(d: seq<Store>, iim: map<Item, int>, x: Item)
    requires NamesOk(d, iim) && Ref(iim, x) >= 0
    ensures Ref(iim, x) < |d| && d[Ref(iim, x)].name == x
  {
  }

  /** The two lists `push` hands to `merge`. */
  lemma EnteredLists(d: seq<Store>, e: seq<Store>, l: seq<int>, i: int)
    requires Increasing(d, l) && forall j :: j in l ==> 0 <= j < |d| && j < |e| && e[j] == d[j]
    requires Deg(e, i) == 0
    requires l != [] ==> Deg(e, l[0]) >= 0
    ensures Increasing(e, l) && Increasing(e, [i])
    ensures Weight(e, l) == Weight(d, l) && Weight(e, [i]) == 1
    ensures 0 <= i < |e| ==> Leads(e, [i], i)
    ensures l != [] ==> Interleaving(e, l, [i]) == [i] + l
    ensures Weight(d, l) == 0 ==> l == []
  {
    assert forall k :: 0 <= k < |l| ==> l[k] in l;
    WeightSame(d, e, l);
    assert [i][1..] == [];
    if 0 <= i < |e| { assert IsLeader(e, [i], 0); }
    if l != [] { InterleavingSingle(e, l, i); }
  }

  lemma FirstDegree(d: seq<Store>, h: int, l: seq<int>)
    requires Forest(d, h, l) && l != []
    ensures Deg(d, l[0]) >= 0 && h != -1 && 0 <= l[0] < |d| && l[0] in l
  {
    assert l[0] in l && NodeOk(d, l[0]);
  }

  lemma SingleForest(e: seq<Store>, i: int)
    requires Links(e) && Ordered(e) && ListsRoots(e, [] + [i]) && Chain(e, i, [i])
    ensures Forest(e, i, [i])
  {
    assert [] + [i] == [i];
  }

  lemma ClimbedItems(d0: seq<Store>, iim0: map<Item, int>, item: Item, value: int,
                     d: seq<Store>, iim: map<Item, int>, i: int)
    requires Climbing(d0, iim0, item, value, d, iim, i) && item in Contents(d0, iim0)
    ensures SameLinks(d0, d) && |d| == |d0| && NamesOk(d, iim[item := i])
    ensures Contents(d, iim[item := i]) == Contents(d0, iim0)[item := value]
    ensures |Contents(d, iim[item := i])| == |Contents(d0, iim0)|
    ensures forall x :: Status(d, iim[item := i], x) == Status(d0, iim0, x)
  {
    var c := Contents(d0, iim0);
    assert c[item := value].Keys == c.Keys;
    assert |c[item := value]| == |c[item := value].Keys|;
  }

  /** What the climb has done when it ends at slot `i`, with `m` as the cached minimum before
      and `t` as the one after. */
  lemma DecreaseEnd(d0: seq<Store>, iim0: map<Item, int>, h: int, l: seq<int>, item: Item, value: int,
                    d: seq<Store>, iim: map<Item, int>, i: int, m: int)
    requires Forest(d0, h, l) && Increasing(d0, l) && LeastLive(d0, m) && NamesOk(d0, iim0)
    requires item in Contents(d0, iim0) && Climbing(d0, iim0, item, value, d, iim, i)
    requires Standing(d, i) && (d[i].parent == -1 || d[d[i].parent].prio <= value)
    ensures Forest(d, h, l) && Increasing(d, l) && Weight(d, l) == Weight(d0, l)
    ensures SameLinks(d0, d) && |d| == |d0| && NamesOk(d, iim[item := i])
    ensures Contents(d, iim[item := i]) == Contents(d0, iim0)[item := value]
    ensures |Contents(d, iim[item := i])| == |Contents(d0, iim0)|
    ensures forall x :: Status(d, iim[item := i], x) == Status(d0, iim0, x)
    ensures 0 <= m < |d| && Live(d0, i)
    ensures var t := if value < d[m].prio then i else m;
            && LeastLive(d, t) && (t in l <==> m in l || value < d0[m].prio)
            && (value < d0[m].prio ==> Leads(d, l, t))
            && (Leads(d0, l, m) ==>
                  (Leads(d, l, t) <==> !Ties(Contents(d0, iim0), value) || !LeftOf(l, RootOf(d0, i), m)))
  {
    StandingDone(d, i, value);
    ClimbedForest(d0, iim0, h, l, item, value, d, iim, i);
    ClimbedLeast(d0, iim0, h, l, item, value, d, iim, i, m);
    ClimbedItems(d0, iim0, item, value, d, iim, i);
    LeastLiveTies(d0, iim0, m);
    if Leads(d0, l, m) { ClimbedLeads(d0, iim0, h, l, item, value, d, iim, i, m); }
    hide Forest, Increasing, NamesOk, Contents, Status, Climbing, ClimbDone, Leads, LeastLive, Weight, SameLinks;
    hide Ties, LeftOf;
  }

  lemma NoTies(m: map<Item, int>, v: int)
    requires |m| == 0
    ensures !Ties(m, v)
  {
  }

  /** An item that is not stored may get any negative reference. */
  lemma ForgetItem(d: seq<Store>, iim: map<Item, int>, item: Item, st: int)
    requires NamesOk(d, iim) && item !in Contents(d, iim) && st < 0
    ensures NamesOk(d, iim[item := st])
    ensures Contents(d, iim[item := st]) == Contents(d, iim)
    ensures Status(d, iim[item := st], item) == st
    ensures forall x :: x != item ==> Status(d, iim[item := st], x) == Status(d, iim, x)
  {
    var jjm := iim[item := st];
    forall x ensures Ref(jjm, x) == if x == item then st else Ref(iim, x) {
    }
    forall i | Live(d, i) ensures Ref(jjm, d[i].name) == i {
      assert Ref(iim, d[i].name) == i;
    }
    assert Contents(d, jjm) == Contents(d, iim);
  }

  lemma TiesBelow(m: map<Item, int>, v: int, item: Item, t: Item)
    requires Ties(m, v) && item in m
    requires var n := m[item := v - 1]; t in n && Ties(n, n[t])
    ensures t == item
  {
    var n := m[item := v - 1];
    assert item in n && n[item] == v - 1;
    assert n[t] <= n[item];
  }
}
