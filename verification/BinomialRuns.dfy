/** Runs of the binomial heap against a plain map from items to priorities, what the heap
    is for (draining it sorts), and the concrete run on which a tie with the minimum
    breaks it. */
module BinomialRuns {
  import opened HeapSpec
  import opened BinomialForest
  import opened BinomialCarry
  import opened BinomialItems
  import opened BinomialTrees
  import opened BinomialHeap

  // ---------- which runs are safe ----------

  ghost predicate Below(m: map<Item, int>, v: int) {
    forall x :: x in m ==> v < m[x]
  }

  /** After the operation the cached minimum is a root for certain; `first` says whether it is
      known to be the leftmost least root before. Only what inserts can do harm. */
  ghost predicate Safe(m: map<Item, int>, first: bool, op: Op) {
    match op
    case Push(x, v) => Below(m, v) || (first && !Ties(m, v))
    case Increase(x, v) => !Ties(m - {x}, v)
    case Set(x, v) =>
      if x !in m then Below(m, v) || (first && !Ties(m, v)) else v <= m[x] || !Ties(m - {x}, v)
    case _ => true
  }

  /** Whether the cached minimum is the leftmost least root for certain after a safe
      operation: every removal makes it so, lowering to a tie may end it. */
  ghost predicate First(m: map<Item, int>, first: bool, op: Op) {
    match op
    case Decrease(x, v) => Below(m, v) || (first && !Ties(m, v))
    case Set(x, v) =>
      x in m && v <= m[x] ==> if v == m[x] then first else Below(m, v) || (first && !Ties(m, v))
    case SetState(x, st) => first || (st != IN_HEAP && x in m)
    case _ => true
  }

  /** Every operation is legal and safe, whatever the earlier ones chose. */
  ghost predicate AllSafe(m: map<Item, int>, first: bool, ops: seq<Op>)
    decreases |ops|
  {
    ops != [] ==>
      && Legal(m, ops[0]) && !ops[0].Replace? && Safe(m, first, ops[0])
      && forall n :: Step(m, ops[0], n) ==> AllSafe(n, First(m, first, ops[0]), ops[1..])
  }

  lemma NextSafe(m: map<Item, int>, first: bool, ops: seq<Op>, k: nat)
    requires k < |ops| && AllSafe(m, first, ops[k..])
    ensures Legal(m, ops[k]) && !ops[k].Replace? && Safe(m, first, ops[k])
    ensures forall n :: Step(m, ops[k], n) ==> AllSafe(n, First(m, first, ops[k]), ops[k + 1..])
  {
    assert ops[k..][0] == ops[k] && ops[k..][1..] == ops[k + 1..];
  }

  /** No priority written ties with the least one of the items it joins. */
  ghost predicate Tieless(m: map<Item, int>, op: Op) {
    match op
    case Push(x, v) => !Ties(m, v)
    case Decrease(x, v) => !Ties(m, v)
    case Increase(x, v) => !Ties(m - {x}, v)
    case Set(x, v) => (x in m && v == m[x]) || !Ties(if x in m && v > m[x] then m - {x} else m, v)
    case _ => true
  }

  ghost predicate AllTieless(m: map<Item, int>, ops: seq<Op>)
    decreases |ops|
  {
    ops != [] ==>
      && Legal(m, ops[0]) && !ops[0].Replace? && Tieless(m, ops[0])
      && forall n :: Step(m, ops[0], n) ==> AllTieless(n, ops[1..])
  }

  /** What a caller can check: a legal run in which no priority ties with the minimum is safe. */
  lemma {:induction false} TielessIsSafe(m: map<Item, int>, ops: seq<Op>)
    requires AllTieless(m, ops)
    ensures AllSafe(m, true, ops)
    decreases |ops|
  {
    if ops != [] {
      forall n | Step(m, ops[0], n) ensures AllSafe(n, First(m, true, ops[0]), ops[1..]) {
        TielessIsSafe(n, ops[1..]);
      }
    }
  }

  // ---------- refinement ----------

  /** One operation on the heap refines the step on the map, in every valid state; a pop
      does so if and only if the cached minimum is a root. Safe operations keep it one. */
  method Perform(h: Heap, op: Op, ghost first: bool) returns (ok: bool)
    requires h.Valid() && (first ==> h.MinFirst()) && Legal(h.View(), op) && !op.Replace?
    modifies h
    ensures !op.Pop? || old(h.MinRoot()) <==> ok && h.Valid()
    ensures ok && h.Valid() ==> Step(old(h.View()), op, h.View())
    ensures old(h.MinRoot()) && Safe(old(h.View()), first, op) ==>
              h.MinRoot() && (First(old(h.View()), first, op) ==> h.MinFirst())
  {
    hide Forest, Increasing, NamesOk, Leads, Weight, Status, Contents, SameLinks, LeftOf, LeastLive, InCarry, Ties;
    h.NonEmptyRoots();
    if h.View() != map[] {
      h.MinIsLeast();
      BelowMin(h.View(), h.data[h.min].prio);
    } else {
      EmptyNeverTies(h.View());
    }
    ok := true;
    match op {
      case Push(x, v) => h.Push(x, v);
      case Pop => ok := h.Pop();
      case Erase(x) => h.Erase(x);
      case Decrease(x, v) => h.Decrease(x, v);
      case Increase(x, v) => ghost var d, l, m := h.Increase(x, v);
      case Set(x, v) => ghost var d, l, m := h.Set(x, v);
      case SetState(x, st) => h.SetState(x, st);
    }
    if ok && h.Valid() && h.MinFirst() { h.FirstIsLeast(); }
  }

  lemma BelowMin(m: map<Item, int>, p: int)
    requires Ties(m, p)
    ensures forall v :: Below(m, v) ==> v < p
  {
  }

  lemma EmptyNeverTies(m: map<Item, int>)
    requires m == map[]
    ensures forall v :: !Ties(m, v)
  {
  }

  /** Any legal and safe run of operations is a run on the map, and the heap stays valid. It
      is safe to lower to a tie with the minimum, or to insert a priority that differs from
      the minimum while no such tie has been made since the last removal. */
  method Run(h: Heap, ops: seq<Op>) returns (ghost trace: seq<map<Item, int>>)
    requires h.Valid() && h.MinFirst() && AllSafe(h.View(), true, ops)
    modifies h
    ensures h.Valid() && h.MinRoot()
    ensures IsRun(ops, trace) && trace[0] == old(h.View()) && trace[|ops|] == h.View()
  {
    hide Forest, Increasing, NamesOk, Leads, Weight, Contents, Legal, Safe, First, Step, AllSafe, LeastLive;
    h.FirstIsLeast();
    trace := [h.View()];
    ghost var first := true;
    assert ops[0..] == ops;
    for k := 0 to |ops|
      invariant h.Valid() && h.MinRoot() && (first ==> h.MinFirst()) && AllSafe(h.View(), first, ops[k..])
      invariant IsRun(ops[..k], trace) && trace[0] == old(h.View()) && trace[k] == h.View()
    {
      ghost var m := h.View();
      NextSafe(m, first, ops, k);
      var ok := Perform(h, ops[k], first);
      first := First(m, first, ops[k]);
      RunExtends(ops, trace, k, h.View());
      trace := trace + [h.View()];
    }
    assert ops[..|ops|] == ops;
  }

  /** Popping until the heap is empty yields all items, once, in order of priority. */
  method Drain(h: Heap) returns (out: seq<(Item, int)>)
    requires h.Valid() && h.MinRoot()
    modifies h
    ensures h.Valid() && h.View() == map[] && SortedListing(old(h.View()), out)
  {
    hide Forest, Increasing, NamesOk, Leads, Weight, Status, Contents, Ties, Chain, LeastLive;
    out := [];
    ghost var m := h.View();
    var empty := h.Empty();
    while !empty
      invariant h.Valid() && h.MinRoot() && (empty <==> h.View() == map[])
      invariant |out| + |h.View()| == |m|
      invariant forall x :: x in h.View() ==> x in m && h.View()[x] == m[x]
      invariant forall i, x :: 0 <= i < |out| && x in h.View() ==> out[i].0 != x && out[i].1 <= m[x]
      invariant forall i :: 0 <= i < |out| ==> out[i].0 in m && m[out[i].0] == out[i].1
      invariant forall i, j :: 0 <= i < j < |out| ==> out[i].1 <= out[j].1 && out[i].0 != out[j].0
      decreases |h.View()|
    {
      ghost var v := h.View();
      var t := h.Top();
      var p := h.Get(t);
      out := out + [(t, p)];
      var ok := h.Pop();
      empty := h.Empty();
    }
  }

  /** In every state of the heap the trees at the roots are heap-ordered binomial trees that
      share out the live slots, and the root degrees are the binary digits of the size. */
  lemma HeapIsBinomialForest(h: Heap)
    requires h.Shape()
    ensures var d, l := h.data, h.roots;
            && Links(d)
            && (forall r :: r in l ==>
                  Live(d, r) && Binomial(TreeAt(d, r), d[r].degree) && HeapOrdered(d, TreeAt(d, r)))
            && (forall r, i :: r in l ==>
                  Live(d, r) && (InTree(TreeAt(d, r), i) <==> Live(d, i) && RootOf(d, i) == r))
            && (forall i :: Live(d, i) ==> RootOf(d, i) in l && Pow2(d[i].degree) <= |h.View()|)
    ensures forall k: nat :: Bit(|h.View()|, k) <==> HasDegree(h.data, h.roots, k)
  {
    hide Forest, Links, Increasing, NamesOk, Contents, Weight, TreeAt, Binomial, HeapOrdered;
    hide InTree, RootOf, Bit, HasDegree, Pow2, Live, Deg;
    ForestOfBinomialTrees(h.data, h.head, h.roots);
    RootDegreesAreBits(h.data, h.head, h.roots);
  }

  // ---------- a tie with the minimum ----------

  /** Two equal priorities pushed into an empty heap: the cached minimum is no root any more. */
  method TieUnderRoot() returns (h: Heap)
    ensures fresh(h) && h.Valid() && h.View() == map[0 := 5, 1 := 5]
    ensures |h.roots| == 1 && !h.MinRoot()
  {
    hide NamesOk, Status, LeastLive, InCarry, Forest, Increasing, Weight;
    h := new Heap(map[]);
    h.Push(0, 5);
    h.NonEmptyRoots();
    OneRoot(h.data, h.head, h.roots);
    h.FirstIsLeast();
    assert Ties(h.View(), 5);
    h.Push(1, 5);
    h.NonEmptyRoots();
    OneRoot(h.data, h.head, h.roots);
  }

  /** The next pop removes one item and leaves a heap that counts the other one but has no
      root left to find it: it is not empty, and its next minimum is slot -1. */
  method TieLosesItem() returns (h: Heap)
    ensures !h.Valid() && |h.View()| == 1 && h.numItems == 1
    ensures h.head == -1 && h.min == -1
  {
    h := TieUnderRoot();
    ghost var d, r, m := h.data, h.head, h.min;
    StaleDegree(d, r, h.roots, m);
    hide NamesOk, Status, LeastLive, Forest, Increasing, Weight, Contents, Deg;
    ghost var t := h.data[m].name;
    var ok := h.Pop();
    RemoveOne(t);
  }

  /** With a third, larger item in the heap there are two roots, and the next pop searches the
      root list for a slot that is not in it. */
  method TieLeavesArray() returns (ok: bool)
    ensures !ok
  {
    var h := TieUnderRoot();
    h.MinIsLeast();
    assert Ties(h.View(), 5);
    hide NamesOk, Status, LeastLive, InCarry, Forest, Increasing, Weight, Contents;
    h.NonEmptyRoots();
    h.Push(2, 7);
    assert |h.View()| == 3;
    h.NonEmptyRoots();
    ThreeNodes(h.data, h.head, h.roots);
    ok := h.Pop();
  }

  /** Three nodes do not fit into one binomial tree. */
  lemma ThreeNodes(d: seq<Store>, h: int, l: seq<int>)
    requires Forest(d, h, l) && Weight(d, l) == 3
    ensures |l| > 1
  {
  }

  lemma RemoveOne(t: Item)
    requires t in map[0 := 5, 1 := 5]
    ensures |map[0 := 5, 1 := 5] - {t}| == 1
  {
    assert map[0 := 5, 1 := 5] - {t} == map[1 - t := 5];
  }

  /** In a tree of two nodes, the one below the root has degree 0. */
  lemma StaleDegree(d: seq<Store>, h: int, l: seq<int>, m: int)
    requires Forest(d, h, l) && |l| == 1 && Weight(d, l) == 2 && Live(d, m) && m !in l
    ensures Deg(d, m) == 0
  {
    var r := l[0];
    assert r in l && NodeOk(d, m) && NodeOk(d, r) && l[1..] == [];
    var p := d[m].parent;
    assert !IsRoot(d, m);
    RootBelow(d, p);
    assert RootOf(d, p) in l;
    if Deg(d, r) > 1 { PowGrows(2, Deg(d, r)); }
  }

  lemma TwoRoots(d: seq<Store>, h: int, l: seq<int>)
    requires Forest(d, h, l) && Increasing(d, l) && |l| > 1
    ensures Weight(d, l) >= 3
  {
    assert l[0] in l && NodeOk(d, l[0]);
    assert Weight(d, l) == Pow2(Deg(d, l[0])) + Pow2(Deg(d, l[1])) + Weight(d, l[1..][1..]);
    assert Deg(d, l[0]) < Deg(d, l[1]);
  }

  /** A list of weight 1 or 2 is a single root. */
  lemma OneRoot(d: seq<Store>, h: int, l: seq<int>)
    requires Forest(d, h, l) && Increasing(d, l) && 1 <= Weight(d, l) <= 2
    ensures |l| == 1 && (forall s :: Leads(d, l, s) <==> s in l)
  {
    if |l| > 1 { TwoRoots(d, h, l); }
    assert IsLeader(d, l, 0);
  }
}
