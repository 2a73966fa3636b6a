/** The class `BinHeap` of deps/lemon/lemon/bin_heap.h with integer priorities and `<`. */
module BinHeap {
  import opened HeapSpec
  import opened BinHeapModel

  class Heap {
    var data: seq<Pair>
    var iim: map<Item, int>  // the cross reference map; an absent item stands for PRE_HEAP

    ghost predicate Valid()
      reads this
    {
      Ordered(data) && Indexed(data, iim)
    }

    /** The stored items with their priorities. */
    ghost function View(): map<Item, int>
      reads this
    {
      Contents(data, iim)
    }

    method Move(p: Pair, i: nat)
      requires i < |data|
      modifies this
      ensures data == old(data)[i := p] && iim == old(iim)[p.item := i]
    {
      data := data[i := p];
      iim := iim[p.item := i];
    }

    /** Moves the hole towards the root until `p` fits in it. `n` entries belong to the
        heap; an entry behind them is not touched. */
    method BubbleUp(hole0: nat, p: Pair, ghost n: nat) returns (hole: nat)
      requires hole0 < n <= |data|
      requires var s := data[..n][hole0 := p]; OrderedAround(s, hole0) && Indexed(s, iim[p.item := hole0])
      modifies this
      ensures |data| == |old(data)| && data[n..] == old(data[n..]) && hole < n
      ensures Rearranged(old(data)[..n][hole0 := p], old(iim)[p.item := hole0], data[..n], iim)
      ensures OrderedAround(data[..n], hole) && EdgeOk(data[..n], hole)
      ensures hole == hole0 ==> data[..n] == old(data)[..n][hole0 := p]
      ensures hole != hole0 || ChildrenOk(old(data)[..n][hole0 := p], hole0) ==> Ordered(data[..n])
    {
      hide OrderedAround, Rearranged, ChildrenOk, Indexed, Contents;
      hole := hole0;
      ghost var s0, m0 := data[..n][hole0 := p], iim[p.item := hole0];
      RearrangedRefl(s0, m0);
      var par := Parent(hole);
      while hole > 0 && p.prio < data[par].prio
        invariant hole < n <= |data| && par == Parent(hole)
        invariant |data| == |old(data)| && data[n..] == old(data)[n..]
        invariant Rearranged(s0, m0, data[..n][hole := p], iim[p.item := hole])
        invariant OrderedAround(data[..n][hole := p], hole)
        invariant hole == hole0 ==> data[..n][hole := p] == s0
        invariant hole != hole0 ==> hole < hole0 && ChildrenOk(data[..n][hole := p], hole)
        decreases hole
      {
        MoveStep(s0, m0, data, iim, n, p, hole, par);
        SwapUp(data[..n][hole := p], hole);
        Move(data[par], hole);
        hole := par;
        par := Parent(hole);
      }
      ghost var s := data[..n][hole := p];
      if hole != hole0 || ChildrenOk(s0, hole0) { OrderedAgain(s, hole); }
      Move(p, hole);
      assert data[..n] == s;
    }

    /** Moves the hole away from the root until `p` fits in it. */
    method BubbleDown(hole0: nat, p: Pair, length: nat) returns (hole: nat)
      requires hole0 < length <= |data|
      requires var s := data[..length][hole0 := p];
               OrderedAround(s, hole0) && EdgeOk(s, hole0) && Indexed(s, iim[p.item := hole0])
      modifies this
      ensures |data| == |old(data)| && data[length..] == old(data[length..]) && hole < length
      ensures Rearranged(old(data)[..length][hole0 := p], old(iim)[p.item := hole0], data[..length], iim)
      ensures Ordered(data[..length])
    {
      hide OrderedAround, Rearranged, ChildrenOk, Indexed, Contents, EdgeOk, Ordered, LeastChild, Parent;
      hole := hole0;
      ghost var s0, m0 := data[..length][hole0 := p], iim[p.item := hole0];
      RearrangedRefl(s0, m0);
      var child := 2 * hole + 2;
      while child < length
        invariant hole < length <= |data| && child == 2 * hole + 2
        invariant |data| == |old(data)| && data[length..] == old(data)[length..]
        invariant Rearranged(s0, m0, data[..length][hole := p], iim[p.item := hole])
        invariant OrderedAround(data[..length][hole := p], hole) && EdgeOk(data[..length][hole := p], hole)
        decreases length - hole
      {
        ghost var s := data[..length][hole := p];
        TwoChildren(s, hole);
        if data[child - 1].prio < data[child].prio {
          child := child - 1;
        }
        if !(data[child].prio < p.prio) {
          StopDown(s, hole, child);
          Move(p, hole);
          assert data[..length] == s;
          return;
        }
        SwapDown(s, hole, child);
        MoveStep(s0, m0, data, iim, length, p, hole, child);
        Move(data[child], hole);
        hole := child;
        child := 2 * hole + 2;
      }
      child := child - 1;
      ghost var s := data[..length][hole := p];
      OneChild(s, hole);
      if child < length && data[child].prio < p.prio {
        SwapDown(s, hole, child);
        MoveStep(s0, m0, data, iim, length, p, hole, child);
        Move(data[child], hole);
        hole := child;
        s := data[..length][hole := p];
        OneChild(s, hole);
        StopDown(s, hole, 2 * hole + 1);
      } else {
        StopDown(s, hole, child);
      }
      Move(p, hole);
      assert data[..length] == s;
    }

    // ---------- operations ----------

    ghost function Reported(x: Item): int
      reads this
    {
      Status(iim, x)
    }

    constructor (m: map<Item, int>)
      requires forall x :: x in m ==> m[x] == PRE_HEAP
      ensures Valid() && View() == map[]
      ensures forall x :: Reported(x) == PRE_HEAP == -1
    {
      data, iim := [], m;
      new;
      assert forall x :: x !in View();
    }

    method Push(p: Pair)
      requires Valid() && p.item !in View()
      modifies this
      ensures Valid() && View() == old(View())[p.item := p.prio]
      ensures forall x :: x != p.item ==> Reported(x) == old(Reported(x))
    {
      hide OrderedAround, Rearranged, ChildrenOk, Indexed, Contents, EdgeOk, Ordered;
      var n := |data|;
      ghost var s, m := data, iim;
      InHeap(s, m, p.item);
      AppendEntry(s, m, p);
      AppendOrdered(s, p);
      data := data + [Pair(p.item, 0)];
      assert data[..n + 1][n := p] == s + [p];
      var hole := BubbleUp(n, p, n + 1);
      assert data[..n + 1] == data;
      RearrangedView(s + [p], m[p.item := n], data, iim);
    }

    /** The item that `Pop` removes. */
    method Top() returns (t: Item)
      requires Valid() && View() != map[]
      ensures data != [] && t == data[0].item && Least(View(), t)
    {
      ContentsSize(data, iim);
      TopLeast(data, iim);
      t := data[0].item;
    }

    method Prio() returns (v: int)
      requires Valid() && View() != map[]
      ensures Ties(View(), v)
    {
      ContentsSize(data, iim);
      TopLeast(data, iim);
      v := data[0].prio;
    }

    method Get(i: Item) returns (v: int)
      requires Valid() && i in View()
      ensures v == View()[i]
    {
      v := data[iim[i]].prio;
    }

    method Size() returns (n: nat)
      requires Valid()
      ensures n == |View()|
    {
      ContentsSize(data, iim);
      n := |data|;
    }

    method Empty() returns (e: bool)
      requires Valid()
      ensures e <==> View() == map[]
    {
      ContentsSize(data, iim);
      e := |data| == 0;
    }

    method Pop()
      requires Valid() && View() != map[]
      modifies this
      ensures Valid() && old(data) != []
      ensures Least(old(View()), old(data)[0].item) && View() == old(View()) - {old(data)[0].item}
      ensures Reported(old(data)[0].item) == POST_HEAP == -2
      ensures forall x :: x != old(data)[0].item ==> Reported(x) == old(Reported(x))
    {
      hide OrderedAround, Rearranged, ChildrenOk, Indexed, Contents, EdgeOk, Ordered;
      ContentsSize(data, iim);
      TopLeast(data, iim);
      ghost var s, m := data, iim;
      var n := |data| - 1;
      RemoveEntry(s, m, 0, POST_HEAP);
      PrefixOrdered(s);
      iim := iim[data[0].item := POST_HEAP];
      if n > 0 {
        OrderedAroundUpdate(s[..n], 0, s[n]);
        FirstEdge(s[..n][0 := s[n]]);
        ghost var m1 := iim[s[n].item := 0];
        var hole := BubbleDown(0, data[n], n);
        RearrangedView(s[..n][0 := s[n]], m1, data[..n], iim);
      }
      data := data[..n];
    }

    /** Removes an item by moving the last entry into its place, up or else down. */
    method Erase(i: Item)
      requires Valid() && i in View()
      modifies this
      ensures Valid() && View() == old(View()) - {i}
      ensures Reported(i) == POST_HEAP
      ensures forall x :: x != i ==> Reported(x) == old(Reported(x))
    {
      hide OrderedAround, Rearranged, ChildrenOk, Indexed, Contents, EdgeOk, Ordered;
      ghost var s, m := data, iim;
      InHeap(s, m, i);
      var h := Ref(iim, i);
      var n := |data| - 1;
      RemoveEntry(s, m, h, POST_HEAP);
      PrefixOrdered(s);
      iim := iim[data[h].item := POST_HEAP];
      if h < n {
        OrderedAroundUpdate(s[..n], h, s[n]);
        ghost var t, m1 := s[..n][h := s[n]], iim[s[n].item := h];
        var hole := BubbleUp(h, data[n], n);
        RearrangedView(t, m1, data[..n], iim);
        assert data[n] == data[n..][0] == s[n];
        if hole == h {
          ghost var m2 := iim;
          SettledRef(data[..n], m2, h);
          assert data[..n][h := data[n]] == data[..n] && m2[data[n].item := h] == m2;
          ghost var t2 := data[..n];
          hole := BubbleDown(h, data[n], n);
          RearrangedView(t2, m2, data[..n], iim);
        }
      }
      data := data[..n];
    }

    /** Sets the priority of an item, inserting it if it is not stored. */
    method Set(i: Item, p: int)
      requires Valid()
      modifies this
      ensures Valid() && View() == old(View())[i := p]
      ensures forall x :: x != i ==> Reported(x) == old(Reported(x))
    {
      hide OrderedAround, Rearranged, ChildrenOk, Indexed, Contents, EdgeOk, Ordered;
      InHeap(data, iim, i);
      var idx := Ref(iim, i);
      if idx < 0 {
        Push(Pair(i, p));
      } else if p < data[idx].prio {
        Decrease(i, p);
      } else {
        Increase(i, p);
      }
    }

    method Decrease(i: Item, p: int)
      requires Valid() && i in View() && p <= View()[i]
      modifies this
      ensures Valid() && View() == old(View())[i := p]
      ensures forall x :: Reported(x) == old(Reported(x))
    {
      hide OrderedAround, Rearranged, ChildrenOk, Indexed, Contents, EdgeOk, Ordered;
      ghost var s, m := data, iim;
      InHeap(s, m, i);
      var idx := Ref(iim, i);
      ReplaceEntry(s, m, idx, Pair(i, p));
      OrderedAroundUpdate(s, idx, Pair(i, p));
      assert data[..|data|] == s;
      var hole := BubbleUp(idx, Pair(i, p), |data|);
      assert data[..|data|] == data;
      RearrangedView(s[idx := Pair(i, p)], m[i := idx], data, iim);
      assert m[i := idx] == m;
    }

    method Increase(i: Item, p: int)
      requires Valid() && i in View() && p >= View()[i]
      modifies this
      ensures Valid() && View() == old(View())[i := p]
      ensures forall x :: Reported(x) == old(Reported(x))
    {
      hide OrderedAround, Rearranged, ChildrenOk, Indexed, Contents, EdgeOk, Ordered;
      ghost var s, m := data, iim;
      InHeap(s, m, i);
      var idx := Ref(iim, i);
      ReplaceEntry(s, m, idx, Pair(i, p));
      OrderedAroundUpdate(s, idx, Pair(i, p));
      assert data[..|data|] == s;
      var hole := BubbleDown(idx, Pair(i, p), |data|);
      assert data[..|data|] == data;
      RearrangedView(s[idx := Pair(i, p)], m[i := idx], data, iim);
      assert m[i := idx] == m;
    }

    method State(i: Item) returns (s: int)
      requires Valid()
      ensures s == Reported(i) && (s == IN_HEAP <==> i in View()) && IN_HEAP == 0
    {
      InHeap(data, iim, i);
      s := Ref(iim, i);
      if s >= 0 {
        s := IN_HEAP;
      }
    }

    method SetState(i: Item, st: int)
      requires Valid() && st in {IN_HEAP, PRE_HEAP, POST_HEAP}
      modifies this
      ensures Valid()
      ensures View() == if st == IN_HEAP then old(View()) else old(View()) - {i}
      ensures Reported(i) == if st == IN_HEAP then old(Reported(i)) else st
      ensures forall x :: x != i ==> Reported(x) == old(Reported(x))
    {
      hide Ordered, Contents, Indexed;
      if st != IN_HEAP {
        var s := State(i);
        if s == IN_HEAP {
          Erase(i);
        }
        assert forall x :: x != i ==> Reported(x) == old(Reported(x));
        ForgetItem(data, iim, i, st);
        iim := iim[i := st];
      }
    }

    /** Item `j` takes the place and the priority of item `i`. */
    method Replace(i: Item, j: Item)
      requires Valid() && i in View() && j !in View()
      modifies this
      ensures Valid() && View() == (old(View()) - {i})[j := old(View())[i]]
      ensures Reported(i) == old(Reported(j))
      ensures forall x :: x != i && x != j ==> Reported(x) == old(Reported(x))
    {
      hide Ordered, Contents, Indexed;
      InHeap(data, iim, i);
      InHeap(data, iim, j);
      var idx := Ref(iim, i);
      RenameEntry(data, iim, idx, j);
      RenameOrdered(data, idx, j);
      iim := iim[i := Ref(iim, j)];
      iim := iim[j := idx];
      data := data[idx := data[idx].(item := j)];
    }
  }

  /** One operation on the heap refines the step on the map. */
  method Perform(h: Heap, op: Op)
    requires h.Valid() && Legal(h.View(), op)
    modifies h
    ensures h.Valid() && Step(old(h.View()), op, h.View())
  {
    hide Ordered, Indexed, Contents, Status;
    match op
    case Push(x, v) => h.Push(Pair(x, v));
    case Pop => h.Pop();
    case Erase(x) => h.Erase(x);
    case Decrease(x, v) => h.Decrease(x, v);
    case Increase(x, v) => h.Increase(x, v);
    case Set(x, v) => h.Set(x, v);
    case SetState(x, st) => h.SetState(x, st);
    case Replace(x, y) => h.Replace(x, y);
  }

  /** Any legal run of operations is a run on the map, and the heap stays valid. */
  method Run(h: Heap, ops: seq<Op>) returns (ghost trace: seq<map<Item, int>>)
    requires h.Valid() && AllLegal(h.View(), ops)
    modifies h
    ensures h.Valid()
    ensures IsRun(ops, trace) && trace[0] == old(h.View()) && trace[|ops|] == h.View()
  {
    hide Ordered, Indexed, Contents, Legal, Step, AllLegal;
    trace := [h.View()];
    assert ops[0..] == ops;
    for k := 0 to |ops|
      invariant h.Valid() && AllLegal(h.View(), ops[k..])
      invariant IsRun(ops[..k], trace) && trace[0] == old(h.View()) && trace[k] == h.View()
    {
      NextLegal(h.View(), ops, k);
      Perform(h, ops[k]);
      RunExtends(ops, trace, k, h.View());
      trace := trace + [h.View()];
    }
    assert ops[..|ops|] == ops;
  }

  /** Popping until the heap is empty yields all items, once, in order of priority. */
  method Drain(h: Heap) returns (out: seq<(Item, int)>)
    requires h.Valid()
    modifies h
    ensures h.Valid() && h.View() == map[] && SortedListing(old(h.View()), out)
  {
    hide Ordered, Contents, Indexed, Status;
    out := [];
    ghost var m := h.View();
    var empty := h.Empty();
    while !empty
      invariant h.Valid() && (empty <==> h.View() == map[])
      invariant |out| + |h.View()| == |m|
      invariant forall x :: x in h.View() ==> x in m && h.View()[x] == m[x]
      invariant forall i, x :: 0 <= i < |out| && x in h.View() ==> out[i].0 != x && out[i].1 <= m[x]
      invariant forall i :: 0 <= i < |out| ==> out[i].0 in m && m[out[i].0] == out[i].1
      invariant forall i, j :: 0 <= i < j < |out| ==> out[i].1 <= out[j].1 && out[i].0 != out[j].0
      decreases |h.View()|
    {
      var t := h.Top();
      var p := h.Get(t);
      out := out + [(t, p)];
      h.Pop();
      empty := h.Empty();
    }
  }
}
