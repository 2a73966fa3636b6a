/** The class `BinomialHeap` of deps/lemon/lemon/binomial_heap.h with integer priorities and `<`. */
module BinomialHeap {
  import opened HeapSpec
  import opened BinomialForest
  import opened BinomialMerge
  import opened BinomialCarry
  import opened BinomialItems
  import opened BinomialPop
  import opened Sequences

  class Heap {
    var data: seq<Store>
    var min: int
    var head: int
    var iim: map<Item, int>  // the cross reference map; an absent item stands for PRE_HEAP
    var numItems: int
    ghost var roots: seq<int>  // the root list from `head` on

    /** Everything but the cached minimum: the slots form a binomial forest with strictly
        increasing root degrees, names and cross references agree, and the counter is
        the number of items and the number of nodes of the root trees. */
    ghost predicate Shape()
      reads this
    {
      && Forest(data, head, roots) && Increasing(data, roots)
      && NamesOk(data, iim)
      && numItems == |View()| && Weight(data, roots) == numItems
    }

    /** The class invariant: besides, the cached minimum holds an item of least priority. */
    ghost predicate Valid()
      reads this
    {
      Shape() && (roots != [] ==> LeastLive(data, min))
    }

    /** The cached minimum is a root, as `Pop` needs it. */
    ghost predicate MinRoot()
      reads this
    {
      roots != [] ==> min in roots
    }

    /** The cached minimum is the leftmost root of least priority. That is what `FindMin`
        returns; it is kept as long as no priority ties with the minimum. */
    ghost predicate MinFirst()
      reads this
    {
      roots != [] ==> Leads(data, roots, min)
    }

    /** The cached minimum is a root after a push of `value`: it is overtaken, or it was a
        root before, and one out of reach of the carry chain that starts at the pushed item,
        or one with no root in front of it that is as small. */
    ghost predicate Survives(value: int)
      reads this
    {
      roots != [] && 0 <= min < |data| ==>
        || value < data[min].prio
        || (min in roots && (!InCarry(data, roots, min) || (value > data[min].prio && MinFirst())))
    }

    /** The abstract heap: the stored items with their priorities. */
    ghost function View(): map<Item, int>
      reads this
    {
      Contents(data, iim)
    }

    ghost function Reported(x: Item): int
      reads this
    {
      Status(data, iim, x)
    }

    lemma NonEmptyRoots()
      requires Shape()
      ensures roots == [] <==> View() == map[]
    {
      assert roots != [] ==> Weight(data, roots) >= 1;
    }

    lemma FirstIsLeast()
      requires Shape() && MinFirst()
      ensures Valid() && MinRoot()
    {
      if roots != [] { LeaderLeast(data, head, roots, min); }
    }

    /** The priority at the cached minimum is the least one. */
    lemma MinIsLeast()
      requires Valid() && View() != map[]
      ensures 0 <= min < |data| && Ties(View(), data[min].prio)
      ensures forall v :: Ties(View(), v) ==> v == data[min].prio
    {
      NonEmptyRoots();
      LeastLiveTies(data, iim, min);
    }

    // ---------- lists ----------

    /** The source's `interleave`: merges the list `q0` starting at `a` into the root list.
        The dummy record it pushes is gone at the end, and no link leads to it. */
    method Interleave(a: int, ghost q0: seq<int>)
      requires Chain(data, head, roots) && Chain(data, a, q0) && NoDup(roots + q0)
      modifies this`data, this`head, this`roots
      ensures roots == Interleaving(old(data), old(roots), q0)
      ensures Chain(data, head, roots)
      ensures Relinked(old(data), data, roots)
    {
      hide Splicing, Chain, NoDup, Interleaving, Relinked;
      var p, q := head, a;
      var curr := |data|;
      ghost var d, l := data, Interleaving(data, roots, q0);
      ghost var ps, qs, out := roots, q0, [];
      SpliceStart(d, p, q, ps, qs, Store(0, -1, -1, -1, 0, true, 0));
      data := data + [Store(0, -1, -1, -1, 0, true, 0)];
      while p != -1 || q != -1
        invariant Splicing(d, data, p, q, curr, out, ps, qs, l) && Readable(data, p, q, curr)
        decreases |ps| + |qs|
      {
        if q == -1 || (p != -1 && data[p].degree < data[q].degree) {
          SpliceLeft(d, data, p, q, curr, out, ps, qs, l);
          data := data[curr := data[curr].(right := p)];
          curr := p;
          out, ps := out + [p], ps[1..];
          p := data[p].right;
        } else {
          SpliceRight(d, data, p, q, curr, out, ps, qs, l);
          data := data[curr := data[curr].(right := q)];
          curr := q;
          out, qs := out + [q], qs[1..];
          q := data[q].right;
        }
      }
      SpliceEnd(d, data, curr, out, ps, qs, l);
      head := data[|data| - 1].right;
      data := data[..|data| - 1];
      roots := out;
    }

    /** The source's `fuse`: laces node `a` under node `b`. */
    method Fuse(a: int, b: int)
      requires 0 <= a < |data| && 0 <= b < |data| && a != b
      modifies this`data
      ensures data == Fused(old(data), a, b)
    {
      data := data[a := data[a].(parent := b)];
      data := data[a := data[a].(right := data[b].child)];
      data := data[b := data[b].(child := a)];
      data := data[b := data[b].(degree := data[b].degree + 1)];
    }

    /** The second half of the source's `merge`: fuses neighbours of equal degree. */
    method Consolidate()
      requires Forest(data, head, roots) && roots != []
      requires NonDecreasing(data, roots) && AtMostTwoFrom(data, roots, 0)
      modifies this`data, this`head, this`roots
      ensures Forest(data, head, roots) && Increasing(data, roots)
      ensures SameItems(old(data), data)
      ensures Weight(data, roots) == Weight(old(data), old(roots))
      ensures forall s :: Leads(old(data), old(roots), s) ==> Leads(data, roots, s)
      ensures OneAndIncreasing(old(data), old(roots)) ==> roots == Carried(old(data), old(roots))
    {
      hide Forest, NonDecreasing, AtMostTwoFrom, Increasing, Kept, Reached, Leads, Weight, SameItems, Without;
      hide Fused, Carried, OneAndIncreasing;
      ghost var d0, l0, k := data, roots, 0;
      ConsolidateStart(data, head, roots);
      if data[head].right == -1 {
        ConsolidateEnd(d0, l0, data, roots, 0);
        KeptParts(d0, l0, data, head, roots);
        return;
      }
      var x := head;
      var prev, next := -1, data[x].right;
      while next != -1
        invariant Kept(d0, l0, data, head, roots) && Reached(d0, l0, data, roots, k) && AtCursor(data, roots, k)
        invariant x == roots[k] && prev == (if k == 0 then -1 else roots[k - 1])
        invariant next == data[x].right
        decreases |roots| - k
      {
        if data[x].degree != data[next].degree
           || (data[next].right != -1 && data[data[next].right].degree == data[x].degree)
        {
          ConsolidateSkip(d0, l0, data, head, roots, k);
          prev := x;
          x := next;
          k := k + 1;
        } else if data[next].prio < data[x].prio {
          ConsolidateThis(d0, l0, data, head, roots, k);
          if prev == -1 {
            head := next;
          } else {
            data := data[prev := data[prev].(right := next)];
          }
          Fuse(x, next);
          x := next;
          roots := Without(roots, k);
        } else {
          ConsolidateNext(d0, l0, data, head, roots, k);
          data := data[x := data[x].(right := data[next].right)];
          Fuse(next, x);
          roots := Without(roots, k + 1);
        }
        next := data[x].right;
      }
      ConsolidateEnd(d0, l0, data, roots, k);
      KeptParts(d0, l0, data, head, roots);
    }

    /** The source's `merge`: splices the root list `q0` starting at `a` into the root list
        and fuses trees of equal degree. */
    method Merge(a: int, ghost q0: seq<int>)
      requires Links(data) && Ordered(data) && ListsRoots(data, roots + q0)
      requires Chain(data, head, roots) && Chain(data, a, q0)
      requires Increasing(data, roots) && Increasing(data, q0)
      modifies this`data, this`head, this`roots
      ensures old(head) == -1 || a == -1 ==> data == old(data) && head == old(head) && roots == old(roots)
      ensures old(head) != -1 && a != -1 ==>
                && Forest(data, head, roots) && Increasing(data, roots)
                && Weight(data, roots) == Weight(old(data), old(roots)) + Weight(old(data), q0)
                && var l := Interleaving(old(data), old(roots), q0);
                   && (forall s :: Leads(old(data), l, s) ==> Leads(data, roots, s))
                   && (OneAndIncreasing(old(data), l) ==> roots == Carried(old(data), l))
      ensures SameItems(old(data), data)
    {
      hide Links, Ordered, ListsRoots, NonDecreasing, AtMostTwoFrom, Leads, Weight, SameItems, Carried;
      if head == -1 || a == -1 {
        SameItemsRefl(data);
        return;
      }
      ghost var d, l := data, Interleaving(data, roots, q0);
      assert NoDup(roots + q0) by { TogetherNoDup(data, roots, q0, a); }
      if data[a].right == -1 && data[a].degree <= data[head].degree {
        TogetherNoDup(data, roots, q0, a);
        SingleList(data, a, q0);
        InterleavingSingle(data, roots, a);
        ChainPrepend(data, head, roots, a);
        data := data[a := data[a].(right := head)];
        head := a;
        roots := [a] + roots;
      } else {
        Interleave(a, q0);
      }
      ghost var e := data;
      SplicedForest(d, old(roots), q0, e, head);
      Consolidate();
      SameItemsTrans(d, e, data);
    }

    // ---------- operations ----------

    /** The first part of the source's `push`: writes the record of the pushed item. */
    method Enter(item: Item, value: int) returns (i: int)
      requires NamesOk(data, iim)
      modifies this`data, this`iim
      ensures Entered(old(data), old(iim), item, value, data, iim, i)
    {
      i := Ref(iim, item);
      if i < 0 {
        var s := |data|;
        iim := iim[item := s];
        data := data + [Store(item, -1, -1, -1, 0, true, value)];
        i := s;
      } else {
        RefInRange(data, iim, item);
        data := data[i := data[i].(parent := -1, right := -1, child := -1)];
        data := data[i := data[i].(degree := 0)];
        data := data[i := data[i].(live := true)];
        data := data[i := data[i].(prio := value)];
      }
    }

    /** Inserts an item that is not stored. Everything is right for every priority but one
        thing: whether the cached minimum is still a root, which is told exactly. */
    method Push(item: Item, value: int)
      requires Valid() && item !in View()
      modifies this
      ensures Valid() && View() == old(View())[item := value]
      ensures forall x :: x != item ==> Reported(x) == old(Reported(x))
      ensures MinRoot() <==> old(Survives(value))
      ensures old(View()) != map[] && value < old(data[min].prio) ==> MinFirst()
      ensures old(MinFirst()) ==> (MinFirst() <==> !Ties(old(View()), value))
    {
      hide Forest, Increasing, NamesOk, Leads, Status, Contents, Entered, Interleaving, SameItems, Ties;
      hide Links, Ordered, ListsRoots, LeastLive, InCarry, Carried, NoDup, Weight;
      ghost var d, jjm, h, l, m := data, iim, head, roots, min;
      NonEmptyRoots();
      var i := Enter(item, value);
      ghost var e := data;
      EnteredForest(d, jjm, item, value, e, iim, i, h, l);
      EnteredNames(d, jjm, item, value, e, iim, i);
      if l != [] { FirstDegree(d, h, l); }
      EnteredLists(d, e, l, i);
      assert numItems == 0 <==> l == [];
      if numItems == 0 {
        NoTies(Contents(d, jjm), value);
        SingleForest(e, i);
        LeaderLeast(e, i, [i], i);
        head := i;
        min := i;
        roots := [i];
      } else {
        Merge(i, [i]);
        SameItemsSameContents(e, data, iim);
        FrontIncreasing(e, i, l);
        PushedMin(d, jjm, h, l, m, e, i, data, roots);
        if data[i].prio < data[min].prio {
          min := i;
        }
      }
      numItems := numItems + 1;
    }

    /** The source's `findMin`: the leftmost root of least priority, or -1. */
    method FindMin() returns (loc: int)
      requires Chain(data, head, roots)
      ensures roots == [] ==> loc == -1
      ensures roots != [] ==> Leads(data, roots, loc)
    {
      if head == -1 {
        return -1;
      }
      loc := head;
      var val := data[head].prio;
      assert LinkOk(data, roots, 0);
      var x := data[head].right;
      ghost var k, m := 1, 0;
      while x != -1
        invariant 1 <= k <= |roots| && x == if k < |roots| then roots[k] else -1
        invariant 0 <= m < k && loc == roots[m] && val == data[loc].prio
        invariant forall j :: 0 <= j < m ==> val < data[roots[j]].prio
        invariant forall j :: m <= j < k ==> val <= data[roots[j]].prio
        decreases |roots| - k
      {
        assert LinkOk(data, roots, k);
        if data[x].prio < val {
          val := data[x].prio;
          loc := x;
          m := k;
        }
        x := data[x].right;
        k := k + 1;
      }
      assert IsLeader(data, roots, m);
    }

    /** The source's `unlace`: takes a root that is not the first out of the root list. If
        `a` is no root at all, the source's search follows the link -1 out of the array;
        `ok` is false then. */
    method Unlace(a: int) returns (ok: bool, ghost k: nat)
      requires Chain(data, head, roots) && NoDup(roots) && roots != [] && 0 <= a < |data| && head != a
      modifies this`data, this`roots
      ensures ok <==> a in old(roots)
      ensures ok ==> 0 < k < |old(roots)| && old(roots)[k] == a && roots == Without(old(roots), k)
      ensures ok ==>
                var p := old(roots)[k - 1];
                0 <= p < |old(data)| && data == old(data)[p := old(data)[p].(right := old(data)[a].right)]
      ensures !ok ==> data == old(data) && roots == old(roots)
    {
      var neighb := data[a].right;
      var other := head;
      k := 1;
      assert LinkOk(data, roots, 0);
      while other != -1 && data[other].right != a
        invariant 1 <= k <= |roots| + 1
        invariant forall j :: 0 <= j < k && j < |roots| ==> roots[j] != a
        invariant other == (if k <= |roots| then roots[k - 1] else -1)
        invariant k <= |roots| ==> LinkOk(data, roots, k - 1)
        decreases |roots| + 1 - k
      {
        other := data[other].right;
        if k < |roots| { assert LinkOk(data, roots, k); }
        k := k + 1;
      }
      ok := other != -1;
      if ok {
        data := data[other := data[other].(right := neighb)];
        roots := Without(roots, k);
      }
    }

    /** The reversal loop of `pop`: detaches the children of the slot just marked as out
        and returns the start of their list, now in increasing order of degree. */
    method DetachChildren(ghost d: seq<Store>) returns (headChild: int, ghost done: seq<int>)
      requires Links(d) && Live(d, min) && data == d[min := d[min].(live := false)]
      modifies this`data
      ensures Reversing(d, min, data, -1, headChild, done)
    {
      hide Links, Detached, Chain;
      headChild, done := -1, [];
      ReverseStart(d, min);
      var child := data[min].child;
      while child != -1
        invariant Reversing(d, min, data, child, headChild, done)
        decreases Deg(d, min) - |done|
      {
        ReverseStep(d, min, data, child, headChild, done);
        ghost var e := data;
        var neighb := data[child].right;
        data := data[child := data[child].(parent := -1)];
        data := data[child := data[child].(right := headChild)];
        assert data == e[child := e[child].(parent := -1, right := headChild)];
        done := [child] + done;
        headChild := child;
        child := neighb;
      }
    }

    /** The first part of the source's `pop`: takes the cached minimum out of the forest. If
        it is no root, either the only root is lost or the search of `Unlace` fails. */
    method RemoveRoot() returns (ok: bool)
      requires Forest(data, head, roots) && Increasing(data, roots) && NamesOk(data, iim) && Live(data, min)
      modifies this`data, this`head, this`roots
      ensures ok <==> min in old(roots) || |old(roots)| == 1
      ensures ok ==> Removed(old(data), iim, old(data)[min].name, data) && Chain(data, head, roots)
      ensures min in old(roots) ==>
                && Forest(data, head, roots) && Increasing(data, roots)
                && Weight(data, roots) + 1 == Weight(old(data), old(roots))
      ensures ok && min !in old(roots) ==>
                && |roots| == Deg(old(data), min)
                && IsRoot(data, old(head)) && old(head) in old(roots) && old(head) !in roots
    {
      hide Forest, Links, Ordered, Increasing, NamesOk, Leads, Removed, SameItems, Reversing, Leftover;
      hide ListsRoots, Weight, Chain, Interleaving, Without, Live, IsRoot;
      ghost var d, l := data, roots;
      ForestParts(d, head, l);
      LiveInRange(d, min);
      data := data[min := data[min].(live := false)];
      ghost var done;
      var headChild;
      headChild, done := DetachChildren(d);
      ghost var k := 0;
      if min in l {
        k := PositionIn(l, min);
        RootLeftover(d, head, l, k, data, headChild, done);
      } else {
        StaleList(d, head, l, min, data, headChild, done);
        RemovedNames(d, iim, min, data);
      }
      if data[head].right == -1 {
        if min in l { LeftoverAlone(d, iim, l, 0, data, data[head].right, Without(l, 0), headChild, done); }
        head := headChild;
        roots := done;
        ok := true;
      } else {
        if head != min {
          ghost var j;
          ok, j := Unlace(min);
          if !ok {
            return;
          }
          assert j == k;
        } else {
          head := data[head].right;
          roots := Without(roots, 0);
          ok := true;
        }
        LeftoverAlone(d, iim, l, k, data, head, roots, headChild, done);
        LeftoverParts(d, l, k, data, head, roots, headChild, done);
        ghost var e := data;
        Merge(headChild, done);
        RemovedSame(d, iim, d[min].name, e, data);
        if head != -1 || headChild != -1 { ForestChain(data, head, roots); }
      }
    }

    /** Removes the item at the cached minimum and recomputes the minimum. This works if and
        only if the cached minimum is a root. If it is not, and there is one root, the pop
        returns with that root lost from the list; if there are more, the source's search
        runs off the list (`ok` is false). */
    method Pop() returns (ok: bool)
      requires Valid() && View() != map[]
      modifies this
      ensures ok <==> old(MinRoot()) || |old(roots)| == 1
      ensures old(MinRoot()) <==> ok && Valid()
      ensures old(MinRoot()) ==> MinFirst() && MinRoot()
      ensures Least(old(View()), old(data[min].name))
      ensures ok ==> View() == old(View()) - {old(data[min].name)} && Reported(old(data[min].name)) == POST_HEAP == -2
      ensures ok ==> forall x :: x != old(data[min].name) ==> Reported(x) == old(Reported(x))
      ensures ok && roots == [] ==> head == -1 && min == -1
      ensures ok && !old(MinRoot()) ==>
                && Chain(data, head, roots) && |roots| == Deg(old(data), old(min))
                && IsRoot(data, old(head)) && old(head) in old(roots) && old(head) !in roots
                && numItems == |View()|
    {
      hide Forest, Increasing, NamesOk, Leads, Status, Contents, Weight, Chain, LeastLive, IsRoot;
      NonEmptyRoots();
      LeastLiveTies(data, iim, min);
      ok := RemoveRoot();
      if ok {
        ghost var stale := min !in old(roots);
        EmptyChain(data, head, roots);
        min := FindMin();
        numItems := numItems - 1;
        if stale { LostRoot(data, head, roots, old(head)); } else { FirstIsLeast(); }
      }
    }

    /** Lowers the priority of a stored item by letting it climb: names and priorities move
        between slots, no link changes. The cached minimum stays a root, and becomes one if
        the item is smaller; it stays the leftmost least root unless the item ties with it in
        a tree to its left. */
    method Decrease(item: Item, value: int)
      requires Valid() && item in View() && value <= View()[item]
      modifies this`data, this`iim, this`min
      ensures Valid() && View() == old(View())[item := value]
      ensures SameLinks(old(data), data)
      ensures value <= data[old(iim[item])].prio
      ensures forall x :: Reported(x) == old(Reported(x))
      ensures MinRoot() <==> old(MinRoot()) || value < old(data[min].prio)
      ensures value < old(data[min].prio) ==> MinFirst()
      ensures old(MinFirst()) ==>
                (MinFirst() <==> !Ties(old(View()), value) || !LeftOf(roots, old(RootOf(data, iim[item])), old(min)))
    {
      hide Forest, Links, Increasing, NamesOk, Leads, Status, Weight, Climbing, SameLinks, Contents, Ties;
      hide LeftOf, RootOf, LeastLive;
      ghost var d, jjm, m := data, iim, min;
      NonEmptyRoots();
      LeastLiveTies(data, iim, min);
      DecreaseStart(d, jjm, head, roots, item, value);
      var i := iim[item];
      var p := data[i].parent;
      data := data[i := data[i].(prio := value)];
      ghost var r := RootOf(d, i);
      while p != -1 && value < data[p].prio
        invariant Climbing(d, jjm, item, value, data, iim, i)
        invariant Standing(data, i) && p == data[i].parent
        invariant 0 <= jjm[item] < |data| && value <= data[jjm[item]].prio
        invariant min == m && |data| == |d| && Live(d, i) && RootOf(d, i) == r
        decreases MaxDeg(d) - Deg(d, i)
      {
        DecreaseStep(d, jjm, item, value, data, iim, i);
        ghost var e := data;
        data := data[i := data[i].(name := data[p].name)];
        data := data[i := data[i].(prio := data[p].prio)];
        data := data[p := data[p].(name := item)];
        data := data[p := data[p].(prio := value)];
        assert data == Swapped(e, i, p, item, value);
        iim := iim[data[i].name := i];
        i := p;
        p := data[p].parent;
      }
      DecreaseEnd(d, jjm, head, roots, item, value, data, iim, i, m);
      iim := iim[item := i];
      if value < data[min].prio {
        min := i;
      }
    }

    /** Removes an item; an item that is not stored is left alone. Lowering the item first
        makes the cached minimum a root again, so the pop never fails. */
    method Erase(item: Item)
      requires Valid()
      modifies this
      ensures Valid() && View() == old(View()) - {item}
      ensures item in old(View()) ==> MinFirst() && MinRoot()
      ensures item !in old(View()) ==>
                data == old(data) && min == old(min) && head == old(head) && iim == old(iim) && roots == old(roots)
      ensures item in old(View()) ==> Reported(item) == POST_HEAP
      ensures forall x :: x != item || item !in old(View()) ==> Reported(x) == old(Reported(x))
    {
      hide Forest, Increasing, NamesOk, Leads, Weight, SameLinks, LeftOf, Contents, RootOf, LeastLive;
      InHeap(data, iim, item);
      var i := Ref(iim, item);
      if i >= 0 {
        RefInRange(data, iim, item);
        if data[i].live {
          NonEmptyRoots();
          LeastLiveTies(data, iim, min);
          ghost var v := data[min].prio;
          Decrease(item, data[min].prio - 1);
          NonEmptyRoots();
          LeastLiveTies(data, iim, min);
          TiesBelow(old(View()), v, item, data[min].name);
          var ok := Pop();
        }
      }
    }

    /** Raises the priority of a stored item: takes it out and puts it back. In between there
        are the roots `l` in `d` with `m` as the leftmost least one. */
    method Increase(item: Item, value: int) returns (ghost d: seq<Store>, ghost l: seq<int>, ghost m: int)
      requires Valid() && item in View()
      modifies this
      ensures Valid() && View() == old(View())[item := value]
      ensures forall x :: x != item ==> Reported(x) == old(Reported(x))
      ensures MinFirst() <==> !Ties(old(View()) - {item}, value)
      ensures ListsRoots(d, l) && Increasing(d, l) && Weight(d, l) + 1 == |old(View())| && (l != [] ==> Leads(d, l, m))
      ensures MinRoot() <==> !Ties(old(View()) - {item}, value) || !InCarry(d, l, m)
    {
      hide Forest, Increasing, NamesOk, Leads, Weight, Status, Contents, LeastLive, InCarry, ListsRoots, Ties;
      Erase(item);
      d, l, m := data, roots, min;
      NonEmptyRoots();
      ForestParts(d, head, l);
      if l != [] { LeastLiveTies(d, iim, m); } else { NoTies(View(), value); }
      Push(item, value);
      assert old(View())[item := value] == (old(View()) - {item})[item := value];
    }

    /** Sets the priority of an item, inserting it if it is not stored. The slot is read
        again after `Decrease` has possibly moved another item into it; `Increase` then
        never runs as well. For a raised item, `d`, `l` and `m` are as in `Increase`. */
    method Set(item: Item, value: int) returns (ghost d: seq<Store>, ghost l: seq<int>, ghost m: int)
      requires Valid()
      modifies this
      ensures Valid() && View() == old(View())[item := value]
      ensures forall x :: x != item ==> Reported(x) == old(Reported(x))
      ensures item in old(View()) && value <= old(View())[item] ==>
                && SameLinks(old(data), data)
                && (MinRoot() <==> old(MinRoot()) || value < old(data[min].prio))
      ensures item in old(View()) && value > old(View())[item] ==>
                && ListsRoots(d, l) && Increasing(d, l) && Weight(d, l) + 1 == |old(View())|
                && (l != [] ==> Leads(d, l, m))
                && (MinFirst() <==> !Ties(old(View()) - {item}, value))
                && (MinRoot() <==> !Ties(old(View()) - {item}, value) || !InCarry(d, l, m))
      ensures item !in old(View()) ==> (MinRoot() <==> old(Survives(value)))
      ensures old(View()) != map[] && value < old(data[min].prio) ==> MinFirst()
      ensures old(MinFirst()) ==>
                (MinFirst() <==>
                 var v := old(View());
                 if item !in v then !Ties(v, value)
                 else if value < v[item] then
                   !Ties(v, value) || !LeftOf(old(roots), old(RootOf(data, iim[item])), old(min))
                 else value == v[item] || !Ties(v - {item}, value))
    {
      hide Forest, Increasing, Leads, Weight, LeftOf, Ties, LeastLive, InCarry, ListsRoots;
      d, l, m := data, roots, min;
      NonEmptyRoots();
      if roots != [] { LeastLiveTies(data, iim, min); }
      InHeap(data, iim, item);
      var i := Ref(iim, item);
      if i >= 0 && data[i].live {
        if value < data[i].prio {
          Decrease(item, value);
        }
        if data[i].prio < value {
          d, l, m := Increase(item, value);
        }
      } else {
        Push(item, value);
      }
    }

    /** The item that the next `Pop` removes. */
    method Top() returns (t: Item)
      requires Valid() && View() != map[]
      ensures t == data[min].name && Least(View(), t)
    {
      NonEmptyRoots();
      LeastLiveTies(data, iim, min);
      t := data[min].name;
    }

    method Prio() returns (v: int)
      requires Valid() && View() != map[]
      ensures Ties(View(), v)
    {
      NonEmptyRoots();
      LeastLiveTies(data, iim, min);
      v := data[min].prio;
    }

    method Get(item: Item) returns (v: int)
      requires Shape() && item in View()
      ensures v == View()[item]
    {
      v := data[iim[item]].prio;
    }

    method Size() returns (n: int)
      requires Shape()
      ensures n == |View()|
    {
      n := numItems;
    }

    method Empty() returns (e: bool)
      requires Shape()
      ensures e <==> View() == map[]
    {
      e := numItems == 0;
    }

    /** IN_HEAP exactly for the stored items. */
    method State(item: Item) returns (s: int)
      requires Shape()
      ensures s == Reported(item)
      ensures (s == IN_HEAP <==> item in View()) && IN_HEAP == 0
    {
      InHeap(data, iim, item);
      s := Ref(iim, item);
      if s >= 0 {
        s := if data[s].live then IN_HEAP else POST_HEAP;
      }
    }

    /** Takes an item out of the heap by hand and records the given state for it. */
    method SetState(item: Item, st: int)
      requires Valid() && st in {IN_HEAP, PRE_HEAP, POST_HEAP}
      modifies this
      ensures Valid() && (old(MinFirst()) ==> MinFirst()) && (old(MinRoot()) ==> MinRoot())
      ensures st != IN_HEAP && item in old(View()) ==> MinFirst() && MinRoot()
      ensures View() == if st == IN_HEAP then old(View()) else old(View()) - {item}
      ensures Reported(item) == if st == IN_HEAP then old(Reported(item)) else st
      ensures forall x :: x != item ==> Reported(x) == old(Reported(x))
    {
      hide Forest, Increasing, NamesOk, Leads, Weight, Status, Contents;
      if st != IN_HEAP {
        var s := State(item);
        if s == IN_HEAP {
          Erase(item);
        }
        ghost var jjm := iim;
        assert forall x :: x != item ==> Reported(x) == old(Reported(x));
        assert forall x :: Reported(x) == Status(data, jjm, x);
        ForgetItem(data, iim, item, st);
        iim := iim[item := st];
      }
    }

    constructor (m: map<Item, int>)
      requires forall x :: x in m ==> m[x] == PRE_HEAP
      ensures Valid() && MinFirst() && View() == map[] && head == -1 && min == 0
      ensures forall x :: Reported(x) == PRE_HEAP == -1
    {
      data, min, head, numItems := [], 0, -1, 0;
      iim := m;
      roots := [];
      new;
      assert forall x :: x !in View();
    }
  }
}
