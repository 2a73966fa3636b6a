/** The class `ResidualDigraph` of deps/lemon/lemon/adaptors.h: the undirected view of a digraph with
    the arcs of no residual capacity hidden, over a flow that `augment` updates. */
module Residual {
  import opened Cursors
  import opened Digraphs
  import opened Flows
  import U = Undirector
  import SubDigraph
  import opened Sequences

  type UArc = U.UArc

  class ResidualDigraph {
    const g: Digraph
    const capacity: Flow
    var flow: Flow

    ghost predicate Valid()
      reads this
    {
      g.Valid() && OnArcs(g, capacity) && OnArcs(g, flow)
    }

    constructor (g: Digraph, capacity: Flow, flow: Flow)
      requires g.Valid() && OnArcs(g, capacity) && OnArcs(g, flow)
      ensures Valid() && this.g == g && this.capacity == capacity && this.flow == flow
    {
      this.g, this.capacity, this.flow := g, capacity, flow;
    }

    // ---------- filters ----------

    function NodeFilter(): Node -> bool {
      (n: Node) => true
    }

    /** The two residual filters, combined by direction. */
    function ArcFilter(): UArc -> bool
      reads this
    {
      var cap, f := capacity, flow;
      (a: UArc) => a.edge in cap && a.edge in f && if a.forward then cap[a.edge] - f[a.edge] > 0 else f[a.edge] > 0
    }

    // ---------- the arcs at a node ----------

    /** The residual arcs that leave `n`, in the order of the cursor. */
    ghost function OutList(n: Node): seq<UArc>
      requires n in g.outs && n in g.ins
      reads this
    {
      SubDigraph.OutList(g, NodeFilter(), ArcFilter(), n)
    }

    ghost function InList(n: Node): seq<UArc>
      requires n in g.outs && n in g.ins
      reads this
    {
      SubDigraph.InList(g, NodeFilter(), ArcFilter(), n)
    }

    /** Both lists hold exactly the incident arcs of positive residual capacity, once each. */
    lemma ResidualArcs(n: Node)
      requires Valid() && n in g.nodes
      ensures NoDup(OutList(n)) && NoDup(InList(n))
      ensures forall a :: a in OutList(n) <==> Residual(g, capacity, flow, a) && U.Source(g, a) == n
      ensures forall a :: a in InList(n) <==> Residual(g, capacity, flow, a) && U.Target(g, a) == n
    {
      SubDigraph.ListedOnce(g, NodeFilter(), ArcFilter(), n);
      forall a ensures Residual(g, capacity, flow, a) <==> a.edge in g.arcs && ArcFilter()(a) {
      }
    }

    method FirstOut(n: Node) returns (a: UArc)
      requires Valid() && n in g.nodes
      ensures a == HeadOr(OutList(n), U.NO_ARC)
    {
      a := SubDigraph.FirstOut(g, NodeFilter(), ArcFilter(), n);
    }

    method NextOut(ghost n: Node, a: UArc) returns (b: UArc)
      requires Valid() && n in g.nodes && a in OutList(n)
      ensures b == After(OutList(n), a, U.NO_ARC)
    {
      b := SubDigraph.NextOut(g, NodeFilter(), ArcFilter(), n, a);
    }

    method FirstIn(n: Node) returns (a: UArc)
      requires Valid() && n in g.nodes
      ensures a == HeadOr(InList(n), U.NO_ARC)
    {
      a := SubDigraph.FirstIn(g, NodeFilter(), ArcFilter(), n);
    }

    method NextIn(ghost n: Node, a: UArc) returns (b: UArc)
      requires Valid() && n in g.nodes && a in InList(n)
      ensures b == After(InList(n), a, U.NO_ARC)
    {
      b := SubDigraph.NextIn(g, NodeFilter(), ArcFilter(), n, a);
    }

    lemma NotResidual()
      requires Valid()
      ensures !Residual(g, capacity, flow, U.NO_ARC)
    {
      assert INVALID !in g.arcs;
    }

    /** The loop every algorithm runs: all residual arcs out of a node, each exactly once. */
    method OutArcs(n: Node) returns (l: seq<UArc>)
      requires Valid() && n in g.nodes
      ensures NoDup(l)
      ensures forall a :: a in l <==> Residual(g, capacity, flow, a) && U.Source(g, a) == n
    {
      hide OutList, Residual, U.Source, U.Target, NoDup, Collected, HeadOr, After;
      ghost var all := OutList(n);
      ResidualArcs(n);
      NotResidual();
      l := [];
      var a := FirstOut(n);
      CollectStart(all, U.NO_ARC);
      while a != U.NO_ARC
        invariant Collected(all, l, a, U.NO_ARC)
        decreases |all| - |l|
      {
        CollectStep(all, l, a, U.NO_ARC);
        l := l + [a];
        a := NextOut(n, a);
      }
      CollectEnd(all, l, U.NO_ARC);
    }

    method InArcs(n: Node) returns (l: seq<UArc>)
      requires Valid() && n in g.nodes
      ensures NoDup(l)
      ensures forall a :: a in l <==> Residual(g, capacity, flow, a) && U.Target(g, a) == n
    {
      hide InList, Residual, U.Source, U.Target, NoDup, Collected, HeadOr, After;
      ghost var all := InList(n);
      ResidualArcs(n);
      NotResidual();
      l := [];
      var a := FirstIn(n);
      CollectStart(all, U.NO_ARC);
      while a != U.NO_ARC
        invariant Collected(all, l, a, U.NO_ARC)
        decreases |all| - |l|
      {
        CollectStep(all, l, a, U.NO_ARC);
        l := l + [a];
        a := NextIn(n, a);
      }
      CollectEnd(all, l, U.NO_ARC);
    }

    // ---------- flow ----------

    method ResidualCapacity(a: UArc) returns (c: int)
      requires Valid() && a.edge in g.arcs
      ensures c == ResCap(capacity, flow, a)
      ensures c > 0 <==> Residual(g, capacity, flow, a)
      ensures 0 <= flow[a.edge] <= capacity[a.edge] ==>
                forall v: nat :: v <= c <==> 0 <= Augmented(flow, a, v)[a.edge] <= capacity[a.edge]
    {
      if a.forward {
        c := capacity[a.edge] - flow[a.edge];
      } else {
        c := flow[a.edge];
      }
    }

    method Augment(a: UArc, v: int)
      requires Valid() && a.edge in g.arcs
      modifies this
      ensures Valid() && flow == Augmented(old(flow), a, v)
    {
      if a.forward {
        flow := flow[a.edge := flow[a.edge] + v];
      } else {
        flow := flow[a.edge := flow[a.edge] - v];
      }
    }

    /** Augmenting arc by arc along a residual walk from `s` to `t`: see `AugmentKeepsFlow`. */
    method AugmentAlong(p: seq<UArc>, d: nat, ghost s: Node, ghost t: Node)
      requires Valid() && s != t && Feasible(g, capacity, flow, s, t)
      requires Walk(g, capacity, flow, s, p, t) && NoDup(p)
      requires forall a :: a in p && a.edge in flow ==> ResCap(capacity, flow, a) >= d
      modifies this
      ensures Valid() && Feasible(g, capacity, flow, s, t)
      ensures Net(g, flow, s) == old(Net(g, flow, s)) + d
    {
      ghost var f := flow;
      AugmentKeepsFlow(g, capacity, f, s, t, p, d);
      hide Feasible, Walk, Net, NoDup, Digraph.Valid;
      var k := 0;
      assert p[0..] == p;
      while k < |p|
        invariant 0 <= k <= |p| && Valid()
        invariant forall a :: a in p[k..] ==> a.edge in flow
        invariant AugmentedAll(flow, p[k..], d) == AugmentedAll(f, p, d)
      {
        var a := p[k];
        assert a in p && p[k..][0] == a && p[k..][1..] == p[k + 1..];
        Augment(a, d);
        k := k + 1;
      }
    }

    /** The least residual capacity on the path, from the largest `int` down. */
    method Bottleneck(p: seq<UArc>) returns (d: int)
      requires Valid() && forall a :: a in p ==> a.edge in g.arcs
      ensures d <= INT_MAX && forall a :: a in p ==> d <= ResCap(capacity, flow, a)
      ensures d == INT_MAX || exists a :: a in p && d == ResCap(capacity, flow, a)
      ensures (exists a :: a in p && ResCap(capacity, flow, a) <= 0x7fff_ffff) ==>
                exists a :: a in p && d == ResCap(capacity, flow, a)
      ensures (forall a :: a in p ==> ResCap(capacity, flow, a) > 0x7fff_ffff) ==> d == 0x7fff_ffff
    {
      d := INT_MAX;
      for k := 0 to |p|
        invariant d <= INT_MAX && forall j :: 0 <= j < k ==> d <= ResCap(capacity, flow, p[j])
        invariant d == INT_MAX || exists a :: a in p && d == ResCap(capacity, flow, a)
      {
        var a := p[k];
        assert a in p;
        var c := ResidualCapacity(a);
        if c < d {
          d := c;
        }
      }
    }

    /** Augments along the paths that `search` finds until there is none: the flow ends up
        maximum, and `value` is what it has gained. */
    method MaximumFlow(search: Flow -> seq<UArc>, s: Node, t: Node) returns (value: int)
      requires Valid() && s in g.nodes && s != t && Feasible(g, capacity, flow, s, t)
      requires Finds(search, g, capacity, s, t)
      modifies this
      ensures Valid() && Feasible(g, capacity, flow, s, t) && value == Net(g, flow, s) - old(Net(g, flow, s))
      ensures !Reaches(g, capacity, flow, s, t)
      ensures CutCapacity(g, capacity, ReachSet(g, capacity, flow, s)) == Net(g, flow, s)
      ensures forall h :: Feasible(g, capacity, h, s, t) ==> Net(g, h, s) <= Net(g, flow, s)
    {
      hide Digraph.Valid, Feasible, Walk, Reaches, Finds, NoDup, Net, CutCapacity, ReachSet, Residual, AugmentedAll;
      value := 0;
      var p := search(flow);
      FoundPath(search, g, capacity, flow, s, t);
      while p != []
        invariant Valid() && Feasible(g, capacity, flow, s, t) && p == search(flow)
        invariant value == Net(g, flow, s) - old(Net(g, flow, s))
        invariant p == [] ==> !Reaches(g, capacity, flow, s, t)
        invariant p != [] ==> PathOk(g, capacity, flow, s, t, p)
        decreases CutCapacity(g, capacity, {s}) - Net(g, flow, s)
      {
        var min := Bottleneck(p);
        AugmentProgress(g, capacity, flow, s, t, p, min);
        AugmentAlong(p, min, s, t);
        value := value + min;
        p := search(flow);
        FoundPath(search, g, capacity, flow, s, t);
      }
      UnreachableIsMinCut(g, capacity, flow, s, t);
    }
  }

  const INT_MAX := 0x7fff_ffff

  /** An arc-distinct path of residual arcs from `s` to `t`. */
  ghost predicate PathOk(g: Digraph, cap: Flow, f: Flow, s: Node, t: Node, p: seq<UArc>) {
    && p != [] && Walk(g, cap, f, s, p, t) && NoDup(p)
    && (forall a :: a in p ==> a.edge in g.arcs && a.edge in cap && a.edge in f && ResCap(cap, f, a) > 0)
  }

  /** What a path search does: it finds an arc-distinct residual walk if there is one. */
  ghost predicate Finds(search: Flow -> seq<UArc>, g: Digraph, cap: Flow, s: Node, t: Node) {
    forall f :: Feasible(g, cap, f, s, t) ==>
      var p := search(f);
      if Reaches(g, cap, f, s, t) then Walk(g, cap, f, s, p, t) && NoDup(p) else p == []
  }

  lemma FoundPath(search: Flow -> seq<UArc>, g: Digraph, cap: Flow, f: Flow, s: Node, t: Node)
    requires g.Valid() && s != t && Finds(search, g, cap, s, t) && Feasible(g, cap, f, s, t)
    ensures var p := search(f); if p == [] then !Reaches(g, cap, f, s, t) else PathOk(g, cap, f, s, t, p)
  {
    var p := search(f);
    if p != [] {
      forall a | a in p
        ensures a.edge in g.arcs && a.edge in cap && a.edge in f && ResCap(cap, f, a) > 0
      {
        var k :| 0 <= k < |p| && p[k] == a;
        WalkResidual(g, cap, f, s, p, t, k);
      }
    }
  }
}
