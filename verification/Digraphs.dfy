/** The base digraph every adaptor of deps/lemon/lemon/adaptors.h works on: finite node and arc sets,
    with fixed duplicate-free orders for all nodes, all arcs, the out-arcs and the in-arcs
    of a node. Nodes and arcs are their ids; INVALID is -1. */
module Digraphs {
  import opened Cursors
  import opened Sequences

  type Node = int
  type Arc = int

  const INVALID := -1

  /** Every arc has a node as its end. */
  ghost predicate Ends(nodes: seq<Node>, arcs: seq<Arc>, ends: map<Arc, Node>) {
    && (forall a :: a in arcs <==> a in ends)
    && (forall a :: a in arcs ==> ends[a] in nodes)
  }

  /** Every node has a list of the arcs that end there. */
  ghost predicate Lists(nodes: seq<Node>, arcs: seq<Arc>, ends: map<Arc, Node>, lists: map<Node, seq<Arc>>)
    requires Ends(nodes, arcs, ends)
  {
    && (forall n :: n in nodes <==> n in lists)
    && (forall n :: n in nodes ==> NoDup(lists[n]))
    && (forall n, a :: n in nodes ==> (a in lists[n] <==> a in arcs && ends[a] == n))
  }

  datatype Digraph = Digraph(nodes: seq<Node>, arcs: seq<Arc>,
                             src: map<Arc, Node>, tgt: map<Arc, Node>,
                             outs: map<Node, seq<Arc>>, ins: map<Node, seq<Arc>>)
  {
    ghost predicate Valid() {
      && NoDup(nodes) && NoDup(arcs)
      && (forall n :: n in nodes ==> n >= 0)
      && (forall a :: a in arcs ==> a >= 0)
      && Ends(nodes, arcs, src) && Lists(nodes, arcs, src, outs)
      && Ends(nodes, arcs, tgt) && Lists(nodes, arcs, tgt, ins)
    }

    function FirstArc(): Arc {
      HeadOr(arcs, INVALID)
    }

    function NextArc(a: Arc): Arc {
      After(arcs, a, INVALID)
    }

    function FirstNode(): Node {
      HeadOr(nodes, INVALID)
    }

    function NextNode(n: Node): Node {
      After(nodes, n, INVALID)
    }

    function FirstOut(n: Node): Arc
      requires n in outs
    {
      HeadOr(outs[n], INVALID)
    }

    function NextOut(a: Arc): Arc
      requires a in src && src[a] in outs
    {
      After(outs[src[a]], a, INVALID)
    }

    function FirstIn(n: Node): Arc
      requires n in ins
    {
      HeadOr(ins[n], INVALID)
    }

    function NextIn(a: Arc): Arc
      requires a in tgt && tgt[a] in ins
    {
      After(ins[tgt[a]], a, INVALID)
    }

    function ToNode(v: Node): Arc -> bool {
      (a: Arc) => a in tgt && tgt[a] == v
    }

    /** The arcs from `u` to `v` in the order of the out-arcs of `u`. */
    ghost function Parallel(u: Node, v: Node): seq<Arc>
      requires u in outs
    {
      Filter(outs[u], ToNode(v))
    }

    /** What `findArc` returns: the first arc from `u` to `v`, or the one after `prev`. */
    ghost function FindArc(u: Node, v: Node, prev: Arc): Arc
      requires u in outs
    {
      if prev == INVALID then HeadOr(Parallel(u, v), INVALID) else After(Parallel(u, v), prev, INVALID)
    }
  }

  /** The largest id in use, or -1. */
  function MaxId(s: seq<int>): (m: int)
    ensures m >= -1 && forall x :: x in s ==> x <= m
    ensures m != -1 ==> m in s
  {
    if s == [] then -1
    else
      var x, m := s[0], MaxId(s[1..]);
      assert x in s && s == [x] + s[1..];
      if m < x then x else m
  }

  /** The view `ReverseDigraphBase`: sources and targets, out-arcs and in-arcs exchanged. */
  function Reverse(g: Digraph): Digraph {
    Digraph(g.nodes, g.arcs, g.tgt, g.src, g.ins, g.outs)
  }

  /** Reversing gives a digraph, and reversing twice gives the digraph back. */
  lemma ReverseValid(g: Digraph)
    requires g.Valid()
    ensures Reverse(g).Valid() && Reverse(Reverse(g)) == g
  {
    hide Ends, Lists;
  }

  /** The arcs from `v` to `u` are, once each, the arcs from `u` to `v` of the reversed digraph. */
  lemma ReverseParallel(g: Digraph, u: Node, v: Node)
    requires g.Valid() && u in g.nodes && v in g.nodes
    ensures v in g.outs && NoDup(g.Parallel(v, u))
    ensures var h := Reverse(g);
            forall a :: a in g.Parallel(v, u) <==>
              a in h.arcs && a in h.src && h.src[a] == u && a in h.tgt && h.tgt[a] == v
  {
    ParallelArcs(g, v, u);
  }

  /** The listed arcs at a node are arcs, hence not INVALID. */
  lemma ListedArcs(g: Digraph, n: Node)
    requires g.Valid() && n in g.nodes
    ensures n in g.outs && n in g.ins && NoDup(g.outs[n]) && NoDup(g.ins[n])
    ensures forall i :: 0 <= i < |g.outs[n]| ==> OutArc(g, n, g.outs[n][i])
    ensures forall i :: 0 <= i < |g.ins[n]| ==> InArc(g, n, g.ins[n][i])
  {
    var outs, ins := g.outs[n], g.ins[n];
    forall i | 0 <= i < |outs| ensures OutArc(g, n, outs[i]) {
      var a := outs[i];
      assert a in outs && a in g.arcs;
    }
    forall i | 0 <= i < |ins| ensures InArc(g, n, ins[i]) {
      var a := ins[i];
      assert a in ins && a in g.arcs;
    }
  }

  /** The lists of all nodes and of all arcs. */
  lemma AllListed(g: Digraph)
    requires g.Valid()
    ensures NoDup(g.nodes) && NoDup(g.arcs) && INVALID !in g.nodes && INVALID !in g.arcs
  {
  }

  ghost predicate OutArc(g: Digraph, n: Node, a: Arc) {
    a in g.arcs && a != INVALID && a in g.src && a in g.tgt && g.src[a] == n && n in g.outs && n in g.ins
  }

  ghost predicate InArc(g: Digraph, n: Node, a: Arc) {
    a in g.arcs && a != INVALID && a in g.src && a in g.tgt && g.tgt[a] == n && n in g.outs && n in g.ins
  }

  /** The ends of an arc are nodes with arc lists. */
  lemma ArcEnds(g: Digraph, a: Arc)
    requires g.Valid() && (a in g.arcs || a in g.src || a in g.tgt)
    ensures a in g.arcs && a in g.src && a in g.tgt && a != INVALID
    ensures g.src[a] in g.nodes && g.src[a] in g.outs && g.src[a] in g.ins
    ensures g.tgt[a] in g.nodes && g.tgt[a] in g.outs && g.tgt[a] in g.ins
  {
    var u, v := g.src[a], g.tgt[a];
    assert u in g.nodes && v in g.nodes;
  }

  /** The search loop of deps/lemon/lemon/core.h that stands behind `findArc`. */
  method FindArcLoop(g: Digraph, u: Node, v: Node, prev: Arc) returns (e: Arc)
    requires g.Valid() && u in g.nodes
    requires prev == INVALID || (prev in g.outs[u] && g.tgt[prev] == v)
    ensures e == g.FindArc(u, v, prev)
  {
    ghost var l, p, k := g.outs[u], g.ToNode(v), 0;
    ListedArcs(g, u);
    hide Digraph.Valid, Digraph.Parallel;
    if prev == INVALID {
      e := g.FirstOut(u);
      assert l[0..] == l;
    } else {
      ghost var j :| 0 <= j < |l| && l[j] == prev;
      AfterAt(l, j, INVALID);
      FilterAfter(l, p, j, INVALID);
      e := g.NextOut(prev);
      k := j + 1;
    }
    assert HeadOr(Filter(l[k..], p), INVALID) == g.FindArc(u, v, prev) by { ParallelIs(g, u, v); }
    hide Digraph.FindArc, Filter, After;
    while e != INVALID && g.tgt[e] != v
      invariant 0 <= k <= |l| && e == if k < |l| then l[k] else INVALID
      invariant HeadOr(Filter(l[k..], p), INVALID) == g.FindArc(u, v, prev)
      decreases |l| - k
    {
      FilterHead(l, p, k, INVALID);
      AfterAt(l, k, INVALID);
      e := g.NextOut(e);
      k := k + 1;
    }
    FilterHead(l, p, k, INVALID);
  }

  /** `findArc` of the reversed view: it steps through the arcs from `v` to `u`. */
  method FindReversedArc(g: Digraph, u: Node, v: Node, prev: Arc) returns (e: Arc)
    requires g.Valid() && u in g.nodes && v in g.nodes
    requires prev == INVALID || prev in g.Parallel(v, u)
    ensures e == if prev == INVALID then HeadOr(g.Parallel(v, u), INVALID) else After(g.Parallel(v, u), prev, INVALID)
  {
    ParallelArcs(g, v, u);
    e := FindArcLoop(g, v, u, prev);
  }

  lemma ParallelIs(g: Digraph, u: Node, v: Node)
    requires u in g.outs
    ensures g.Parallel(u, v) == Filter(g.outs[u], g.ToNode(v))
  {
  }

  lemma ParallelArcs(g: Digraph, u: Node, v: Node)
    requires g.Valid() && u in g.nodes
    ensures NoDup(g.Parallel(u, v))
    ensures forall a :: a in g.Parallel(u, v) <==> a in g.arcs && g.src[a] == u && g.tgt[a] == v
  {
    var p := g.ToNode(v);
    FilterNoDup(g.outs[u], p);
    forall a ensures a in g.Parallel(u, v) <==> a in g.arcs && g.src[a] == u && g.tgt[a] == v {
      FilterElements(g.outs[u], p, a);
    }
  }
}
