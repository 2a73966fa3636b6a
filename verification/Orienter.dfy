/** The oriented view `OrienterBase` of deps/lemon/lemon/adaptors.h, here over the undirected view of a
    digraph: a direction map picks, for every edge, which of its two arcs is shown. */
module Orienter {
  import opened Cursors
  import opened Digraphs
  import U = Undirector
  import opened Sequences

  type UArc = U.UArc

  // ---------- firstInc and nextInc of the undirected view ----------

  /** The cursor of `firstInc`/`nextInc` is an edge and a direction; this is its end. */
  const NO_INC := U.UArc(INVALID, false)

  function FirstInc(g: Digraph, n: Node): UArc
    requires n in g.outs && n in g.ins
  {
    var e := g.FirstOut(n);
    if e != INVALID then U.UArc(e, true) else U.UArc(g.FirstIn(n), false)
  }

  function NextInc(g: Digraph, a: UArc): UArc
    requires g.Valid() && a.edge in g.arcs
  {
    ArcEnds(g, a.edge);
    if a.forward then
      var s := g.src[a.edge];
      var e := g.NextOut(a.edge);
      if e != INVALID then U.UArc(e, true) else U.UArc(g.FirstIn(s), false)
    else
      U.UArc(g.NextIn(a.edge), false)
  }

  /** The incident edges of `n`: out-arcs, then in-arcs; a loop occurs twice. */
  function IncList(g: Digraph, n: Node): seq<UArc>
    requires n in g.outs && n in g.ins
  {
    U.Both(g.outs[n], true, g.ins[n])
  }

  lemma IncStart(g: Digraph, n: Node)
    requires g.Valid() && n in g.nodes
    ensures FirstInc(g, n) == HeadOr(IncList(g, n)[0..], NO_INC)
  {
    ListedArcs(g, n);
    IncAt(g.outs[n], g.ins[n], 0);
  }

  lemma IncCursor(g: Digraph, n: Node, k: nat)
    requires g.Valid() && n in g.nodes && k < |IncList(g, n)|
    ensures IncList(g, n)[k].edge in g.arcs && IncList(g, n)[k].edge != INVALID
    ensures IncList(g, n)[k] == U.BothAt(g.outs[n], true, g.ins[n], k)
    ensures NextInc(g, IncList(g, n)[k]) == HeadOr(IncList(g, n)[k + 1..], NO_INC)
  {
    var s, t := g.outs[n], g.ins[n];
    ListedArcs(g, n);
    IncAt(s, t, k);
    IncAt(s, t, k + 1);
    hide U.Both, HeadOr;
    if k < |s| {
      AfterAt(s, k, INVALID);
      IncNextOut(g, n, k);
    } else {
      AfterAt(t, k - |s|, INVALID);
      IncNextIn(g, n, k - |s|);
    }
  }

  lemma IncNextOut(g: Digraph, n: Node, k: nat)
    requires g.Valid() && n in g.nodes && k < |g.outs[n]|
    ensures g.outs[n][k] in g.arcs
    ensures NextInc(g, U.UArc(g.outs[n][k], true)) ==
            if k + 1 < |g.outs[n]| then U.UArc(g.outs[n][k + 1], true)
            else if g.ins[n] != [] then U.UArc(g.ins[n][0], false) else NO_INC
  {
    ListedArcs(g, n);
    AfterAt(g.outs[n], k, INVALID);
  }

  lemma IncNextIn(g: Digraph, n: Node, k: nat)
    requires g.Valid() && n in g.nodes && k < |g.ins[n]|
    ensures g.ins[n][k] in g.arcs
    ensures NextInc(g, U.UArc(g.ins[n][k], false)) ==
            if k + 1 < |g.ins[n]| then U.UArc(g.ins[n][k + 1], false) else NO_INC
  {
    ListedArcs(g, n);
    AfterAt(g.ins[n], k, INVALID);
  }

  lemma IncAt(s: seq<Arc>, t: seq<Arc>, k: nat)
    requires k <= |s| + |t|
    ensures var l := U.Both(s, true, t);
            && |l| == |s| + |t|
            && HeadOr(l[k..], NO_INC) ==
               (if k < |s| then U.UArc(s[k], true) else if k < |s| + |t| then U.UArc(t[k - |s|], false) else NO_INC)
            && (k < |l| ==> l[k] == HeadOr(l[k..], NO_INC))
  {
    var l := U.Both(s, true, t);
    if k < |l| { assert l[k..][0] == l[k]; } else { assert l[k..] == []; }
  }

  // ---------- the oriented view ----------

  function Edges(l: seq<UArc>): (s: seq<Arc>)
    ensures |s| == |l|
  {
    seq(|l|, i requires 0 <= i < |l| => l[i].edge)
  }

  /** The incidences shown as out-arcs (`out`) or as in-arcs. */
  function Shown(dir: map<Arc, bool>, out: bool): UArc -> bool {
    (a: UArc) => a.edge in dir && (a.forward == dir[a.edge]) == out
  }

  ghost function IncShown(g: Digraph, dir: map<Arc, bool>, n: Node, out: bool): seq<UArc>
    requires n in g.outs && n in g.ins
  {
    Filter(IncList(g, n), Shown(dir, out))
  }

  ghost function List(g: Digraph, dir: map<Arc, bool>, n: Node, out: bool): seq<Arc>
    requires n in g.outs && n in g.ins
  {
    Edges(IncShown(g, dir, n, out))
  }

  function Source(g: Digraph, dir: map<Arc, bool>, e: Arc): Node
    requires e in dir && e in g.src && e in g.tgt
  {
    if dir[e] then g.src[e] else g.tgt[e]
  }

  function Target(g: Digraph, dir: map<Arc, bool>, e: Arc): Node
    requires e in dir && e in g.src && e in g.tgt
  {
    if dir[e] then g.tgt[e] else g.src[e]
  }

  /** For any direction map: every edge is listed exactly once as an out-arc of its oriented
      source and once as an in-arc of its oriented target, loops included. */
  lemma OrientedOnce(g: Digraph, dir: map<Arc, bool>, n: Node, out: bool)
    requires g.Valid() && n in g.nodes && forall a :: a in g.arcs <==> a in dir
    ensures NoDup(List(g, dir, n, out))
    ensures forall e :: e in List(g, dir, n, out) <==>
              e in g.arcs && n == if out then Source(g, dir, e) else Target(g, dir, e)
  {
    var l, p := IncList(g, n), Shown(dir, out);
    var f := Filter(l, p);
    FilterNoDup(l, p) by { U.BothElements(g.outs[n], true, g.ins[n]); }
    forall a ensures a in f <==> a.edge in g.arcs && a.forward == (dir[a.edge] == out)
                                 && n == if out then Source(g, dir, a.edge) else Target(g, dir, a.edge)
    {
      FilterElements(l, p, a);
      ShownIncidence(g, dir, n, out, a);
    }
    hide Digraph.Valid, Filter, Source, Target;
    EdgesOnce(f);
    forall e ensures e in Edges(f) <==> e in g.arcs && n == if out then Source(g, dir, e) else Target(g, dir, e) {
      EdgeListed(f, e);
      if e in g.arcs {
        var a := U.UArc(e, dir[e] == out);
        assert a in f <==> n == if out then Source(g, dir, e) else Target(g, dir, e);
      }
    }
  }

  lemma ShownIncidence(g: Digraph, dir: map<Arc, bool>, n: Node, out: bool, a: UArc)
    requires g.Valid() && n in g.nodes && forall a :: a in g.arcs <==> a in dir
    ensures a in IncList(g, n) && Shown(dir, out)(a) <==>
              && a.edge in g.arcs && a.forward == (dir[a.edge] == out)
              && n == if out then Source(g, dir, a.edge) else Target(g, dir, a.edge)
  {
    U.BothElements(g.outs[n], true, g.ins[n]);
  }

  /** No edge is listed twice if it is listed in one direction only. */
  lemma EdgesOnce(f: seq<UArc>)
    requires NoDup(f) && forall a, b :: a in f && b in f && a.edge == b.edge ==> a == b
    ensures NoDup(Edges(f))
  {
    forall i, j | 0 <= i < j < |f| ensures Edges(f)[i] != Edges(f)[j] {
      var a, b := f[i], f[j];
      assert a in f && b in f;
    }
  }

  lemma EdgeListed(f: seq<UArc>, e: Arc)
    ensures e in Edges(f) <==> exists d :: U.UArc(e, d) in f
  {
    if e in Edges(f) {
      var i :| 0 <= i < |f| && Edges(f)[i] == e;
      var a := f[i];
      assert a in f && a == U.UArc(e, a.forward);
    }
    if d: bool :| U.UArc(e, d) in f {
      var i :| 0 <= i < |f| && f[i] == U.UArc(e, d);
      assert Edges(f)[i] == e;
    }
  }

  lemma {:induction false} FilterDirected(s: seq<Arc>, d: bool, dir: map<Arc, bool>, b: bool, out: bool)
    requires forall a :: a in s ==> a in dir && dir[a] == b
    ensures Filter(U.Directed(s, d), Shown(dir, out)) == if (d == b) == out then U.Directed(s, d) else []
  {
    if s != [] {
      var a := s[0];
      assert a in s;
      assert U.Directed(s, d)[1..] == U.Directed(s[1..], d);
      FilterDirected(s[1..], d, dir, b, out);
      assert U.Directed(s, d) == [U.UArc(a, d)] + U.Directed(s[1..], d);
    }
  }

  /** Orienting along the all-true map gives back the digraph, along the all-false map the
      reversed digraph: the same sequences of out-arcs and in-arcs, the same ends. */
  lemma UniformOrientation(g: Digraph, dir: map<Arc, bool>, b: bool, n: Node)
    requires g.Valid() && n in g.nodes
    requires forall a :: a in g.arcs <==> a in dir
    requires forall a :: a in dir ==> dir[a] == b
    ensures var h := if b then g else Reverse(g);
            && n in h.outs && List(g, dir, n, true) == h.outs[n]
            && n in h.ins && List(g, dir, n, false) == h.ins[n]
            && (forall e :: e in g.arcs ==>
                  && e in h.src && Source(g, dir, e) == h.src[e]
                  && e in h.tgt && Target(g, dir, e) == h.tgt[e])
  {
    hide List;
    UniformList(g, dir, b, n, true);
    UniformList(g, dir, b, n, false);
  }

  lemma UniformList(g: Digraph, dir: map<Arc, bool>, b: bool, n: Node, out: bool)
    requires g.Valid() && n in g.nodes
    requires forall a :: a in g.arcs <==> a in dir
    requires forall a :: a in dir ==> dir[a] == b
    ensures List(g, dir, n, out) == if out == b then g.outs[n] else g.ins[n]
  {
    var s, t := g.outs[n], g.ins[n];
    UniformFilter(s, t, dir, b, out);
    assert Edges(U.Directed(s, true)) == s && Edges(U.Directed(t, false)) == t;
  }

  lemma UniformFilter(s: seq<Arc>, t: seq<Arc>, dir: map<Arc, bool>, b: bool, out: bool)
    requires forall a :: a in s || a in t ==> a in dir && dir[a] == b
    ensures Filter(U.Both(s, true, t), Shown(dir, out)) ==
            if out == b then U.Directed(s, true) else U.Directed(t, false)
  {
    var p, q := U.Directed(s, true), U.Directed(t, false);
    FilterConcat(p, q, Shown(dir, out));
    FilterDirected(s, true, dir, b, out);
    FilterDirected(t, false, dir, b, out);
    hide Filter;
    assert p + [] == p && [] + q == q;
  }

  /** The edges oriented away from `u`. */
  function From(g: Digraph, dir: map<Arc, bool>, u: Node): Arc -> bool {
    (e: Arc) => e in dir && e in g.src && e in g.tgt && Source(g, dir, e) == u
  }

  /** The edges oriented from `u` to `v`, in the order in which `findEdge` lists them. */
  ghost function Between(g: Digraph, dir: map<Arc, bool>, u: Node, v: Node): seq<Arc>
    requires u in g.outs && v in g.outs
  {
    Filter(U.BetweenEdges(g, u, v), From(g, dir, u))
  }

  /** Each edge oriented from `u` to `v` is there exactly once. */
  lemma BetweenOnce(g: Digraph, dir: map<Arc, bool>, u: Node, v: Node)
    requires g.Valid() && u in g.nodes && v in g.nodes && forall a :: a in g.arcs <==> a in dir
    ensures NoDup(Between(g, dir, u, v))
    ensures forall e :: e in Between(g, dir, u, v) <==> e in g.arcs && Source(g, dir, e) == u && Target(g, dir, e) == v
  {
    var l, p := U.BetweenEdges(g, u, v), From(g, dir, u);
    U.BetweenEdgesOnce(g, u, v);
    FilterNoDup(l, p);
    forall e ensures e in Filter(l, p) <==> e in g.arcs && Source(g, dir, e) == u && Target(g, dir, e) == v {
      FilterElements(l, p, e);
    }
  }

  /** Where the search for the edge after `prev` starts. */
  lemma SearchStart(g: Digraph, dir: map<Arc, bool>, u: Node, v: Node, prev: Arc) returns (k: nat)
    requires g.Valid() && u in g.nodes && v in g.nodes && forall a :: a in g.arcs <==> a in dir
    requires prev == INVALID || prev in Between(g, dir, u, v)
    ensures var l, f := U.BetweenEdges(g, u, v), Between(g, dir, u, v);
            && NoDup(l) && INVALID !in l && (forall x :: x in l ==> x in dir && x in g.src && x in g.tgt)
            && k <= |l| && (prev == INVALID || prev in l)
            && (if k < |l| then l[k] else INVALID)
               == (if prev == INVALID then HeadOr(l, INVALID) else After(l, prev, INVALID))
            && HeadOr(Filter(l[k..], From(g, dir, u)), INVALID) ==
               if prev == INVALID then HeadOr(f, INVALID) else After(f, prev, INVALID)
  {
    var l, p := U.BetweenEdges(g, u, v), From(g, dir, u);
    U.BetweenEdgesOnce(g, u, v);
    hide U.BetweenEdges, Filter, After, NoDup;
    if prev == INVALID {
      assert l[0..] == l;
      k := 0;
    } else {
      FilterElements(l, p, prev);
      k :| 0 <= k < |l| && l[k] == prev;
      AfterAt(l, k, INVALID);
      FilterAfter(l, p, k, INVALID);
      k := k + 1;
    }
  }

  /** At position `k` of the search: the edge there is found, or the search goes on. */
  lemma SearchStep(g: Digraph, dir: map<Arc, bool>, u: Node, v: Node, k: nat)
    requires g.Valid() && u in g.nodes && v in g.nodes && (forall a :: a in g.arcs <==> a in dir)
    requires k <= |U.BetweenEdges(g, u, v)|
    ensures var l, p := U.BetweenEdges(g, u, v), From(g, dir, u);
            if k < |l| then
              var e := l[k];
              && e in l && e != INVALID && e in dir && e in g.src && e in g.tgt
              && After(l, e, INVALID) == (if k + 1 < |l| then l[k + 1] else INVALID)
              && if Source(g, dir, e) == u then HeadOr(Filter(l[k..], p), INVALID) == e
                 else Filter(l[k..], p) == Filter(l[k + 1..], p)
            else
              HeadOr(Filter(l[k..], p), INVALID) == INVALID
  {
    var l, p := U.BetweenEdges(g, u, v), From(g, dir, u);
    U.BetweenEdgesOnce(g, u, v);
    FilterHead(l, p, k, INVALID);
    if k < |l| {
      AfterAt(l, k, INVALID);
      var e := l[k];
      assert e in l;
    }
    hide U.BetweenEdges, Filter, After, NoDup;
  }

  /** The state of the search loop at position `k`, begun at `k0`. */
  ghost predicate Searching(g: Digraph, dir: map<Arc, bool>, u: Node, v: Node, k0: nat, k: nat, e: Arc)
    requires u in g.outs && v in g.outs
  {
    var l, p := U.BetweenEdges(g, u, v), From(g, dir, u);
    && k0 <= k <= |l| && e == (if k < |l| then l[k] else INVALID)
    && HeadOr(Filter(l[k..], p), INVALID) == HeadOr(Filter(l[k0..], p), INVALID)
  }

  lemma SearchBegins(g: Digraph, dir: map<Arc, bool>, u: Node, v: Node, k0: nat, e0: Arc)
    requires g.Valid() && u in g.nodes && v in g.nodes && k0 <= |U.BetweenEdges(g, u, v)|
    requires e0 == if k0 < |U.BetweenEdges(g, u, v)| then U.BetweenEdges(g, u, v)[k0] else INVALID
    ensures u in g.outs && v in g.outs && Searching(g, dir, u, v, k0, k0, e0)
  {
  }

  /** One round: the search is done, or goes on with the next edge. */
  lemma SearchRound(g: Digraph, dir: map<Arc, bool>, u: Node, v: Node, k0: nat, k: nat, e: Arc)
    requires g.Valid() && u in g.nodes && v in g.nodes && (forall a :: a in g.arcs <==> a in dir)
    requires Searching(g, dir, u, v, k0, k, e)
    ensures var l := U.BetweenEdges(g, u, v);
            if e == INVALID then
              HeadOr(Filter(l[k0..], From(g, dir, u)), INVALID) == INVALID
            else
              && k < |l| && e in l && e in dir && e in g.src && e in g.tgt
              && if Source(g, dir, e) == u then HeadOr(Filter(l[k0..], From(g, dir, u)), INVALID) == e
                 else Searching(g, dir, u, v, k0, k + 1, After(l, e, INVALID))
  {
    SearchStep(g, dir, u, v, k);
    hide U.BetweenEdges, Filter, After;
  }

  /** The adaptor with its direction map. */
  class OrientedDigraph {
    const g: Digraph
    var direction: map<Arc, bool>

    ghost predicate Valid()
      reads this
    {
      g.Valid() && forall a :: a in g.arcs <==> a in direction
    }

    constructor (g: Digraph, direction: map<Arc, bool>)
      requires g.Valid() && forall a :: a in g.arcs <==> a in direction
      ensures Valid() && this.g == g && this.direction == direction
    {
      this.g, this.direction := g, direction;
    }

    /** The loop behind all four cursor operations, from position `k0` of the incidences on. */
    method Skip(ghost n: Node, a0: UArc, out: bool, ghost k0: nat) returns (e: Arc)
      requires Valid() && n in g.nodes && k0 <= |IncList(g, n)|
      requires a0 == HeadOr(IncList(g, n)[k0..], NO_INC)
      ensures e == HeadOr(Edges(Filter(IncList(g, n)[k0..], Shown(direction, out))), INVALID)
    {
      ghost var l, p, k := IncList(g, n), Shown(direction, out), k0;
      var a := a0;
      EndOfList(n, l, k);
      while a.edge != INVALID && (a.forward == direction[a.edge]) != out
        invariant k0 <= k <= |l| && a == HeadOr(l[k..], NO_INC)
        invariant a.edge != INVALID <==> k < |l|
        invariant k < |l| ==> a == l[k] && a.edge in g.arcs
        invariant HeadOr(Edges(Filter(l[k..], p)), INVALID) == HeadOr(Edges(Filter(l[k0..], p)), INVALID)
        decreases |l| - k
      {
        IncCursor(g, n, k);
        assert l[k..][1..] == l[k + 1..];
        assert Filter(l[k..], p) == Filter(l[k + 1..], p);
        a := NextInc(g, a);
        k := k + 1;
        EndOfList(n, l, k);
      }
      e := a.edge;
      if k < |l| {
        assert Filter(l[k..], p)[0] == a;
      }
    }

    lemma EndOfList(n: Node, l: seq<UArc>, k: nat)
      requires g.Valid() && n in g.nodes && l == IncList(g, n) && k <= |l|
      ensures k < |l| ==> HeadOr(l[k..], NO_INC) == l[k] && l[k].edge in g.arcs && l[k].edge != INVALID
      ensures k == |l| ==> HeadOr(l[k..], NO_INC) == NO_INC
    {
      if k < |l| {
        IncCursor(g, n, k);
        assert l[k..][0] == l[k];
      }
    }

    method FirstOut(n: Node) returns (e: Arc)
      requires Valid() && n in g.nodes
      ensures e == HeadOr(List(g, direction, n, true), INVALID)
    {
      IncStart(g, n);
      assert IncList(g, n)[0..] == IncList(g, n);
      e := Skip(n, FirstInc(g, n), true, 0);
    }

    method FirstIn(n: Node) returns (e: Arc)
      requires Valid() && n in g.nodes
      ensures e == HeadOr(List(g, direction, n, false), INVALID)
    {
      IncStart(g, n);
      assert IncList(g, n)[0..] == IncList(g, n);
      e := Skip(n, FirstInc(g, n), false, 0);
    }

    /** The direction of the shown incidence is read back from the direction map. */
    method NextOut(ghost n: Node, e: Arc) returns (f: Arc)
      requires Valid() && n in g.nodes && e in List(g, direction, n, true)
      ensures f == After(List(g, direction, n, true), e, INVALID)
    {
      ghost var k := NextPosition(g, direction, n, true, e);
      var d := direction[e];
      f := Skip(n, NextInc(g, U.UArc(e, d)), true, k + 1);
    }

    method NextIn(ghost n: Node, e: Arc) returns (f: Arc)
      requires Valid() && n in g.nodes && e in List(g, direction, n, false)
      ensures f == After(List(g, direction, n, false), e, INVALID)
    {
      ghost var k := NextPosition(g, direction, n, false, e);
      var d := !direction[e];
      f := Skip(n, NextInc(g, U.UArc(e, d)), false, k + 1);
    }

    /** The search loop of `findArc`, from position `k0` of the edges between `u` and `v` on. */
    method Search(u: Node, v: Node, e0: Arc, ghost k0: nat) returns (e: Arc)
      requires Valid() && u in g.nodes && v in g.nodes && k0 <= |U.BetweenEdges(g, u, v)|
      requires e0 == if k0 < |U.BetweenEdges(g, u, v)| then U.BetweenEdges(g, u, v)[k0] else INVALID
      ensures e == HeadOr(Filter(U.BetweenEdges(g, u, v)[k0..], From(g, direction, u)), INVALID)
    {
      hide Digraph.Valid, U.BetweenEdges, After, HeadOr, Filter, From, Searching;
      SearchBegins(g, direction, u, v, k0, e0);
      ghost var k := k0;
      e := e0;
      SearchRound(g, direction, u, v, k0, k, e);
      while e != INVALID && Source(g, direction, e) != u
        invariant Searching(g, direction, u, v, k0, k, e)
        invariant e != INVALID ==> k < |U.BetweenEdges(g, u, v)| && e in direction && e in g.src && e in g.tgt
        decreases |U.BetweenEdges(g, u, v)| - k
      {
        SearchRound(g, direction, u, v, k0, k, e);
        e := U.FindEdge(g, u, v, e);
        k := k + 1;
        SearchRound(g, direction, u, v, k0, k, e);
      }
      SearchRound(g, direction, u, v, k0, k, e);
    }

    /** Steps through the edges that are oriented from `u` to `v`. */
    method FindArc(u: Node, v: Node, prev: Arc) returns (e: Arc)
      requires Valid() && u in g.nodes && v in g.nodes
      requires prev == INVALID || prev in Between(g, direction, u, v)
      ensures e == if prev == INVALID then HeadOr(Between(g, direction, u, v), INVALID)
                   else After(Between(g, direction, u, v), prev, INVALID)
    {
      ghost var k := SearchStart(g, direction, u, v, prev);
      hide U.BetweenEdges, NoDup, Between, After, HeadOr, Filter, From;
      e := U.FindEdge(g, u, v, prev);
      e := Search(u, v, e, k);
    }

    method ReverseArc(e: Arc)
      requires Valid() && e in g.arcs
      modifies this
      ensures Valid() && direction == old(direction)[e := !old(direction)[e]]
      ensures Source(g, direction, e) == old(Target(g, direction, e))
      ensures Target(g, direction, e) == old(Source(g, direction, e))
    {
      direction := direction[e := !direction[e]];
    }
  }

  /** Stepping through the edges of a list is stepping through the list. */
  lemma EdgesAfter(f: seq<UArc>, i: nat)
    requires NoDup(f) && NoDup(Edges(f)) && i < |f|
    ensures After(Edges(f), f[i].edge, INVALID) == After(f, f[i], NO_INC).edge
  {
    AfterAt(f, i, NO_INC);
    AfterAt(Edges(f), i, INVALID);
  }

  lemma EdgesHead(r: seq<UArc>)
    ensures HeadOr(Edges(r), INVALID) == HeadOr(r, NO_INC).edge
  {
  }

  /** A listed edge stands for one incidence, whose direction the map tells. */
  lemma ListedIncidence(g: Digraph, dir: map<Arc, bool>, n: Node, out: bool, e: Arc) returns (i: nat, k: nat)
    requires g.Valid() && n in g.nodes && (forall a :: a in g.arcs <==> a in dir) && e in List(g, dir, n, out)
    ensures e in dir
    ensures var l, f, a := IncList(g, n), IncShown(g, dir, n, out), U.UArc(e, dir[e] == out);
            i < |f| && f[i] == a && k < |l| && l[k] == a && Shown(dir, out)(a) && NoDup(l)
  {
    var l, p := IncList(g, n), Shown(dir, out);
    var f := Filter(l, p);
    i :| 0 <= i < |f| && Edges(f)[i] == e;
    var a := f[i];
    assert a in f;
    FilterElements(l, p, a);
    k :| 0 <= k < |l| && l[k] == a;
    U.BothElements(g.outs[n], true, g.ins[n]);
  }

  /** Where the incidence behind a listed edge stands, and what the list goes on with. */
  lemma NextPosition(g: Digraph, dir: map<Arc, bool>, n: Node, out: bool, e: Arc) returns (k: nat)
    requires g.Valid() && n in g.nodes && (forall a :: a in g.arcs <==> a in dir) && e in List(g, dir, n, out)
    ensures e in dir
    ensures var l, a := IncList(g, n), U.UArc(e, dir[e] == out);
            && k < |l| && l[k] == a && e in g.arcs
            && NextInc(g, a) == HeadOr(l[k + 1..], NO_INC)
            && After(List(g, dir, n, out), e, INVALID) == HeadOr(Edges(Filter(l[k + 1..], Shown(dir, out))), INVALID)
  {
    hide Filter, After, HeadOr, IncList, Shown;
    var i;
    i, k := ListedIncidence(g, dir, n, out, e);
    var l, p := IncList(g, n), Shown(dir, out);
    IncCursor(g, n, k);
    FilterAfter(l, p, k, NO_INC);
    FilterNoDup(l, p);
    OrientedOnce(g, dir, n, out);
    EdgesAfter(Filter(l, p), i);
    EdgesHead(Filter(l[k + 1..], p));
  }
}
