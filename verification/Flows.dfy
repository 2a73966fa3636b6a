/** Integer flows and the residual arcs of `ResidualDigraph` in deps/lemon/lemon/adaptors.h: cuts,
    residual walks, augmentation, and when a flow is maximum. */
module Flows {
  import opened Digraphs
  import opened Undirector
  import opened Sequences

  type Flow = map<Arc, int>

  ghost predicate OnArcs(g: Digraph, f: Flow) {
    forall a :: a in g.arcs <==> a in f
  }

  /** What leaves the node set over arc `a` minus what enters it. */
  ghost function Term(g: Digraph, f: Flow, c: set<Node>, a: Arc): int {
    if a in f && a in g.src && a in g.tgt then
      (if g.src[a] in c then f[a] else 0) - (if g.tgt[a] in c then f[a] else 0)
    else 0
  }

  ghost function NetOver(g: Digraph, f: Flow, c: set<Node>, l: seq<Arc>): int {
    if l == [] then 0 else Term(g, f, c, l[0]) + NetOver(g, f, c, l[1..])
  }

  /** Net flow out of node `v`. */
  ghost function Net(g: Digraph, f: Flow, v: Node): int {
    NetOver(g, f, {v}, g.arcs)
  }

  /** A flow from `s` to `t` within the capacities. */
  ghost predicate Feasible(g: Digraph, cap: Flow, f: Flow, s: Node, t: Node) {
    && OnArcs(g, f)
    && (forall a :: a in g.arcs ==> a in cap && 0 <= f[a] <= cap[a])
    && (forall v :: v in g.nodes && v != s && v != t ==> Net(g, f, v) == 0)
  }

  // ---------- net flow over a cut ----------

  lemma {:induction false} NetUnion(g: Digraph, f: Flow, c: set<Node>, v: Node, l: seq<Arc>)
    requires v !in c
    ensures NetOver(g, f, c + {v}, l) == NetOver(g, f, c, l) + NetOver(g, f, {v}, l)
  {
    if l != [] {
      NetUnion(g, f, c, v, l[1..]);
    }
  }

  /** The net flow out of any set around `s` is the flow value. */
  lemma {:induction false} NetOfSet(g: Digraph, cap: Flow, f: Flow, s: Node, t: Node, c: set<Node>)
    requires Feasible(g, cap, f, s, t)
    requires s in c && t !in c && forall v :: v in c ==> v in g.nodes
    ensures NetOver(g, f, c, g.arcs) == Net(g, f, s)
    decreases |c|
  {
    if exists v :: v in c && v != s {
      var v :| v in c && v != s;
      var d := c - {v};
      assert c == d + {v};
      NetOfSet(g, cap, f, s, t, d);
      NetUnion(g, f, d, v, g.arcs);
      assert Net(g, f, v) == 0;
    } else {
      assert c == {s};
    }
  }

  /** Total capacity of the arcs of `l` that leave the set. */
  ghost function CutOver(g: Digraph, cap: Flow, c: set<Node>, l: seq<Arc>): int {
    if l == [] then 0
    else
      (if l[0] in cap && l[0] in g.src && l[0] in g.tgt && g.src[l[0]] in c && g.tgt[l[0]] !in c then cap[l[0]] else 0)
      + CutOver(g, cap, c, l[1..])
  }

  ghost function CutCapacity(g: Digraph, cap: Flow, c: set<Node>): int {
    CutOver(g, cap, c, g.arcs)
  }

  lemma {:induction false} CutBounds(g: Digraph, cap: Flow, f: Flow, c: set<Node>, l: seq<Arc>)
    requires forall a :: a in l ==> a in f && a in cap && 0 <= f[a] <= cap[a]
    ensures NetOver(g, f, c, l) <= CutOver(g, cap, c, l)
  {
    if l != [] {
      var a := l[0];
      assert a in l;
      CutBounds(g, cap, f, c, l[1..]);
    }
  }

  /** All arcs out of the set are full and all arcs into it are empty. */
  ghost predicate Saturated(g: Digraph, cap: Flow, f: Flow, c: set<Node>, l: seq<Arc>) {
    forall a :: a in l && a in g.src && a in g.tgt && a in f && a in cap ==>
      && (g.src[a] in c && g.tgt[a] !in c ==> f[a] == cap[a])
      && (g.src[a] !in c && g.tgt[a] in c ==> f[a] == 0)
  }

  lemma {:induction false} CutTight(g: Digraph, cap: Flow, f: Flow, c: set<Node>, l: seq<Arc>)
    requires forall a :: a in l ==> a in f && a in cap && a in g.src && a in g.tgt
    requires Saturated(g, cap, f, c, l)
    ensures NetOver(g, f, c, l) == CutOver(g, cap, c, l)
  {
    if l != [] {
      var a := l[0];
      assert a in l;
      CutTight(g, cap, f, c, l[1..]);
    }
  }

  /** No flow exceeds the capacity of a cut. */
  lemma WeakDuality(g: Digraph, cap: Flow, f: Flow, s: Node, t: Node, c: set<Node>)
    requires g.Valid() && Feasible(g, cap, f, s, t)
    requires s in c && t !in c && forall v :: v in c ==> v in g.nodes
    ensures Net(g, f, s) <= CutCapacity(g, cap, c)
  {
    NetOfSet(g, cap, f, s, t, c);
    CutBounds(g, cap, f, c, g.arcs);
  }

  // ---------- residual arcs and walks ----------

  /** The source's `residualCapacity`. */
  function ResCap(cap: Flow, f: Flow, a: UArc): int
    requires a.edge in cap && a.edge in f
  {
    if a.forward then cap[a.edge] - f[a.edge] else f[a.edge]
  }

  /** The residual capacity is the largest amount that can be pushed over the arc. */
  lemma ResCapLargest(cap: Flow, f: Flow, a: UArc, v: nat)
    requires a.edge in cap && a.edge in f && 0 <= f[a.edge] <= cap[a.edge]
    ensures v <= ResCap(cap, f, a) <==> 0 <= Augmented(f, a, v)[a.edge] <= cap[a.edge]
  {
  }

  /** `a` is an arc of the residual digraph. */
  ghost predicate Residual(g: Digraph, cap: Flow, f: Flow, a: UArc) {
    a.edge in g.src && a.edge in g.tgt && a.edge in cap && a.edge in f && ResCap(cap, f, a) > 0
  }

  ghost predicate Walk(g: Digraph, cap: Flow, f: Flow, u: Node, p: seq<UArc>, v: Node)
    decreases |p|
  {
    if p == [] then u == v
    else Residual(g, cap, f, p[0]) && Source(g, p[0]) == u && Walk(g, cap, f, Target(g, p[0]), p[1..], v)
  }

  ghost predicate Reaches(g: Digraph, cap: Flow, f: Flow, u: Node, v: Node) {
    exists p :: Walk(g, cap, f, u, p, v)
  }

  lemma {:induction false} WalkSplit(g: Digraph, cap: Flow, f: Flow, u: Node, p: seq<UArc>, v: Node, k: nat)
    returns (w: Node)
    requires Walk(g, cap, f, u, p, v) && k <= |p|
    ensures Walk(g, cap, f, u, p[..k], w) && Walk(g, cap, f, w, p[k..], v)
    ensures k < |p| ==> Residual(g, cap, f, p[k]) && w == Source(g, p[k])
    decreases k
  {
    if k == 0 {
      w := u;
    } else {
      w := WalkSplit(g, cap, f, Target(g, p[0]), p[1..], v, k - 1);
      assert p[..k][1..] == p[1..][..k - 1] && p[1..][k - 1..] == p[k..];
    }
  }

  lemma {:induction false} WalkConcat(g: Digraph, cap: Flow, f: Flow, u: Node, p: seq<UArc>, w: Node,
                                       q: seq<UArc>, v: Node)
    requires Walk(g, cap, f, u, p, w) && Walk(g, cap, f, w, q, v)
    ensures Walk(g, cap, f, u, p + q, v)
    decreases |p|
  {
    if p == [] {
      assert p + q == q;
    } else {
      WalkConcat(g, cap, f, Target(g, p[0]), p[1..], w, q, v);
      assert (p + q)[1..] == p[1..] + q;
    }
  }

  /** The nodes that residual walks from `s` lead to. */
  ghost function ReachSet(g: Digraph, cap: Flow, f: Flow, s: Node): set<Node> {
    set v | v in g.nodes && Reaches(g, cap, f, s, v)
  }

  /** A residual arc out of a reachable node leads to a reachable node. */
  lemma ReachesOn(g: Digraph, cap: Flow, f: Flow, s: Node, r: UArc)
    requires Residual(g, cap, f, r) && Reaches(g, cap, f, s, Source(g, r))
    ensures Reaches(g, cap, f, s, Target(g, r))
  {
    var p :| Walk(g, cap, f, s, p, Source(g, r));
    assert Walk(g, cap, f, Target(g, r), [], Target(g, r));
    assert [r][1..] == [];
    assert Walk(g, cap, f, Source(g, r), [r], Target(g, r));
    WalkConcat(g, cap, f, s, p, Source(g, r), [r], Target(g, r));
  }

  /** No residual arc leaves the reachable set. */
  lemma ReachSetSaturated(g: Digraph, cap: Flow, f: Flow, s: Node, t: Node)
    requires g.Valid() && Feasible(g, cap, f, s, t)
    ensures Saturated(g, cap, f, ReachSet(g, cap, f, s), g.arcs)
  {
    var c := ReachSet(g, cap, f, s);
    forall a | a in g.arcs
      ensures a in g.src && a in g.tgt && a in f && a in cap
      ensures g.src[a] in c && g.tgt[a] !in c ==> f[a] == cap[a]
      ensures g.src[a] !in c && g.tgt[a] in c ==> f[a] == 0
    {
      ArcEnds(g, a);
      hide Digraph.Valid, Reaches;
      var fwd, bwd := UArc(a, true), UArc(a, false);
      if g.src[a] in c && f[a] != cap[a] {
        ReachesOn(g, cap, f, s, fwd);
      }
      if g.tgt[a] in c && f[a] != 0 {
        ReachesOn(g, cap, f, s, bwd);
      }
    }
  }

  /** If `t` is not reachable, the reachable set is a cut as large as the flow. */
  lemma UnreachableIsMinCut(g: Digraph, cap: Flow, f: Flow, s: Node, t: Node)
    requires g.Valid() && s in g.nodes && Feasible(g, cap, f, s, t) && !Reaches(g, cap, f, s, t)
    ensures var c := ReachSet(g, cap, f, s);
            && s in c && t !in c && CutCapacity(g, cap, c) == Net(g, f, s)
    ensures forall h :: Feasible(g, cap, h, s, t) ==> Net(g, h, s) <= Net(g, f, s)
  {
    var c := ReachSet(g, cap, f, s);
    assert Walk(g, cap, f, s, [], s);
    ReachSetSaturated(g, cap, f, s, t);
    CutTight(g, cap, f, c, g.arcs);
    NetOfSet(g, cap, f, s, t, c);
    forall h | Feasible(g, cap, h, s, t) ensures Net(g, h, s) <= Net(g, f, s) {
      WeakDuality(g, cap, h, s, t, c);
    }
  }

  // ---------- augmentation ----------

  /** The flow after the source's `augment(a, d)`. */
  function Augmented(f: Flow, a: UArc, d: int): Flow
    requires a.edge in f
  {
    f[a.edge := if a.forward then f[a.edge] + d else f[a.edge] - d]
  }

  /** Augmenting by the whole residual capacity takes the arc out of the residual digraph and
      leaves the whole capacity to its opposite. */
  lemma AugmentSaturates(g: Digraph, cap: Flow, f: Flow, a: UArc)
    requires a.edge in cap && a.edge in f
    ensures var h := Augmented(f, a, ResCap(cap, f, a));
            !Residual(g, cap, h, a) && ResCap(cap, h, Opposite(a)) == cap[a.edge]
  {
  }

  ghost function AugmentedAll(f: Flow, p: seq<UArc>, d: int): (h: Flow)
    requires forall a :: a in p ==> a.edge in f
    ensures h.Keys == f.Keys
  {
    if p == [] then f
    else
      assert p[0] in p;
      AugmentedAll(Augmented(f, p[0], d), p[1..], d)
  }

  lemma {:induction false} AugmentedConcat(f: Flow, p: seq<UArc>, q: seq<UArc>, d: int)
    requires forall a :: a in p + q ==> a.edge in f
    ensures forall a :: a in p || a in q ==> a in p + q
    ensures AugmentedAll(f, p + q, d) == AugmentedAll(AugmentedAll(f, p, d), q, d)
  {
    forall a | a in p || a in q ensures a in p + q {
    }
    if p == [] {
      assert p + q == q;
    } else {
      assert p[0] in p + q && (p + q)[1..] == p[1..] + q;
      AugmentedConcat(Augmented(f, p[0], d), p[1..], q, d);
    }
  }

  function Opposite(a: UArc): UArc {
    UArc(a.edge, !a.forward)
  }

  /** The opposite arcs, last one first. */
  function Back(p: seq<UArc>): (q: seq<UArc>)
    ensures forall a :: a in q <==> Opposite(a) in p
  {
    if p == [] then []
    else
      var r := Back(p[1..]);
      assert forall a {:trigger a in r + [Opposite(p[0])]} ::
        a in r + [Opposite(p[0])] <==> a in r || a == Opposite(p[0]);
      assert p == [p[0]] + p[1..];
      r + [Opposite(p[0])]
  }

  lemma AugmentOnceUndone(f: Flow, a: UArc, d: int)
    requires a.edge in f
    ensures Augmented(Augmented(f, a, d), Opposite(a), d) == f
  {
  }

  /** Augmenting by the opposite arcs undoes an augmentation. */
  lemma {:induction false} AugmentUndone(f: Flow, p: seq<UArc>, d: int)
    requires forall a :: a in p ==> a.edge in f
    ensures forall a :: a in Back(p) ==> a.edge in f
    ensures AugmentedAll(AugmentedAll(f, p, d), Back(p), d) == f
  {
    forall a | a in Back(p) ensures a.edge in f {
      assert Opposite(a) in p;
    }
    if p != [] {
      var a, q := p[0], p[1..];
      assert a in p;
      var h := Augmented(f, a, d);
      AugmentUndone(h, q, d);
      AugmentedConcat(AugmentedAll(f, p, d), Back(q), [Opposite(a)], d);
      assert [Opposite(a)][1..] == [];
      AugmentOnceUndone(f, a, d);
    }
  }

  /** How often augmenting along a duplicate-free list changes an edge. */
  lemma {:induction false} AugmentedEdge(f: Flow, p: seq<UArc>, d: int, e: Arc)
    requires (forall a :: a in p ==> a.edge in f) && NoDup(p) && e in f
    ensures AugmentedAll(f, p, d)[e] ==
            f[e] + (if UArc(e, true) in p then d else 0) - (if UArc(e, false) in p then d else 0)
  {
    if p != [] {
      var a, q := p[0], p[1..];
      assert a in p && p == [a] + q;
      forall i | 0 <= i < |q| ensures q[i] != a { assert q[i] == p[i + 1]; }
      AugmentedEdge(Augmented(f, a, d), q, d, e);
    }
  }

  lemma {:induction false} AugmentedNetOver(g: Digraph, f: Flow, a: UArc, d: int, c: set<Node>, l: seq<Arc>)
    requires NoDup(l) && a.edge in f && a.edge in g.src && a.edge in g.tgt
    ensures NetOver(g, Augmented(f, a, d), c, l) == NetOver(g, f, c, l)
            + (if a.edge in l then (if Source(g, a) in c then d else 0) - (if Target(g, a) in c then d else 0) else 0)
  {
    if l != [] {
      assert l == [l[0]] + l[1..];
      forall i | 0 <= i < |l[1..]| ensures l[1..][i] != l[0] { assert l[1..][i] == l[i + 1]; }
      AugmentedNetOver(g, f, a, d, c, l[1..]);
    }
  }

  /** Along a walk only the ends gain or lose. */
  lemma {:induction false} AugmentedNet(g: Digraph, cap: Flow, f0: Flow, f: Flow, u: Node, p: seq<UArc>, v: Node,
                                         d: int, n: Node)
    requires g.Valid() && OnArcs(g, f) && Walk(g, cap, f0, u, p, v)
    requires forall a :: a in p ==> a.edge in f
    ensures Net(g, AugmentedAll(f, p, d), n) == Net(g, f, n) + (if n == u then d else 0) - (if n == v then d else 0)
    decreases |p|
  {
    if p != [] {
      var a := p[0];
      assert a in p;
      AugmentedNetOver(g, f, a, d, {n}, g.arcs);
      AugmentedNet(g, cap, f0, Augmented(f, a, d), Target(g, a), p[1..], v, d, n);
    }
  }

  /** All arcs of a walk are residual. */
  lemma {:induction false} WalkResidual(g: Digraph, cap: Flow, f: Flow, u: Node, p: seq<UArc>, v: Node, k: nat)
    requires Walk(g, cap, f, u, p, v) && k < |p|
    ensures Residual(g, cap, f, p[k])
    decreases k
  {
    if k > 0 {
      WalkResidual(g, cap, f, Target(g, p[0]), p[1..], v, k - 1);
    }
  }

  /** Augmenting by `d` along an arc-distinct residual walk from `s` to `t` with residual
      capacities of at least `d`: the flow stays within the capacities and is conserved,
      and its value grows by `d`. */
  lemma AugmentKeepsFlow(g: Digraph, cap: Flow, f: Flow, s: Node, t: Node, p: seq<UArc>, d: nat)
    requires g.Valid() && s != t && Feasible(g, cap, f, s, t)
    requires Walk(g, cap, f, s, p, t) && NoDup(p)
    requires forall a :: a in p && a.edge in cap && a.edge in f ==> ResCap(cap, f, a) >= d
    ensures forall a :: a in p ==> a.edge in f
    ensures Feasible(g, cap, AugmentedAll(f, p, d), s, t)
    ensures Net(g, AugmentedAll(f, p, d), s) == Net(g, f, s) + d
  {
    forall a | a in p ensures Residual(g, cap, f, a) {
      var k :| 0 <= k < |p| && p[k] == a;
      WalkResidual(g, cap, f, s, p, t, k);
    }
    var h := AugmentedAll(f, p, d);
    forall e | e in g.arcs ensures e in cap && 0 <= h[e] <= cap[e] {
      AugmentedEdge(f, p, d, e);
      if UArc(e, true) in p { assert ResCap(cap, f, UArc(e, true)) >= d; }
      if UArc(e, false) in p { assert ResCap(cap, f, UArc(e, false)) >= d; }
    }
    forall v | v in g.nodes && v != s && v != t ensures Net(g, h, v) == 0 {
      AugmentedNet(g, cap, f, f, s, p, t, d, v);
    }
    AugmentedNet(g, cap, f, f, s, p, t, d, s);
  }

  /** Any walk can be shortened to an arc-distinct one. */
  lemma {:induction false} DistinctWalk(g: Digraph, cap: Flow, f: Flow, u: Node, p: seq<UArc>, v: Node)
    returns (q: seq<UArc>)
    requires Walk(g, cap, f, u, p, v)
    ensures Walk(g, cap, f, u, q, v) && NoDup(q)
    decreases |p|
  {
    if NoDup(p) {
      q := p;
    } else {
      var i, j :| 0 <= i < j < |p| && p[i] == p[j];
      var w := WalkSplit(g, cap, f, u, p, v, i);
      var w' := WalkSplit(g, cap, f, u, p, v, j);
      WalkConcat(g, cap, f, u, p[..i], w, p[j..], v);
      q := DistinctWalk(g, cap, f, u, p[..i] + p[j..], v);
    }
  }

  /** While `t` is reachable, some augmentation by 1 raises the flow value. */
  lemma ReachableAugments(g: Digraph, cap: Flow, f: Flow, s: Node, t: Node) returns (h: Flow)
    requires g.Valid() && s != t && Feasible(g, cap, f, s, t) && Reaches(g, cap, f, s, t)
    ensures Feasible(g, cap, h, s, t) && Net(g, h, s) == Net(g, f, s) + 1
  {
    var p :| Walk(g, cap, f, s, p, t);
    var q := DistinctWalk(g, cap, f, s, p, t);
    forall a | a in q && a.edge in cap && a.edge in f ensures ResCap(cap, f, a) >= 1 {
      var k :| 0 <= k < |q| && q[k] == a;
      WalkResidual(g, cap, f, s, q, t, k);
    }
    AugmentKeepsFlow(g, cap, f, s, t, q, 1);
    h := AugmentedAll(f, q, 1);
  }

  /** A flow is maximum exactly if the residual digraph has no walk from `s` to `t`. */
  lemma MaximumIffUnreachable(g: Digraph, cap: Flow, f: Flow, s: Node, t: Node)
    requires g.Valid() && s in g.nodes && s != t && Feasible(g, cap, f, s, t)
    ensures (forall h :: Feasible(g, cap, h, s, t) ==> Net(g, h, s) <= Net(g, f, s)) <==> !Reaches(g, cap, f, s, t)
  {
    if Reaches(g, cap, f, s, t) {
      var h := ReachableAugments(g, cap, f, s, t);
    } else {
      UnreachableIsMinCut(g, cap, f, s, t);
    }
  }

  /** Augmenting by any positive amount within the capacities of the walk brings the flow
      nearer to the capacity of the cut around `s`, and never beyond: it cannot go on
      forever. */
  lemma AugmentProgress(g: Digraph, cap: Flow, f: Flow, s: Node, t: Node, p: seq<UArc>, d: nat)
    requires g.Valid() && s in g.nodes && s != t && Feasible(g, cap, f, s, t) && d > 0
    requires Walk(g, cap, f, s, p, t) && NoDup(p)
    requires forall a :: a in p && a.edge in cap && a.edge in f ==> ResCap(cap, f, a) >= d
    ensures forall a :: a in p ==> a.edge in f
    ensures var c, h := CutCapacity(g, cap, {s}), AugmentedAll(f, p, d);
            0 <= c - Net(g, h, s) < c - Net(g, f, s)
  {
    AugmentKeepsFlow(g, cap, f, s, t, p, d);
    WeakDuality(g, cap, AugmentedAll(f, p, d), s, t, {s});
  }

  /** Above any flow there is a maximum flow, whose value is the capacity of a cut. */
  lemma {:induction false} MaxFlowMinCut(g: Digraph, cap: Flow, f: Flow, s: Node, t: Node)
    returns (h: Flow, c: set<Node>)
    requires g.Valid() && s in g.nodes && s != t && Feasible(g, cap, f, s, t)
    ensures Feasible(g, cap, h, s, t) && s in c && t !in c && (forall v :: v in c ==> v in g.nodes)
    ensures CutCapacity(g, cap, c) == Net(g, h, s)
    decreases CutCapacity(g, cap, {s}) - Net(g, f, s)
  {
    WeakDuality(g, cap, f, s, t, {s});
    if Reaches(g, cap, f, s, t) {
      var f1 := ReachableAugments(g, cap, f, s, t);
      WeakDuality(g, cap, f1, s, t, {s});
      h, c := MaxFlowMinCut(g, cap, f1, s, t);
    } else {
      UnreachableIsMinCut(g, cap, f, s, t);
      h, c := f, ReachSet(g, cap, f, s);
    }
  }
}
