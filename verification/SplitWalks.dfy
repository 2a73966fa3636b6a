/** Walks in the split digraph are walks in the original one, with the node costs added. */
module SplitWalks {
  import opened Digraphs
  import opened SplitNodes

  ghost predicate Walk(g: Digraph, u: Node, w: seq<Arc>, v: Node)
    decreases |w|
  {
    if w == [] then u == v
    else w[0] in g.src && w[0] in g.tgt && g.src[w[0]] == u && Walk(g, g.tgt[w[0]], w[1..], v)
  }

  ghost predicate SplitWalk(g: Digraph, x: SNode, p: seq<SArc>, y: SNode)
    decreases |p|
  {
    if p == [] then x == y
    else IsArc(g, p[0]) && Source(g, p[0]) == x && SplitWalk(g, Target(g, p[0]), p[1..], y)
  }

  /** The walk with a bind arc at every inner node. */
  function Expand(g: Digraph, w: seq<Arc>): seq<SArc>
    requires forall a :: a in w ==> a in g.tgt
    decreases |w|
  {
    if w == [] then []
    else if |w| == 1 then [Orig(w[0])]
    else
      var a := w[0];
      assert a in w;
      [Orig(a), Bind(g.tgt[a])] + Expand(g, w[1..])
  }

  /** The original arcs of a split walk. */
  function Contract(p: seq<SArc>): seq<Arc> {
    if p == [] then []
    else (if p[0].Orig? then [p[0].arc] else []) + Contract(p[1..])
  }

  lemma ContractStep(p: seq<SArc>)
    requires |p| >= 2 && p[0].Orig? && p[1].Bind?
    ensures Contract(p) == [p[0].arc] + Contract(p[2..])
  {
    assert p[1..][1..] == p[2..];
    assert Contract(p[1..]) == Contract(p[2..]);
  }

  lemma {:induction false} WalkArcs(g: Digraph, u: Node, w: seq<Arc>, v: Node, a: Arc)
    requires Walk(g, u, w, v) && a in w
    ensures a in g.src && a in g.tgt
    decreases |w|
  {
    if a != w[0] { WalkArcs(g, g.tgt[w[0]], w[1..], v, a); }
  }

  lemma ExpandStep(g: Digraph, w: seq<Arc>)
    requires |w| > 1 && forall a :: a in w ==> a in g.tgt
    ensures w[0] in g.tgt && forall a :: a in w[1..] ==> a in g.tgt
    ensures Expand(g, w) == [Orig(w[0]), Bind(g.tgt[w[0]])] + Expand(g, w[1..])
  {
    var b := w[0];
    assert b in w;
    forall a | a in w[1..] ensures a in g.tgt { assert a in w; }
  }

  /** Entering by an original arc and passing through the node by its bind arc. */
  lemma ThroughNode(g: Digraph, a: Arc, p: seq<SArc>, y: SNode)
    requires g.Valid() && a in g.arcs && SplitWalk(g, OutNode(g.tgt[a]), p, y)
    ensures SplitWalk(g, OutNode(g.src[a]), [Orig(a), Bind(g.tgt[a])] + p, y)
  {
    ArcEnds(g, a);
    hide Digraph.Valid;
    var r := [Bind(g.tgt[a])] + p;
    assert r[1..] == p;
    assert SplitWalk(g, InNode(g.tgt[a]), r, y);
    assert ([Orig(a)] + r)[1..] == r && [Orig(a), Bind(g.tgt[a])] + p == [Orig(a)] + r;
  }

  /** Expanding a non-empty walk gives a split walk from out(u) to in(v). */
  lemma {:induction false} ExpandIsWalk(g: Digraph, u: Node, w: seq<Arc>, v: Node)
    requires g.Valid() && w != [] && Walk(g, u, w, v)
    ensures forall a :: a in w ==> a in g.tgt
    ensures SplitWalk(g, OutNode(u), Expand(g, w), InNode(v)) && Contract(Expand(g, w)) == w
    decreases |w|
  {
    forall a | a in w ensures a in g.tgt { WalkArcs(g, u, w, v, a); }
    ArcEnds(g, w[0]);
    if |w| == 1 {
      hide Digraph.Valid;
      var p := Expand(g, w);
      assert p[1..] == [] && w[1..] == [];
    } else {
      ExpandIsWalk(g, g.tgt[w[0]], w[1..], v);
      ExpandStep(g, w);
      ThroughNode(g, w[0], Expand(g, w[1..]), InNode(v));
      var p := Expand(g, w);
      hide Digraph.Valid, SplitWalk, Walk, Expand;
      ContractStep(p);
      assert p[2..] == Expand(g, w[1..]);
    }
  }

  /** Every split walk from out(u) to in(v) is the expansion of its original arcs. */
  lemma {:induction false} ContractIsWalk(g: Digraph, u: Node, p: seq<SArc>, v: Node)
    requires g.Valid() && SplitWalk(g, OutNode(u), p, InNode(v))
    ensures var w := Contract(p);
            w != [] && Walk(g, u, w, v) && (forall a :: a in w ==> a in g.tgt) && p == Expand(g, w)
    decreases |p|
  {
    var w := Contract(p);
    var a := p[0].arc;
    ArcEnds(g, a);
    hide Digraph.Valid;
    var t := g.tgt[a];
    if |p| == 1 {
      assert p[1..] == [] && w == [a] && w[1..] == [];
    } else {
      assert p[1..][0] == p[1] && p[1] == Bind(t) && p[1..][1..] == p[2..];
      ContractIsWalk(g, t, p[2..], v);
      ContractStep(p);
      hide SplitWalk, Contract;
      var r := Contract(p[2..]);
      assert w[1..] == r;
      assert p == [Orig(a), Bind(t)] + p[2..];
    }
  }

  /** Split walks from out(u) to in(v) and non-empty walks from u to v correspond one to
      one, by expanding and contracting. */
  lemma SplitWalksAreWalks(g: Digraph, u: Node, v: Node)
    requires g.Valid()
    ensures forall w :: w != [] && Walk(g, u, w, v) ==>
              && (forall a :: a in w ==> a in g.tgt)
              && SplitWalk(g, OutNode(u), Expand(g, w), InNode(v)) && Contract(Expand(g, w)) == w
    ensures forall p :: SplitWalk(g, OutNode(u), p, InNode(v)) ==>
              var w := Contract(p);
              w != [] && Walk(g, u, w, v) && (forall a :: a in w ==> a in g.tgt) && Expand(g, w) == p
  {
    forall w | w != [] && Walk(g, u, w, v)
      ensures (forall a :: a in w ==> a in g.tgt)
      ensures SplitWalk(g, OutNode(u), Expand(g, w), InNode(v)) && Contract(Expand(g, w)) == w
    {
      ExpandIsWalk(g, u, w, v);
    }
    forall p | SplitWalk(g, OutNode(u), p, InNode(v))
      ensures var w := Contract(p);
              w != [] && Walk(g, u, w, v) && (forall a :: a in w ==> a in g.tgt) && Expand(g, w) == p
    {
      ContractIsWalk(g, u, p, v);
    }
  }

  /** Original and bind arcs alternate, starting and ending with an original arc. */
  lemma {:induction false} ExpandAlternates(g: Digraph, w: seq<Arc>, i: nat)
    requires w != [] && forall a :: a in w ==> a in g.tgt
    ensures |Expand(g, w)| == 2 * |w| - 1
    ensures i < 2 * |w| - 1 ==>
              Expand(g, w)[i] == if i % 2 == 0 then Orig(w[i / 2]) else Bind(g.tgt[w[i / 2]])
    decreases |w|
  {
    if |w| > 1 {
      var a := w[0];
      assert a in w;
      ExpandAlternates(g, w[1..], if i >= 2 then i - 2 else 0);
    }
  }

  // ---------- costs ----------

  /** The combined arc map: arc costs on original arcs, node costs on bind arcs. */
  function CombinedCost(am: map<Arc, int>, nm: map<Node, int>, e: SArc): int {
    match e
    case Orig(a) => if a in am then am[a] else 0
    case Bind(n) => if n in nm then nm[n] else 0
  }

  function SplitCost(am: map<Arc, int>, nm: map<Node, int>, p: seq<SArc>): int {
    if p == [] then 0 else CombinedCost(am, nm, p[0]) + SplitCost(am, nm, p[1..])
  }

  /** The cost of the arcs of a walk of the original digraph. */
  function ArcCost(am: map<Arc, int>, w: seq<Arc>): int {
    if w == [] then 0 else (if w[0] in am then am[w[0]] else 0) + ArcCost(am, w[1..])
  }

  /** The cost of the nodes the walk passes through, without its two ends. */
  function InnerCost(g: Digraph, nm: map<Node, int>, w: seq<Arc>): int
    requires forall a :: a in w ==> a in g.tgt
    decreases |w|
  {
    if |w| <= 1 then 0
    else
      var a := w[0];
      assert a in w;
      (var t := g.tgt[a]; if t in nm then nm[t] else 0) + InnerCost(g, nm, w[1..])
  }

  /** The combined cost of a split walk is the cost of its arcs and of its inner nodes. */
  lemma {:induction false} ExpandCost(g: Digraph, am: map<Arc, int>, nm: map<Node, int>, w: seq<Arc>)
    requires forall a :: a in w ==> a in g.tgt
    ensures SplitCost(am, nm, Expand(g, w)) == ArcCost(am, w) + InnerCost(g, nm, w)
    decreases |w|
  {
    if |w| == 1 {
      assert w[1..] == [] && Expand(g, w)[1..] == [];
    } else if |w| > 1 {
      var a := w[0];
      assert a in w;
      ExpandCost(g, am, nm, w[1..]);
      var p, q := Expand(g, w), Expand(g, w[1..]);
      assert p[1..] == [Bind(g.tgt[w[0]])] + q && p[1..][1..] == q;
    }
  }
}
