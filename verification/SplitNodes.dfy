/** The view `SplitNodesBase` of deps/lemon/lemon/adaptors.h: every node becomes an in-node and an
    out-node joined by a bind arc. */
module SplitNodes {
  import opened Cursors
  import opened Digraphs
  import opened Sequences

  datatype SNode = SNode(node: Node, isIn: bool)
  datatype SArc = Orig(arc: Arc) | Bind(bound: Node)

  const NO_NODE := SNode(INVALID, true)
  const NO_ARC := Orig(INVALID)

  function InNode(n: Node): SNode { SNode(n, true) }
  function OutNode(n: Node): SNode { SNode(n, false) }

  predicate IsArc(g: Digraph, e: SArc) {
    match e
    case Orig(a) => a in g.src && a in g.tgt
    case Bind(n) => n in g.outs
  }

  function Source(g: Digraph, e: SArc): SNode
    requires IsArc(g, e)
  {
    match e
    case Orig(a) => SNode(g.src[a], false)
    case Bind(n) => SNode(n, true)
  }

  function Target(g: Digraph, e: SArc): SNode
    requires IsArc(g, e)
  {
    match e
    case Orig(a) => SNode(g.tgt[a], true)
    case Bind(n) => SNode(n, false)
  }

  // ---------- whole-graph cursors ----------

  function FirstNode(g: Digraph): SNode {
    SNode(g.FirstNode(), true)
  }

  function NextNode(g: Digraph, n: SNode): SNode {
    if n.isIn then SNode(n.node, false) else SNode(g.NextNode(n.node), true)
  }

  function FirstArc(g: Digraph): SArc {
    var n := g.FirstNode();
    if n == INVALID then Orig(g.FirstArc()) else Bind(n)
  }

  function NextArc(g: Digraph, e: SArc): SArc {
    match e
    case Bind(b) =>
      var n := g.NextNode(b);
      if n == INVALID then Orig(g.FirstArc()) else Bind(n)
    case Orig(a) => Orig(g.NextArc(a))
  }

  /** Number `k` of the nodes: the in-node and the out-node of every node in turn. */
  function NodeList(g: Digraph): (l: seq<SNode>)
    ensures |l| == 2 * |g.nodes|
  {
    seq(2 * |g.nodes|, k requires 0 <= k < 2 * |g.nodes| => SNode(g.nodes[k / 2], k % 2 == 0))
  }

  function Binds(s: seq<Node>): (l: seq<SArc>)
    ensures |l| == |s|
  {
    seq(|s|, i requires 0 <= i < |s| => Bind(s[i]))
  }

  function Origs(s: seq<Arc>): (l: seq<SArc>)
    ensures |l| == |s|
  {
    seq(|s|, i requires 0 <= i < |s| => Orig(s[i]))
  }

  function ArcList(g: Digraph): seq<SArc> {
    Binds(g.nodes) + Origs(g.arcs)
  }

  lemma BindsElements(s: seq<Node>)
    ensures forall e :: e in Binds(s) <==> e.Bind? && e.bound in s
    ensures NoDup(s) ==> NoDup(Binds(s))
  {
    forall e: SArc | e.Bind? && e.bound in s ensures e in Binds(s) {
      var i :| 0 <= i < |s| && s[i] == e.bound;
      assert Binds(s)[i] == e;
    }
  }

  lemma OrigsElements(s: seq<Arc>)
    ensures forall e :: e in Origs(s) <==> e.Orig? && e.arc in s
    ensures NoDup(s) ==> NoDup(Origs(s))
  {
    forall e: SArc | e.Orig? && e.arc in s ensures e in Origs(s) {
      var i :| 0 <= i < |s| && s[i] == e.arc;
      assert Origs(s)[i] == e;
    }
  }

  /** The list has every in-node and every out-node exactly once: 2|V| nodes. */
  lemma NodesOnce(g: Digraph)
    requires g.Valid()
    ensures NoDup(NodeList(g)) && forall n :: n in NodeList(g) <==> n.node in g.nodes
  {
    var s, l := g.nodes, NodeList(g);
    AllListed(g);
    hide Digraph.Valid;
    forall i, j | 0 <= i < j < |l| ensures l[i] != l[j] {
      if i / 2 != j / 2 { assert s[i / 2] != s[j / 2]; }
    }
    forall n: SNode ensures n in l <==> n.node in s {
      if n.node in s {
        var i :| 0 <= i < |s| && s[i] == n.node;
        var j := if n.isIn then 2 * i else 2 * i + 1;
        assert j / 2 == i && l[j] == n;
      }
    }
  }

  /** Node iteration steps through the list and ends at INVALID. */
  lemma NodeCursor(g: Digraph, k: nat)
    requires g.Valid()
    ensures FirstNode(g) == HeadOr(NodeList(g), NO_NODE)
    ensures k < 2 * |g.nodes| ==> NodeList(g)[k] == SNode(g.nodes[k / 2], k % 2 == 0)
    ensures k < 2 * |g.nodes| ==>
              NextNode(g, NodeList(g)[k]) == if k + 1 < 2 * |g.nodes| then NodeList(g)[k + 1] else NO_NODE
  {
    AllListed(g);
    hide Digraph.Valid;
    if k < 2 * |g.nodes| {
      AfterAt(g.nodes, k / 2, INVALID);
      assert (k + 1) / 2 == if k % 2 == 0 then k / 2 else k / 2 + 1;
    }
  }

  lemma NodesListed(g: Digraph)
    requires g.Valid()
    ensures forall i :: 0 <= i < |g.nodes| ==> g.nodes[i] != INVALID
    ensures forall i :: 0 <= i < |g.arcs| ==> g.arcs[i] != INVALID
  {
    forall i | 0 <= i < |g.nodes| ensures g.nodes[i] != INVALID { var n := g.nodes[i]; assert n in g.nodes; }
    forall i | 0 <= i < |g.arcs| ensures g.arcs[i] != INVALID { var a := g.arcs[i]; assert a in g.arcs; }
  }

  /** The list has every bind arc and every original arc exactly once: |V| + |A| arcs. */
  lemma ArcsOnce(g: Digraph)
    requires g.Valid()
    ensures |ArcList(g)| == |g.nodes| + |g.arcs| && NoDup(ArcList(g))
    ensures forall e :: e in ArcList(g) <==> if e.Bind? then e.bound in g.nodes else e.arc in g.arcs
  {
    BindsElements(g.nodes);
    OrigsElements(g.arcs);
    ConcatNoDup(Binds(g.nodes), Origs(g.arcs));
  }

  /** Arc iteration steps through the list and ends at INVALID. */
  lemma ArcCursor(g: Digraph, k: nat)
    requires g.Valid()
    ensures FirstArc(g) == HeadOr(ArcList(g), NO_ARC)
    ensures k < |ArcList(g)| ==>
              ArcList(g)[k] == if k < |g.nodes| then Bind(g.nodes[k]) else Orig(g.arcs[k - |g.nodes|])
    ensures k < |ArcList(g)| ==>
              NextArc(g, ArcList(g)[k]) == if k + 1 < |ArcList(g)| then ArcList(g)[k + 1] else NO_ARC
  {
    var s, t := g.nodes, g.arcs;
    NodesListed(g);
    AllListed(g);
    hide Digraph.Valid;
    if k < |s| {
      AfterAt(s, k, INVALID);
    } else if k < |s| + |t| {
      AfterAt(t, k - |s|, INVALID);
    }
  }

  // ---------- the arcs at a node ----------

  function FirstOut(g: Digraph, n: SNode): SArc
    requires n.node in g.outs
  {
    if n.isIn then Bind(n.node) else Orig(g.FirstOut(n.node))
  }

  function NextOut(g: Digraph, e: SArc): SArc
    requires e.Orig? ==> e.arc in g.src && g.src[e.arc] in g.outs
  {
    if !e.Orig? then Orig(INVALID) else Orig(g.NextOut(e.arc))
  }

  function FirstIn(g: Digraph, n: SNode): SArc
    requires n.node in g.ins
  {
    if !n.isIn then Bind(n.node) else Orig(g.FirstIn(n.node))
  }

  function NextIn(g: Digraph, e: SArc): SArc
    requires e.Orig? ==> e.arc in g.tgt && g.tgt[e.arc] in g.ins
  {
    if !e.Orig? then Orig(INVALID) else Orig(g.NextIn(e.arc))
  }

  function OutList(g: Digraph, n: SNode): seq<SArc>
    requires n.node in g.outs
  {
    if n.isIn then [Bind(n.node)] else Origs(g.outs[n.node])
  }

  function InList(g: Digraph, n: SNode): seq<SArc>
    requires n.node in g.ins
  {
    if !n.isIn then [Bind(n.node)] else Origs(g.ins[n.node])
  }

  /** The out-cursor steps through exactly the arcs whose source is the node. */
  lemma OutOnce(g: Digraph, n: SNode, k: nat)
    requires g.Valid() && n.node in g.nodes
    ensures NoDup(OutList(g, n))
    ensures forall e :: e in OutList(g, n) <==> IsArc(g, e) && Source(g, e) == n
    ensures FirstOut(g, n) == HeadOr(OutList(g, n), NO_ARC)
    ensures k < |OutList(g, n)| ==>
              && (var e := OutList(g, n)[k]; e.Orig? ==> e.arc in g.src && g.src[e.arc] in g.outs)
              && NextOut(g, OutList(g, n)[k]) == if k + 1 < |OutList(g, n)| then OutList(g, n)[k + 1] else NO_ARC
  {
    var s := g.outs[n.node];
    OrigsElements(s);
    ListedArcs(g, n.node);
    forall e ensures e in OutList(g, n) <==> IsArc(g, e) && Source(g, e) == n {
    }
    hide Digraph.Valid;
    if !n.isIn && k < |s| { AfterAt(s, k, INVALID); }
  }

  lemma InOnce(g: Digraph, n: SNode, k: nat)
    requires g.Valid() && n.node in g.nodes
    ensures NoDup(InList(g, n))
    ensures forall e :: e in InList(g, n) <==> IsArc(g, e) && Target(g, e) == n
    ensures FirstIn(g, n) == HeadOr(InList(g, n), NO_ARC)
    ensures k < |InList(g, n)| ==>
              && (var e := InList(g, n)[k]; e.Orig? ==> e.arc in g.tgt && g.tgt[e.arc] in g.ins)
              && NextIn(g, InList(g, n)[k]) == if k + 1 < |InList(g, n)| then InList(g, n)[k + 1] else NO_ARC
  {
    var s := g.ins[n.node];
    OrigsElements(s);
    ListedArcs(g, n.node);
    forall e ensures e in InList(g, n) <==> IsArc(g, e) && Target(g, e) == n {
    }
    hide Digraph.Valid;
    if n.isIn && k < |s| { AfterAt(s, k, INVALID); }
  }

  // ---------- findArc ----------

  /** The arcs from `x` to `y`: the bind arc of a node, or the parallel original arcs. */
  ghost function Between(g: Digraph, x: SNode, y: SNode): seq<SArc>
    requires x.node in g.outs
  {
    if x.isIn == y.isIn then []
    else if x.isIn then (if x.node == y.node then [Bind(x.node)] else [])
    else Origs(g.Parallel(x.node, y.node))
  }

  lemma BetweenOnce(g: Digraph, x: SNode, y: SNode)
    requires g.Valid() && x.node in g.nodes && y.node in g.nodes
    ensures NoDup(Between(g, x, y))
    ensures forall e :: e in Between(g, x, y) <==> IsArc(g, e) && Source(g, e) == x && Target(g, e) == y
  {
    var s := g.Parallel(x.node, y.node);
    ParallelArcs(g, x.node, y.node);
    OrigsElements(s);
    forall e ensures e in Between(g, x, y) <==> IsArc(g, e) && Source(g, e) == x && Target(g, e) == y {
    }
  }

  lemma OrigsAfter(s: seq<Arc>, prev: SArc)
    requires NoDup(s) && INVALID !in s
    ensures Orig(HeadOr(s, INVALID)) == HeadOr(Origs(s), NO_ARC)
    ensures prev in Origs(s) ==>
            prev.Orig? && prev.arc in s && Orig(After(s, prev.arc, INVALID)) == After(Origs(s), prev, NO_ARC)
  {
    OrigsElements(s);
    if prev in Origs(s) {
      var k :| 0 <= k < |s| && s[k] == prev.arc;
      assert Origs(s)[k] == prev;
      AfterAt(s, k, INVALID);
      AfterAt(Origs(s), k, NO_ARC);
    }
  }

  /** Steps through the arcs from `x` to `y`: each exactly once, then INVALID. */
  method FindArc(g: Digraph, x: SNode, y: SNode, prev: SArc) returns (e: SArc)
    requires g.Valid() && x.node in g.nodes && y.node in g.nodes
    requires prev == NO_ARC || prev in Between(g, x, y)
    ensures e == if prev == NO_ARC then HeadOr(Between(g, x, y), NO_ARC) else After(Between(g, x, y), prev, NO_ARC)
  {
    if x.isIn && !y.isIn {
      if x.node == y.node && prev == NO_ARC {
        return Bind(x.node);
      }
    } else if !x.isIn && y.isIn {
      ParallelArcs(g, x.node, y.node);
      OrigsAfter(g.Parallel(x.node, y.node), prev);
      var a := FindArcLoop(g, x.node, y.node, prev.arc);
      return Orig(a);
    }
    return NO_ARC;
  }

  // ---------- ids ----------

  function NodeId(n: SNode): int {
    2 * n.node + if n.isIn then 0 else 1
  }

  function NodeFromId(ix: int): SNode {
    SNode(ix / 2, ix % 2 == 0)
  }

  function ArcId(e: SArc): int {
    match e
    case Orig(a) => 2 * a
    case Bind(n) => 2 * n + 1
  }

  function ArcFromId(ix: int): SArc {
    if ix % 2 == 0 then Orig(ix / 2) else Bind(ix / 2)
  }

  /** `id` is injective, with `nodeFromId` and `arcFromId` as its inverses; the low bit tells
      in-nodes from out-nodes and original arcs from bind arcs. */
  lemma IdsRoundTrip(n: SNode, e: SArc, ix: int)
    ensures NodeFromId(NodeId(n)) == n && NodeId(NodeFromId(ix)) == ix
    ensures NodeId(n) / 2 == n.node && (NodeId(n) % 2 == 0 <==> n.isIn)
    ensures ArcFromId(ArcId(e)) == e && ArcId(ArcFromId(ix)) == ix
    ensures ArcId(e) / 2 == (if e.Orig? then e.arc else e.bound) && (ArcId(e) % 2 == 0 <==> e.Orig?)
  {
  }

  /** The source's `maxNodeId`. */
  function MaxNodeId(g: Digraph): int {
    2 * MaxId(g.nodes) + 1
  }

  /** `maxNodeId` is the largest node id in use. */
  lemma MaxNodeIdLargest(g: Digraph)
    requires g.Valid() && g.nodes != []
    ensures exists n :: n in NodeList(g) && NodeId(n) == MaxNodeId(g)
    ensures forall n :: n in NodeList(g) ==> NodeId(n) <= MaxNodeId(g)
  {
    NodesOnce(g);
    MaxIdsUsed(g);
    hide Digraph.Valid, NodeList, NoDup;
    var n := OutNode(MaxId(g.nodes));
    assert n in NodeList(g) && NodeId(n) == MaxNodeId(g);
  }

  /** The largest ids of a non-empty list of nodes or arcs are in use. */
  lemma MaxIdsUsed(g: Digraph)
    requires g.Valid()
    ensures g.nodes != [] ==> MaxId(g.nodes) in g.nodes
    ensures g.arcs != [] ==> MaxId(g.arcs) in g.arcs && g.nodes != []
    ensures g.nodes == [] ==> MaxId(g.nodes) == -1
    ensures g.arcs == [] ==> MaxId(g.arcs) == -1
    ensures MaxId(g.nodes) == -1 <==> g.nodes == []
    ensures MaxId(g.arcs) == -1 <==> g.arcs == []
  {
    if g.nodes != [] {
      var n := g.nodes[0];
      assert n in g.nodes;
    }
    if g.arcs != [] {
      var a := g.arcs[0];
      assert a in g.arcs;
      ArcEnds(g, a);
    }
  }

  /** The source's `maxArcId`; the bound for bind arcs lacks the low bit. */
  function MaxArcId(g: Digraph): int
    requires g.Valid()
  {
    var a, b := 2 * MaxId(g.nodes), 2 * MaxId(g.arcs) + 1;
    if a < b then b else a
  }

  /** `maxArcId` bounds all arc ids exactly if the largest node id is no larger than the
      largest arc id. */
  lemma MaxArcIdBounds(g: Digraph)
    requires g.Valid()
    ensures (forall e :: e in ArcList(g) ==> ArcId(e) <= MaxArcId(g)) <==> MaxId(g.nodes) <= MaxId(g.arcs)
  {
    ArcsOnce(g);
    hide Digraph.Valid, ArcList;
    var m, n := MaxId(g.nodes), MaxId(g.arcs);
    if m > n {
      assert Bind(m) in ArcList(g);
      assert ArcId(Bind(m)) > MaxArcId(g);
    }
  }

  /** How far the bound is from the largest arc id in use: it is that id if the largest node id
      and arc id are equal, one more if the arc's is larger, and one less if the node's is. */
  lemma MaxArcIdDistance(g: Digraph)
    requires g.Valid() && g.nodes != []
    ensures exists e :: e in ArcList(g)
              && (forall f :: f in ArcList(g) ==> ArcId(f) <= ArcId(e))
              && ArcId(e) - MaxArcId(g) ==
                 if MaxId(g.nodes) < MaxId(g.arcs) then -1
                 else if MaxId(g.nodes) == MaxId(g.arcs) then 0
                 else 1
  {
    ArcsOnce(g);
    MaxIdsUsed(g);
    hide Digraph.Valid, ArcList, NoDup;
    var m, n := MaxId(g.nodes), MaxId(g.arcs);
    var e := if m < n then Orig(n) else Bind(m);
    assert e in ArcList(g);
    forall f | f in ArcList(g) ensures ArcId(f) <= ArcId(e) {
    }
  }

  /** One node and no arc: the bind arc has id 1, the bound is 0. */
  lemma MaxArcIdTooSmall()
    ensures var g := Digraph([0], [], map[], map[], map[0 := []], map[0 := []]);
            g.Valid() && Bind(0) in ArcList(g) && ArcId(Bind(0)) == 1 && MaxArcId(g) == 0
  {
    var g := Digraph([0], [], map[], map[], map[0 := []], map[0 := []]);
    assert ArcList(g)[0] == Bind(0);
    assert MaxId([0]) == 0;
  }
}
