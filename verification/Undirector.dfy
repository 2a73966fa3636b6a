/** The undirected view `UndirectorBase` of deps/lemon/lemon/adaptors.h: every arc of the digraph is an
    edge and can be walked both ways. */
module Undirector {
  import opened Cursors
  import opened Digraphs
  import opened Sequences

  /** An arc of the view: the edge and whether it is taken forwards. */
  datatype UArc = UArc(edge: Arc, forward: bool)

  /** `Arc(INVALID)`; note that it is a forward one, so `_forward` matters in comparisons. */
  const NO_ARC := UArc(INVALID, true)

  function Source(g: Digraph, a: UArc): Node
    requires a.edge in g.src && a.edge in g.tgt
  {
    if a.forward then g.src[a.edge] else g.tgt[a.edge]
  }

  function Target(g: Digraph, a: UArc): Node
    requires a.edge in g.src && a.edge in g.tgt
  {
    if a.forward then g.tgt[a.edge] else g.src[a.edge]
  }

  // ---------- cursors ----------

  function First(g: Digraph): UArc {
    UArc(g.FirstArc(), true)
  }

  function Next(g: Digraph, a: UArc): UArc {
    if a.forward then UArc(a.edge, false) else UArc(g.NextArc(a.edge), true)
  }

  function FirstOut(g: Digraph, n: Node): UArc
    requires n in g.outs && n in g.ins
  {
    var e := g.FirstIn(n);
    if e != INVALID then UArc(e, false) else UArc(g.FirstOut(n), true)
  }

  function NextOut(g: Digraph, a: UArc): UArc
    requires g.Valid() && a.edge in g.arcs
  {
    ArcEnds(g, a.edge);
    if !a.forward then
      var n := g.tgt[a.edge];
      var e := g.NextIn(a.edge);
      if e == INVALID then UArc(g.FirstOut(n), true) else UArc(e, false)
    else
      UArc(g.NextOut(a.edge), true)
  }

  function FirstIn(g: Digraph, n: Node): UArc
    requires n in g.outs && n in g.ins
  {
    var e := g.FirstOut(n);
    if e != INVALID then UArc(e, false) else UArc(g.FirstIn(n), true)
  }

  function NextIn(g: Digraph, a: UArc): UArc
    requires g.Valid() && a.edge in g.arcs
  {
    ArcEnds(g, a.edge);
    if !a.forward then
      var n := g.src[a.edge];
      var e := g.NextOut(a.edge);
      if e == INVALID then UArc(g.FirstIn(n), true) else UArc(e, false)
    else
      UArc(g.NextIn(a.edge), true)
  }

  /** Arc number `k` of the view: every edge forwards, then backwards. */
  function ArcList(g: Digraph): (l: seq<UArc>)
    ensures |l| == 2 * |g.arcs|
  {
    seq(2 * |g.arcs|, k requires 0 <= k < 2 * |g.arcs| => UArc(g.arcs[k / 2], k % 2 == 0))
  }

  /** Every edge is listed exactly once in each direction. */
  lemma ArcsOnce(g: Digraph)
    requires g.Valid()
    ensures NoDup(ArcList(g))
    ensures forall a :: a in ArcList(g) <==> a.edge in g.arcs
  {
    var s, l := g.arcs, ArcList(g);
    AllListed(g);
    hide Digraph.Valid;
    forall i, j | 0 <= i < j < |l| ensures l[i] != l[j] {
      if i / 2 != j / 2 { assert s[i / 2] != s[j / 2]; }
    }
    forall a: UArc ensures a in l <==> a.edge in s {
      if a.edge in s {
        var i :| 0 <= i < |s| && s[i] == a.edge;
        var j := if a.forward then 2 * i else 2 * i + 1;
        assert j / 2 == i && l[j] == a;
      }
    }
  }

  /** Whole-graph iteration steps through the list. */
  lemma ArcCursor(g: Digraph, k: nat)
    requires g.Valid()
    ensures First(g) == HeadOr(ArcList(g), NO_ARC)
    ensures k < 2 * |g.arcs| ==> ArcList(g)[k] == UArc(g.arcs[k / 2], k % 2 == 0)
    ensures k < 2 * |g.arcs| ==>
              Next(g, ArcList(g)[k]) == if k + 1 < 2 * |g.arcs| then ArcList(g)[k + 1] else NO_ARC
  {
    AllListed(g);
    hide Digraph.Valid;
    if k < 2 * |g.arcs| {
      AfterAt(g.arcs, k / 2, INVALID);
      assert (k + 1) / 2 == if k % 2 == 0 then k / 2 else k / 2 + 1;
    }
  }

  // ---------- ids ----------

  function ArcId(a: UArc): int {
    2 * a.edge + if a.forward then 1 else 0
  }

  function ArcFromId(ix: int): UArc {
    UArc(ix / 2, ix % 2 == 1)
  }

  function MaxArcId(g: Digraph): int {
    2 * MaxId(g.arcs) + 1
  }

  lemma MaxIdUsed(g: Digraph)
    requires g.Valid() && g.arcs != []
    ensures MaxId(g.arcs) in g.arcs
  {
    var e := g.arcs[0];
    assert e in g.arcs;
  }

  /** `id` and `arcFromId` are inverse, the low bit tells the direction, and `maxArcId` is the
      largest id in use. */
  lemma ArcIds(g: Digraph, a: UArc, ix: int)
    requires g.Valid()
    ensures ArcFromId(ArcId(a)) == a && ArcId(ArcFromId(ix)) == ix
    ensures ArcId(a) / 2 == a.edge && (ArcId(a) % 2 == 1 <==> a.forward)
    ensures forall b :: b in ArcList(g) ==> ArcId(b) <= MaxArcId(g)
    ensures g.arcs != [] ==> exists b :: b in ArcList(g) && ArcId(b) == MaxArcId(g)
  {
    ArcsOnce(g);
    if g.arcs != [] {
      MaxIdUsed(g);
      var b := UArc(MaxId(g.arcs), true);
      assert b in ArcList(g);
    }
    hide Digraph.Valid, ArcList, NoDup;
  }

  // ---------- what they enumerate ----------

  function Directed(s: seq<Arc>, d: bool): (t: seq<UArc>)
    ensures |t| == |s|
  {
    seq(|s|, i requires 0 <= i < |s| => UArc(s[i], d))
  }

  /** The edges of `s` in direction `d`, then those of `t` in the other direction. */
  function Both(s: seq<Arc>, d: bool, t: seq<Arc>): seq<UArc> {
    Directed(s, d) + Directed(t, !d)
  }

  lemma BothElements(s: seq<Arc>, d: bool, t: seq<Arc>)
    requires NoDup(s) && NoDup(t)
    ensures NoDup(Both(s, d, t))
    ensures forall a :: a in Both(s, d, t) <==> a.edge in if a.forward == d then s else t
  {
    var l := Both(s, d, t);
    forall a ensures a in l <==> a.edge in if a.forward == d then s else t {
      if a.forward != d && a.edge in t {
        var i :| 0 <= i < |t| && t[i] == a.edge;
        assert l[|s| + i] == a;
      } else if a.forward == d && a.edge in s {
        var i :| 0 <= i < |s| && s[i] == a.edge;
        assert l[i] == a;
      }
    }
  }

  /** The entry of the two-way list at position `k`, or INVALID at its end. */
  function BothAt(s: seq<Arc>, d: bool, t: seq<Arc>, k: nat): UArc {
    if k < |s| then UArc(s[k], d) else if k < |s| + |t| then UArc(t[k - |s|], !d) else NO_ARC
  }

  lemma BothStep(s: seq<Arc>, d: bool, t: seq<Arc>, k: nat)
    requires k <= |s| + |t|
    ensures |Both(s, d, t)| == |s| + |t|
    ensures HeadOr(Both(s, d, t)[k..], NO_ARC) == BothAt(s, d, t, k)
    ensures k < |s| + |t| ==> Both(s, d, t)[k] == BothAt(s, d, t, k)
  {
    var l := Both(s, d, t);
    if k < |l| { assert l[k..][0] == l[k]; } else { assert l[k..] == []; }
  }

  /** The arcs of the view that leave `n`: its in-arcs backwards, then its out-arcs. */
  function OutList(g: Digraph, n: Node): seq<UArc>
    requires n in g.outs && n in g.ins
  {
    Both(g.ins[n], false, g.outs[n])
  }

  function InList(g: Digraph, n: Node): seq<UArc>
    requires n in g.outs && n in g.ins
  {
    Both(g.outs[n], false, g.ins[n])
  }

  lemma OutListArcs(g: Digraph, n: Node)
    requires g.Valid() && n in g.nodes
    ensures NoDup(OutList(g, n))
    ensures forall a :: a in OutList(g, n) <==> a.edge in g.arcs && Source(g, a) == n
  {
    BothElements(g.ins[n], false, g.outs[n]);
  }

  lemma InListArcs(g: Digraph, n: Node)
    requires g.Valid() && n in g.nodes
    ensures NoDup(InList(g, n))
    ensures forall a :: a in InList(g, n) <==> a.edge in g.arcs && Target(g, a) == n
  {
    BothElements(g.outs[n], false, g.ins[n]);
  }

  /** `firstOut` and `nextOut` step through the whole list and end at INVALID. */
  lemma OutCursor(g: Digraph, n: Node, k: nat)
    requires g.Valid() && n in g.nodes
    ensures FirstOut(g, n) == HeadOr(OutList(g, n), NO_ARC)
    ensures k < |OutList(g, n)| ==>
              && OutList(g, n)[k].edge in g.arcs
              && OutList(g, n)[k] == BothAt(g.ins[n], false, g.outs[n], k)
              && NextOut(g, OutList(g, n)[k]) == HeadOr(OutList(g, n)[k + 1..], NO_ARC)
  {
    var s, t := g.ins[n], g.outs[n];
    BothStep(s, false, t, 0);
    assert OutList(g, n)[0..] == OutList(g, n);
    ListedArcs(g, n);
    if k < |s| + |t| { ArcEnds(g, if k < |s| then s[k] else t[k - |s|]); }
    hide Digraph.Valid;
    if k < |s| + |t| {
      BothStep(s, false, t, k);
      BothStep(s, false, t, k + 1);
      if k < |s| {
        AfterAt(s, k, INVALID);
      } else {
        AfterAt(t, k - |s|, INVALID);
      }
    }
  }

  lemma InCursor(g: Digraph, n: Node, k: nat)
    requires g.Valid() && n in g.nodes
    ensures FirstIn(g, n) == HeadOr(InList(g, n), NO_ARC)
    ensures k < |InList(g, n)| ==>
              && InList(g, n)[k].edge in g.arcs
              && InList(g, n)[k] == BothAt(g.outs[n], false, g.ins[n], k)
              && NextIn(g, InList(g, n)[k]) == HeadOr(InList(g, n)[k + 1..], NO_ARC)
  {
    var s, t := g.outs[n], g.ins[n];
    BothStep(s, false, t, 0);
    assert InList(g, n)[0..] == InList(g, n);
    ListedArcs(g, n);
    if k < |s| + |t| { ArcEnds(g, if k < |s| then s[k] else t[k - |s|]); }
    hide Digraph.Valid;
    if k < |s| + |t| {
      BothStep(s, false, t, k);
      BothStep(s, false, t, k + 1);
      if k < |s| {
        AfterAt(s, k, INVALID);
      } else {
        AfterAt(t, k - |s|, INVALID);
      }
    }
  }

  // ---------- findArc and findEdge ----------

  /** All arcs of the view from `s` to `t`; a loop at `s` is there in both directions. */
  ghost function BetweenArcs(g: Digraph, s: Node, t: Node): seq<UArc>
    requires s in g.outs && t in g.outs
  {
    Both(g.Parallel(s, t), true, g.Parallel(t, s))
  }

  lemma BetweenArcsOnce(g: Digraph, s: Node, t: Node)
    requires g.Valid() && s in g.nodes && t in g.nodes
    ensures var l := BetweenArcs(g, s, t);
            && NoDup(l)
            && (forall a :: a in l <==> a.edge in g.arcs && Source(g, a) == s && Target(g, a) == t)
            && NO_ARC !in l
  {
    ParallelArcs(g, s, t);
    ParallelArcs(g, t, s);
    BothElements(g.Parallel(s, t), true, g.Parallel(t, s));
  }

  /** The arcs taken forwards come first, then those taken backwards. */
  lemma BetweenArcsOrder(g: Digraph, s: Node, t: Node, k: nat)
    requires g.Valid() && s in g.nodes && t in g.nodes
    ensures s in g.outs && t in g.outs && |BetweenArcs(g, s, t)| == |g.Parallel(s, t)| + |g.Parallel(t, s)|
    ensures k < |BetweenArcs(g, s, t)| ==>
              BetweenArcs(g, s, t)[k] == BothAt(g.Parallel(s, t), true, g.Parallel(t, s), k)
  {
    hide Digraph.Parallel;
    if k < |g.Parallel(s, t)| + |g.Parallel(t, s)| { BothStep(g.Parallel(s, t), true, g.Parallel(t, s), k); }
  }

  lemma BothHead(s: seq<Arc>, d: bool, t: seq<Arc>)
    requires INVALID !in s && INVALID !in t
    ensures var l, e := Both(s, d, t), HeadOr(s, INVALID);
            HeadOr(l, NO_ARC) == if e != INVALID then UArc(e, d) else AsArc(HeadOr(t, INVALID), !d)
  {
    NeverEnds(s, INVALID);
    NeverEnds(t, INVALID);
    BothStep(s, d, t, 0);
    assert Both(s, d, t)[0..] == Both(s, d, t);
  }

  lemma BothAfterAt(s: seq<Arc>, d: bool, t: seq<Arc>, k: nat)
    requires NoDup(s) && NoDup(t) && k < |s| + |t|
    ensures After(Both(s, d, t), BothAt(s, d, t, k), NO_ARC) == BothAt(s, d, t, k + 1)
  {
    var l := Both(s, d, t);
    BothElements(s, d, t);
    BothStep(s, d, t, k);
    if k + 1 < |l| { BothStep(s, d, t, k + 1); }
    hide Both;
    AfterAt(l, k, NO_ARC);
  }

  /** The entry after `a` in a two-way list, from those of its two parts. */
  lemma BothAfter(s: seq<Arc>, d: bool, t: seq<Arc>, a: UArc)
    requires NoDup(s) && NoDup(t) && INVALID !in s && INVALID !in t && a in Both(s, d, t)
    ensures After(Both(s, d, t), a, NO_ARC) ==
            if a.forward == d then
              var e := After(s, a.edge, INVALID);
              if e != INVALID then UArc(e, d) else AsArc(HeadOr(t, INVALID), !d)
            else
              AsArc(After(t, a.edge, INVALID), !d)
    ensures a.edge in if a.forward == d then s else t
  {
    NeverEnds(s, INVALID);
    NeverEnds(t, INVALID);
    var k :| 0 <= k < |Both(s, d, t)| && Both(s, d, t)[k] == a;
    BothStep(s, d, t, k);
    EitherPart(s, d, t, a, k);
    BothAfterAt(s, d, t, k);
    hide Both, After, NoDup;
    if k < |s| { AfterAt(s, k, INVALID); } else { AfterAt(t, k - |s|, INVALID); }
  }

  /** The direction tells in which part of the list an arc stands. */
  lemma EitherPart(s: seq<Arc>, d: bool, t: seq<Arc>, a: UArc, k: nat)
    requires k < |s| + |t| && Both(s, d, t)[k] == a
    ensures a.forward == d <==> k < |s|
    ensures a.edge == if k < |s| then s[k] else t[k - |s|]
  {
  }

  function AsArc(e: Arc, d: bool): UArc {
    if e != INVALID then UArc(e, d) else NO_ARC
  }

  lemma ParallelValid(g: Digraph, s: Node, t: Node)
    requires g.Valid() && s in g.nodes && t in g.nodes
    ensures s in g.outs && NoDup(g.Parallel(s, t)) && INVALID !in g.Parallel(s, t)
    ensures forall a :: a in g.Parallel(s, t) ==>
              a in g.outs[s] && a in g.src && g.src[a] == s && a in g.tgt && g.tgt[a] == t
  {
    ParallelArcs(g, s, t);
  }

  /** Steps through the arcs from `s` to `t`: each exactly once, then INVALID. */
  method FindArc(g: Digraph, s: Node, t: Node, p: UArc) returns (a: UArc)
    requires g.Valid() && s in g.nodes && t in g.nodes
    requires p == NO_ARC || p in BetweenArcs(g, s, t)
    ensures a == if p == NO_ARC then HeadOr(BetweenArcs(g, s, t), NO_ARC) else After(BetweenArcs(g, s, t), p, NO_ARC)
  {
    ParallelValid(g, s, t);
    ParallelValid(g, t, s);
    BothHead(g.Parallel(s, t), true, g.Parallel(t, s));
    if p in BetweenArcs(g, s, t) { BothAfter(g.Parallel(s, t), true, g.Parallel(t, s), p); }
    hide Digraph.Valid, Digraph.Parallel, Both, HeadOr, After;
    if p == NO_ARC {
      var arc := FindArcLoop(g, s, t, INVALID);
      if arc != INVALID { return UArc(arc, true); }
      arc := FindArcLoop(g, t, s, INVALID);
      if arc != INVALID { return UArc(arc, false); }
    } else if p.forward {
      var arc := FindArcLoop(g, s, t, p.edge);
      if arc != INVALID { return UArc(arc, true); }
      arc := FindArcLoop(g, t, s, INVALID);
      if arc != INVALID { return UArc(arc, false); }
    } else {
      var arc := FindArcLoop(g, t, s, p.edge);
      if arc != INVALID { return UArc(arc, false); }
    }
    return NO_ARC;
  }

  /** All edges between `s` and `t`; a loop is there once. */
  ghost function BetweenEdges(g: Digraph, s: Node, t: Node): seq<Arc>
    requires s in g.outs && t in g.outs
  {
    if s != t then g.Parallel(s, t) + g.Parallel(t, s) else g.Parallel(s, s)
  }

  lemma BetweenEdgesOnce(g: Digraph, s: Node, t: Node)
    requires g.Valid() && s in g.nodes && t in g.nodes
    ensures var l := BetweenEdges(g, s, t);
            && NoDup(l) && INVALID !in l
            && (forall e :: e in l <==>
                  e in g.arcs && ((g.src[e] == s && g.tgt[e] == t) || (g.src[e] == t && g.tgt[e] == s)))
  {
    ParallelArcs(g, s, t);
    ParallelArcs(g, t, s);
    hide Digraph.Parallel;
    var p, q := g.Parallel(s, t), g.Parallel(t, s);
    if s != t {
      assert forall e :: e in p ==> e !in q;
      ConcatNoDup(p, q);
    }
  }

  lemma ConcatAfter(s: seq<Arc>, t: seq<Arc>, a: Arc)
    requires NoDup(s) && NoDup(t) && NoDup(s + t) && INVALID !in s && INVALID !in t
    ensures HeadOr(s + t, INVALID) == if HeadOr(s, INVALID) != INVALID then HeadOr(s, INVALID) else HeadOr(t, INVALID)
    ensures a in s ==>
              After(s + t, a, INVALID) ==
              if After(s, a, INVALID) != INVALID then After(s, a, INVALID) else HeadOr(t, INVALID)
    ensures a in t ==> After(s + t, a, INVALID) == After(t, a, INVALID)
  {
    NeverEnds(s, INVALID);
    NeverEnds(t, INVALID);
    if a in s {
      var k :| 0 <= k < |s| && s[k] == a;
      assert (s + t)[k] == a;
      AfterAt(s, k, INVALID);
      AfterAt(s + t, k, INVALID);
    }
    if a in t {
      var k :| 0 <= k < |t| && t[k] == a;
      assert (s + t)[|s| + k] == a;
      AfterAt(t, k, INVALID);
      AfterAt(s + t, |s| + k, INVALID);
    }
  }

  /** Steps through the edges between `s` and `t`: each exactly once, then INVALID. */
  method FindEdge(g: Digraph, s: Node, t: Node, p: Arc) returns (e: Arc)
    requires g.Valid() && s in g.nodes && t in g.nodes
    requires p == INVALID || p in BetweenEdges(g, s, t)
    ensures e == if p == INVALID then HeadOr(BetweenEdges(g, s, t), INVALID)
                 else After(BetweenEdges(g, s, t), p, INVALID)
  {
    ParallelValid(g, s, t);
    ParallelValid(g, t, s);
    BetweenEdgesOnce(g, s, t);
    if s != t { ConcatAfter(g.Parallel(s, t), g.Parallel(t, s), p); }
    hide Digraph.Valid, Digraph.Parallel, HeadOr, After, NoDup;
    if s != t {
      if p == INVALID {
        e := FindArcLoop(g, s, t, INVALID);
        if e != INVALID { return; }
        e := FindArcLoop(g, t, s, INVALID);
        if e != INVALID { return; }
      } else if g.src[p] == s {
        e := FindArcLoop(g, s, t, p);
        if e != INVALID { return; }
        e := FindArcLoop(g, t, s, INVALID);
        if e != INVALID { return; }
      } else {
        e := FindArcLoop(g, t, s, p);
        if e != INVALID { return; }
      }
    } else {
      e := FindArcLoop(g, s, t, p);
      return;
    }
    return INVALID;
  }

  /** The loop over parallel arcs; see `BetweenArcsOnce` for what they are. */
  method EveryArc(g: Digraph, s: Node, t: Node) returns (l: seq<UArc>)
    requires g.Valid() && s in g.nodes && t in g.nodes
    ensures l == BetweenArcs(g, s, t)
  {
    ghost var all := BetweenArcs(g, s, t);
    BetweenArcsOnce(g, s, t);
    hide Digraph.Valid, NoDup, BetweenArcs, After, HeadOr, Collected;
    l := [];
    var a := FindArc(g, s, t, NO_ARC);
    CollectStart(all, NO_ARC);
    while a != NO_ARC
      invariant Collected(all, l, a, NO_ARC)
      decreases |all| - |l|
    {
      CollectStep(all, l, a, NO_ARC);
      l := l + [a];
      a := FindArc(g, s, t, a);
    }
    CollectEnd(all, l, NO_ARC);
  }

  lemma NeverEnds<T>(l: seq<T>, end: T)
    requires end !in l
    ensures forall k :: 0 <= k < |l| ==> l[k] != end
  {
  }

  /** The loop over parallel edges; see `BetweenEdgesOnce` for what they are. */
  method EveryEdge(g: Digraph, s: Node, t: Node) returns (l: seq<Arc>)
    requires g.Valid() && s in g.nodes && t in g.nodes
    ensures l == BetweenEdges(g, s, t)
  {
    ghost var all := BetweenEdges(g, s, t);
    BetweenEdgesOnce(g, s, t);
    hide Digraph.Valid, NoDup, BetweenEdges, After, HeadOr, Collected;
    l := [];
    var e := FindEdge(g, s, t, INVALID);
    CollectStart(all, INVALID);
    while e != INVALID
      invariant Collected(all, l, e, INVALID)
      decreases |all| - |l|
    {
      CollectStep(all, l, e, INVALID);
      l := l + [e];
      e := FindEdge(g, s, t, e);
    }
    CollectEnd(all, l, INVALID);
  }
}
