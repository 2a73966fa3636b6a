/** The filtered view `SubDigraphBase` of deps/lemon/lemon/adaptors.h, here over the undirected view:
    cursors skip arcs that are hidden or lead to a hidden node. */
module SubDigraph {
  import opened Cursors
  import opened Digraphs
  import U = Undirector
  import opened Sequences

  type UArc = U.UArc

  /** What `firstOut` and `nextOut` do not skip. */
  function ShownOut(g: Digraph, nf: Node -> bool, af: UArc -> bool): UArc -> bool {
    (a: UArc) => a.edge in g.src && a.edge in g.tgt && af(a) && nf(U.Target(g, a))
  }

  function ShownIn(g: Digraph, nf: Node -> bool, af: UArc -> bool): UArc -> bool {
    (a: UArc) => a.edge in g.src && a.edge in g.tgt && af(a) && nf(U.Source(g, a))
  }

  ghost function OutList(g: Digraph, nf: Node -> bool, af: UArc -> bool, n: Node): seq<UArc>
    requires n in g.outs && n in g.ins
  {
    Filter(U.OutList(g, n), ShownOut(g, nf, af))
  }

  ghost function InList(g: Digraph, nf: Node -> bool, af: UArc -> bool, n: Node): seq<UArc>
    requires n in g.outs && n in g.ins
  {
    Filter(U.InList(g, n), ShownIn(g, nf, af))
  }

  method FirstOut(g: Digraph, nf: Node -> bool, af: UArc -> bool, n: Node) returns (a: UArc)
    requires g.Valid() && n in g.nodes
    ensures a == HeadOr(OutList(g, nf, af, n), U.NO_ARC)
  {
    a := U.FirstOut(g, n);
    U.OutCursor(g, n, 0);
    assert U.OutList(g, n)[0..] == U.OutList(g, n);
    a := SkipOut(g, nf, af, n, a, 0);
  }

  /** The loop that `firstOut` and `nextOut` share: it starts at position `k` of the list. */
  method SkipOut(g: Digraph, nf: Node -> bool, af: UArc -> bool, ghost n: Node, a0: UArc, ghost k0: nat)
    returns (a: UArc)
    requires g.Valid() && n in g.nodes && k0 <= |U.OutList(g, n)|
    requires a0 == HeadOr(U.OutList(g, n)[k0..], U.NO_ARC)
    ensures a == HeadOr(Filter(U.OutList(g, n)[k0..], ShownOut(g, nf, af)), U.NO_ARC)
  {
    ghost var l, p, k := U.OutList(g, n), ShownOut(g, nf, af), k0;
    U.OutListArcs(g, n);
    hide Filter, U.OutList, NoDup, Digraph.Valid, HeadOr, U.NextOut;
    a := a0;
    NotEnd(g, l, k);
    while a != U.NO_ARC && (!af(a) || !nf(U.Target(g, a)))
      invariant k0 <= k <= |l| && a == HeadOr(l[k..], U.NO_ARC)
      invariant a != U.NO_ARC <==> k < |l|
      invariant k < |l| ==> a == l[k] && a.edge in g.arcs && a.edge in g.src && a.edge in g.tgt
      invariant HeadOr(Filter(l[k..], p), U.NO_ARC) == HeadOr(Filter(l[k0..], p), U.NO_ARC)
      decreases |l| - k
    {
      U.OutCursor(g, n, k);
      FilterHead(l, p, k, U.NO_ARC);
      a := U.NextOut(g, a);
      k := k + 1;
      NotEnd(g, l, k);
    }
    FilterHead(l, p, k, U.NO_ARC);
  }

  lemma NotEnd(g: Digraph, l: seq<UArc>, k: nat)
    requires g.Valid() && k <= |l| && forall a :: a in l ==> a.edge in g.arcs
    ensures HeadOr(l[k..], U.NO_ARC) == U.NO_ARC <==> k == |l|
    ensures k < |l| ==> HeadOr(l[k..], U.NO_ARC) == l[k]
    ensures k < |l| ==> l[k].edge in g.arcs && l[k].edge in g.src && l[k].edge in g.tgt
  {
    if k < |l| {
      var a := l[k];
      assert a in l && a.edge in g.arcs;
      ArcEnds(g, a.edge);
    }
  }

  method NextOut(g: Digraph, nf: Node -> bool, af: UArc -> bool, ghost n: Node, a: UArc) returns (b: UArc)
    requires g.Valid() && n in g.nodes && a in OutList(g, nf, af, n)
    ensures b == After(OutList(g, nf, af, n), a, U.NO_ARC)
  {
    ghost var l, p := U.OutList(g, n), ShownOut(g, nf, af);
    FilterElements(l, p, a);
    ghost var k :| 0 <= k < |l| && l[k] == a;
    U.OutListArcs(g, n);
    hide Digraph.Valid, NoDup, Filter, After, HeadOr, U.OutList;
    U.OutCursor(g, n, k);
    FilterAfter(l, p, k, U.NO_ARC);
    b := U.NextOut(g, a);
    b := SkipOut(g, nf, af, n, b, k + 1);
  }

  method FirstIn(g: Digraph, nf: Node -> bool, af: UArc -> bool, n: Node) returns (a: UArc)
    requires g.Valid() && n in g.nodes
    ensures a == HeadOr(InList(g, nf, af, n), U.NO_ARC)
  {
    a := U.FirstIn(g, n);
    U.InCursor(g, n, 0);
    assert U.InList(g, n)[0..] == U.InList(g, n);
    a := SkipIn(g, nf, af, n, a, 0);
  }

  method SkipIn(g: Digraph, nf: Node -> bool, af: UArc -> bool, ghost n: Node, a0: UArc, ghost k0: nat)
    returns (a: UArc)
    requires g.Valid() && n in g.nodes && k0 <= |U.InList(g, n)|
    requires a0 == HeadOr(U.InList(g, n)[k0..], U.NO_ARC)
    ensures a == HeadOr(Filter(U.InList(g, n)[k0..], ShownIn(g, nf, af)), U.NO_ARC)
  {
    ghost var l, p, k := U.InList(g, n), ShownIn(g, nf, af), k0;
    U.InListArcs(g, n);
    hide Filter, U.InList, NoDup, Digraph.Valid, HeadOr, U.NextIn;
    a := a0;
    NotEnd(g, l, k);
    while a != U.NO_ARC && (!af(a) || !nf(U.Source(g, a)))
      invariant k0 <= k <= |l| && a == HeadOr(l[k..], U.NO_ARC)
      invariant a != U.NO_ARC <==> k < |l|
      invariant k < |l| ==> a == l[k] && a.edge in g.arcs && a.edge in g.src && a.edge in g.tgt
      invariant HeadOr(Filter(l[k..], p), U.NO_ARC) == HeadOr(Filter(l[k0..], p), U.NO_ARC)
      decreases |l| - k
    {
      U.InCursor(g, n, k);
      FilterHead(l, p, k, U.NO_ARC);
      a := U.NextIn(g, a);
      k := k + 1;
      NotEnd(g, l, k);
    }
    FilterHead(l, p, k, U.NO_ARC);
  }

  method NextIn(g: Digraph, nf: Node -> bool, af: UArc -> bool, ghost n: Node, a: UArc) returns (b: UArc)
    requires g.Valid() && n in g.nodes && a in InList(g, nf, af, n)
    ensures b == After(InList(g, nf, af, n), a, U.NO_ARC)
  {
    ghost var l, p := U.InList(g, n), ShownIn(g, nf, af);
    FilterElements(l, p, a);
    ghost var k :| 0 <= k < |l| && l[k] == a;
    U.InListArcs(g, n);
    hide Digraph.Valid, NoDup, Filter, After, HeadOr, U.InList;
    U.InCursor(g, n, k);
    FilterAfter(l, p, k, U.NO_ARC);
    b := U.NextIn(g, a);
    b := SkipIn(g, nf, af, n, b, k + 1);
  }

  /** Exactly the shown arcs at `n` are listed, each once. */
  lemma ListedOnce(g: Digraph, nf: Node -> bool, af: UArc -> bool, n: Node)
    requires g.Valid() && n in g.nodes
    ensures NoDup(OutList(g, nf, af, n)) && NoDup(InList(g, nf, af, n))
    ensures forall a :: a in OutList(g, nf, af, n) <==>
              a.edge in g.arcs && U.Source(g, a) == n && af(a) && nf(U.Target(g, a))
    ensures forall a :: a in InList(g, nf, af, n) <==>
              a.edge in g.arcs && U.Target(g, a) == n && af(a) && nf(U.Source(g, a))
  {
    U.OutListArcs(g, n);
    U.InListArcs(g, n);
    FilterNoDup(U.OutList(g, n), ShownOut(g, nf, af));
    FilterNoDup(U.InList(g, n), ShownIn(g, nf, af));
    forall a ensures a in OutList(g, nf, af, n) <==> a in U.OutList(g, n) && ShownOut(g, nf, af)(a) {
      FilterElements(U.OutList(g, n), ShownOut(g, nf, af), a);
    }
    forall a ensures a in InList(g, nf, af, n) <==> a in U.InList(g, n) && ShownIn(g, nf, af)(a) {
      FilterElements(U.InList(g, n), ShownIn(g, nf, af), a);
    }
  }
}
