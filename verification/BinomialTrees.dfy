/** What the slot-wise conditions of BinomialForest.dfy amount to: every root carries a
    binomial tree in the usual recursive sense, each live slot lies in exactly one of
    them, and the root degrees are the binary digits of the size. */
module BinomialTrees {
  import opened BinomialForest
  import opened BinomialMerge
  import opened BinomialItems

  /** Trees, with the slot number in every node. */
  datatype Tree = Node(slot: int, kids: seq<Tree>)

  /** The binomial tree of degree `k`: its subtrees are those of degree k-1, ..., 0. */
  ghost predicate Binomial(t: Tree, k: int) {
    |t.kids| == k && forall j :: 0 <= j < |t.kids| ==> Binomial(t.kids[j], k - 1 - j)
  }

  ghost predicate HeapOrdered(d: seq<Store>, t: Tree) {
    forall j :: 0 <= j < |t.kids| ==>
      && 0 <= t.slot < |d| && 0 <= t.kids[j].slot < |d|
      && d[t.slot].prio <= d[t.kids[j].slot].prio
      && HeapOrdered(d, t.kids[j])
  }

  ghost function Size(t: Tree): int {
    1 + SizeAll(t.kids)
  }

  ghost function SizeAll(s: seq<Tree>): int {
    if s == [] then 0 else Size(s[0]) + SizeAll(s[1..])
  }

  /** The tree hanging at slot `i`, read off the child and right links. */
  ghost function TreeAt(d: seq<Store>, i: int): Tree
    requires Links(d) && Live(d, i)
    decreases 2 * Rank(d, i)
  {
    assert NodeOk(d, i);
    Node(i, if d[i].child == -1 then [] else Siblings(d, d[i].child))
  }

  /** The trees of `c` and the siblings to its right. */
  ghost function Siblings(d: seq<Store>, c: int): seq<Tree>
    requires Links(d) && Live(d, c) && d[c].parent != -1
    decreases 2 * Rank(d, c) + 1
  {
    assert NodeOk(d, c);
    [TreeAt(d, c)] + if d[c].right == -1 then [] else Siblings(d, d[c].right)
  }

  ghost function Rank(d: seq<Store>, i: int): nat
    requires Links(d) && Live(d, i)
  {
    assert NodeOk(d, i);
    d[i].degree
  }

  lemma {:induction false} TreeIsBinomial(d: seq<Store>, i: int)
    requires Links(d) && Ordered(d) && Live(d, i)
    ensures Binomial(TreeAt(d, i), d[i].degree) && HeapOrdered(d, TreeAt(d, i))
    decreases 2 * Rank(d, i)
  {
    assert NodeOk(d, i);
    if d[i].child != -1 {
      SiblingsAreBinomial(d, d[i].child);
      var s := Siblings(d, d[i].child);
      assert TreeAt(d, i).kids == s;
    }
  }

  lemma {:induction false} SiblingsAreBinomial(d: seq<Store>, c: int)
    requires Links(d) && Ordered(d) && Live(d, c) && d[c].parent != -1
    ensures var s, p := Siblings(d, c), d[c].parent;
            && Live(d, p) && |s| == d[c].degree + 1
            && forall j :: 0 <= j < |s| ==>
                 && Binomial(s[j], d[c].degree - j) && HeapOrdered(d, s[j])
                 && 0 <= s[j].slot < |d| && d[p].prio <= d[s[j].slot].prio
    decreases 2 * Rank(d, c) + 1
  {
    assert NodeOk(d, c) && OrderOk(d, c);
    TreeIsBinomial(d, c);
    if d[c].right != -1 {
      SiblingsAreBinomial(d, d[c].right);
    }
  }

  /** In a heap-ordered tree no node is smaller than the root. */
  lemma {:induction false} OrderedTreeLeast(d: seq<Store>, t: Tree, i: int)
    requires HeapOrdered(d, t) && InTree(t, i) && 0 <= i < |d| && 0 <= t.slot < |d|
    ensures d[t.slot].prio <= d[i].prio
    decreases t
  {
    if t.slot != i {
      var j :| 0 <= j < |t.kids| && InTree(t.kids[j], i);
      OrderedTreeLeast(d, t.kids[j], i);
    }
  }

  /** A binomial tree of degree `k` has 2^k nodes. */
  lemma {:induction false} BinomialSize(t: Tree, k: int)
    requires Binomial(t, k)
    ensures Size(t) == Pow2(k)
    decreases t
  {
    LadderSize(t.kids, k);
  }

  lemma {:induction false} LadderSize(s: seq<Tree>, k: int)
    requires |s| == k && forall j :: 0 <= j < |s| ==> Binomial(s[j], k - 1 - j)
    ensures SizeAll(s) + 1 == Pow2(k)
    decreases s
  {
    if s != [] {
      BinomialSize(s[0], k - 1);
      forall j | 0 <= j < |s[1..]| ensures Binomial(s[1..][j], k - 1 - 1 - j) {
        assert s[1..][j] == s[j + 1];
      }
      LadderSize(s[1..], k - 1);
    }
  }

  // ---------- every live slot in exactly one tree ----------

  ghost predicate InTree(t: Tree, i: int) {
    t.slot == i || exists j :: 0 <= j < |t.kids| && InTree(t.kids[j], i)
  }

  /** Slot `a` is `i` or lies on the way from `i` to its root. */
  ghost predicate Above(d: seq<Store>, a: int, i: int)
    requires Links(d) && Live(d, i)
    decreases MaxDeg(d) - d[i].degree
  {
    assert NodeOk(d, i);
    a == i || (d[i].parent != -1 && Above(d, a, d[i].parent))
  }

  lemma {:induction false} RootAbove(d: seq<Store>, r: int, i: int)
    requires Links(d) && Live(d, i) && IsRoot(d, r)
    ensures Above(d, r, i) <==> RootOf(d, i) == r
    decreases MaxDeg(d) - d[i].degree
  {
    assert NodeOk(d, i);
    if d[i].parent != -1 { RootAbove(d, r, d[i].parent); }
  }

  lemma {:induction false} AboveStep(d: seq<Store>, a: int, b: int, i: int)
    requires Links(d) && Live(d, i) && Live(d, a) && Live(d, b) && Above(d, b, i) && (a == b || d[b].parent == a)
    ensures Above(d, a, i)
    decreases MaxDeg(d) - d[i].degree
  {
    assert NodeOk(d, i) && NodeOk(d, b);
    if i != b { AboveStep(d, a, b, d[i].parent); }
  }

  /** The nodes of the tree at `i` lie below `i`. */
  lemma {:induction false} InTreeAbove(d: seq<Store>, i: int, x: int)
    requires Links(d) && Live(d, i) && InTree(TreeAt(d, i), x)
    ensures Live(d, x) && Above(d, i, x)
    decreases 2 * Rank(d, i)
  {
    assert NodeOk(d, i);
    if x != i {
      assert TreeAt(d, i).kids == Siblings(d, d[i].child);
      InSiblingsAbove(d, d[i].child, x);
    }
  }

  lemma {:induction false} InSiblingsAbove(d: seq<Store>, c: int, x: int)
    requires Links(d) && Live(d, c) && d[c].parent != -1
    requires exists j :: 0 <= j < |Siblings(d, c)| && InTree(Siblings(d, c)[j], x)
    ensures Live(d, x) && Above(d, d[c].parent, x)
    decreases 2 * Rank(d, c) + 1
  {
    assert NodeOk(d, c);
    var s := Siblings(d, c);
    var j :| 0 <= j < |s| && InTree(s[j], x);
    if j == 0 {
      InTreeAbove(d, c, x);
      AboveStep(d, d[c].parent, c, x);
    } else {
      assert s[j] == Siblings(d, d[c].right)[j - 1];
      InSiblingsAbove(d, d[c].right, x);
    }
  }

  /** A child's tree is among the siblings that start at a child of no smaller degree. */
  lemma {:induction false} SiblingListed(d: seq<Store>, c: int, x: int) returns (j: nat)
    requires Links(d) && Live(d, c) && Live(d, x) && d[c].parent == d[x].parent != -1 && d[x].degree <= d[c].degree
    ensures j < |Siblings(d, c)| && Siblings(d, c)[j] == TreeAt(d, x)
    decreases Rank(d, c)
  {
    assert NodeOk(d, c) && NodeOk(d, x);
    assert SiblingsOk(d, c, x);
    if c == x {
      j := 0;
    } else {
      j := SiblingListed(d, d[c].right, x);
      j := j + 1;
    }
  }

  /** Whatever lies below `i` is in the tree at `i`. */
  lemma {:induction false} AboveInTree(d: seq<Store>, i: int, x: int)
    requires Links(d) && Live(d, i) && Live(d, x) && Above(d, i, x)
    ensures InTree(TreeAt(d, i), x)
    decreases MaxDeg(d) - d[x].degree
  {
    if x != i {
      assert NodeOk(d, x);
      AboveInTree(d, i, d[x].parent);
      ChildInTree(d, TreeAt(d, i), i, d[x].parent, x);
    }
  }

  /** With a node, its children are in the tree. */
  lemma {:induction false} ChildInTree(d: seq<Store>, t: Tree, i: int, p: int, x: int)
    requires Links(d) && Live(d, i) && t == TreeAt(d, i)
    requires Live(d, x) && d[x].parent == p && InTree(t, p)
    ensures InTree(t, x)
    decreases t
  {
    assert NodeOk(d, x) && NodeOk(d, i);
    if p == i {
      var j := SiblingListed(d, d[i].child, x);
      assert InTree(t.kids[j], x);
    } else {
      var j :| 0 <= j < |t.kids| && InTree(t.kids[j], p);
      var c := SiblingIsTree(d, d[i].child, j);
      ChildInTree(d, t.kids[j], c, p, x);
    }
  }

  lemma {:induction false} SiblingIsTree(d: seq<Store>, c: int, j: nat) returns (x: int)
    requires Links(d) && Live(d, c) && d[c].parent != -1 && j < |Siblings(d, c)|
    ensures Live(d, x) && Siblings(d, c)[j] == TreeAt(d, x)
    decreases Rank(d, c)
  {
    assert NodeOk(d, c);
    if j == 0 {
      x := c;
    } else {
      x := SiblingIsTree(d, d[c].right, j - 1);
    }
  }

  /** The forest theorem: the trees at the roots are heap-ordered binomial trees of the
      recorded degrees with 2^degree nodes each, and every live slot lies in exactly one. */
  lemma ForestOfBinomialTrees(d: seq<Store>, h: int, l: seq<int>)
    requires Forest(d, h, l)
    ensures Links(d)
    ensures forall r :: r in l ==>
              && Live(d, r)
              && var t := TreeAt(d, r);
                 t.slot == r && Binomial(t, d[r].degree) && HeapOrdered(d, t) && Size(t) == Pow2(d[r].degree)
    ensures forall r, i :: r in l ==>
              Live(d, r) && (InTree(TreeAt(d, r), i) <==> Live(d, i) && RootOf(d, i) == r)
    ensures forall i :: Live(d, i) ==> RootOf(d, i) in l
  {
    forall r | r in l
      ensures Live(d, r)
      ensures var t := TreeAt(d, r);
              t.slot == r && Binomial(t, d[r].degree) && HeapOrdered(d, t) && Size(t) == Pow2(d[r].degree)
    {
      TreeIsBinomial(d, r);
      BinomialSize(TreeAt(d, r), d[r].degree);
    }
    forall r, i | r in l ensures InTree(TreeAt(d, r), i) <==> Live(d, i) && RootOf(d, i) == r {
      if InTree(TreeAt(d, r), i) { InTreeAbove(d, r, i); }
      if Live(d, i) { RootAbove(d, r, i); }
      if Live(d, i) && RootOf(d, i) == r { AboveInTree(d, r, i); }
    }
  }

  // ---------- binary digits ----------

  /** Binary digit number `k` of `n`. */
  ghost predicate Bit(n: nat, k: nat) {
    if k == 0 then n % 2 == 1 else Bit(n / 2, k - 1)
  }

  /** The weight of a list divided by 2^b. */
  ghost function WeightFrom(d: seq<Store>, l: seq<int>, b: int): nat {
    if l == [] then 0 else Pow2(Deg(d, l[0]) - b) + WeightFrom(d, l[1..], b)
  }

  lemma {:induction false} WeightFromHalves(d: seq<Store>, l: seq<int>, b: int)
    requires AtLeast(d, l, b + 1)
    ensures WeightFrom(d, l, b) == 2 * WeightFrom(d, l, b + 1)
  {
    if l != [] {
      assert AtLeast(d, l[1..], b + 1);
      WeightFromHalves(d, l[1..], b);
    }
  }

  /** Some entry of the list has degree `g`. */
  ghost predicate HasDegree(d: seq<Store>, l: seq<int>, g: int) {
    exists k :: 0 <= k < |l| && Deg(d, l[k]) == g
  }

  lemma HasDegreeTail(d: seq<Store>, l: seq<int>, g: int)
    requires l != []
    ensures HasDegree(d, l, g) <==> Deg(d, l[0]) == g || HasDegree(d, l[1..], g)
  {
    assert l == [l[0]] + l[1..];
  }

  lemma {:induction false} DegreesAreBits(d: seq<Store>, l: seq<int>, b: int, k: nat)
    requires Increasing(d, l) && AtLeast(d, l, b)
    ensures Bit(WeightFrom(d, l, b), k) <==> HasDegree(d, l, b + k)
    decreases k
  {
    if l != [] && Deg(d, l[0]) == b {
      TailIncreasing(d, l);
      var t := l[1..];
      WeightFromHalves(d, t, b);
      assert WeightFrom(d, l, b) == 1 + 2 * WeightFrom(d, t, b + 1);
      HasDegreeTail(d, l, b + k);
      if k > 0 { DegreesAreBits(d, t, b + 1, k - 1); }
    } else {
      assert AtLeast(d, l, b + 1);
      WeightFromHalves(d, l, b);
      if k > 0 { DegreesAreBits(d, l, b + 1, k - 1); }
    }
  }

  lemma WeightFromZero(d: seq<Store>, l: seq<int>)
    ensures WeightFrom(d, l, 0) == Weight(d, l)
  {
  }

  lemma {:induction false} PowGrows(j: int, k: int)
    requires j <= k
    ensures Pow2(j) <= Pow2(k)
    decreases k - j
  {
    if j < k { PowGrows(j, k - 1); }
  }

  /** The root degrees are the binary digits of the number of nodes, so a node of degree
      `g` needs at least 2^g nodes. */
  lemma RootDegreesAreBits(d: seq<Store>, h: int, l: seq<int>)
    requires Forest(d, h, l) && Increasing(d, l)
    ensures forall k: nat :: Bit(Weight(d, l), k) <==> HasDegree(d, l, k)
    ensures forall i :: Live(d, i) ==> Pow2(d[i].degree) <= Weight(d, l)
  {
    forall k | 0 <= k < |l| ensures 0 <= Deg(d, l[k]) {
      assert l[k] in l && NodeOk(d, l[k]);
    }
    forall k: nat ensures Bit(Weight(d, l), k) <==> HasDegree(d, l, k) {
      WeightFromZero(d, l);
      DegreesAreBits(d, l, 0, k);
    }
    forall i | Live(d, i) ensures Pow2(d[i].degree) <= Weight(d, l) {
      RootBelow(d, i);
      var r := RootOf(d, i);
      var k :| 0 <= k < |l| && l[k] == r;
      WithoutWeight(d, l, k);
      PowGrows(d[i].degree, d[r].degree);
    }
  }
}
