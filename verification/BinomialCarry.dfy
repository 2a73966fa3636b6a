/** Which roots the consolidation loop of `merge` (deps/lemon/lemon/binomial_heap.h)
    absorbs when the first root has least priority: exactly those of a carry chain, as in
    adding one to a binary number. This decides whether a pushed tie with the minimum
    buries the root that the cached minimum points at. */
module BinomialCarry {
  import opened BinomialForest
  import opened Sequences

  /** `s` is a root in `l` of least priority. */
  ghost predicate LeastRoot(d: seq<Store>, l: seq<int>, s: int) {
    && 0 <= s < |d| && s in l
    && (forall k :: 0 <= k < |l| ==> 0 <= l[k] < |d| && d[s].prio <= d[l[k]].prio)
  }

  lemma LeadsLeast(d: seq<Store>, l: seq<int>, s: int)
    requires Leads(d, l, s)
    ensures LeastRoot(d, l, s)
  {
    var k :| IsLeader(d, l, k) && l[k] == s;
    assert s in l;
  }

  /** How many entries at the start of `l` have the degrees g, g + 1, g + 2, ... */
  ghost function Carry(d: seq<Store>, l: seq<int>, g: int): (c: nat)
    ensures c <= |l|
  {
    if l == [] || Deg(d, l[0]) != g then 0 else 1 + Carry(d, l[1..], g + 1)
  }

  ghost function PrioAt(d: seq<Store>, i: int): int {
    if 0 <= i < |d| then d[i].prio else 0
  }

  /** The leftmost of the entries 0 ... c of least priority. */
  ghost function Best(d: seq<Store>, l: seq<int>, c: nat): (b: int)
    requires c < |l|
  {
    if c == 0 then l[0]
    else
      var b := Best(d, l, c - 1);
      if PrioAt(d, l[c]) < PrioAt(d, b) then l[c] else b
  }

  /** The roots left when the first root and the carry chain behind it have been fused. */
  ghost function Carried(d: seq<Store>, l: seq<int>): seq<int>
    requires l != []
  {
    var c := Carry(d, l[1..], Deg(d, l[0]));
    [Best(d, l, c)] + l[1 + c..]
  }

  /** The first `c + 1` roots have been fused into one. */
  ghost predicate Absorbed(d0: seq<Store>, l0: seq<int>, d: seq<Store>, l: seq<int>, c: int)
    requires l0 != []
  {
    && 0 <= c < |l0| && l == [Best(d0, l0, c)] + l0[1 + c..]
    && Deg(d, l[0]) == Deg(d0, l0[0]) + c
    && (forall k :: 1 + c <= k < |l0| ==> Deg(d, l0[k]) == Deg(d0, l0[k]))
    && Carry(d0, l0[1..], Deg(d0, l0[0])) == c + Carry(d0, l0[1 + c..], Deg(d0, l0[0]) + c)
  }

  /** All but the first entry increase in degree. */
  ghost predicate OneAndIncreasing(d: seq<Store>, l: seq<int>) {
    l != [] && Increasing(d, l[1..])
  }

  /** The state of the loop at position `k`, if it started with one root in front of an
      increasing list. */
  ghost predicate Carrying(d0: seq<Store>, l0: seq<int>, d: seq<Store>, l: seq<int>, k: int) {
    OneAndIncreasing(d0, l0) ==>
      if k == 0 then Absorbed(d0, l0, d, l, |l0| - |l|)
      else Increasing(d, l) && l == Carried(d0, l0)
  }

  lemma CarryStart(d: seq<Store>, l: seq<int>)
    requires l != []
    ensures Carrying(d, l, d, l, 0)
  {
    assert l == [l[0]] + l[1..];
  }

  /** The chain ends where the next degree differs. */
  lemma ChainEnds(d0: seq<Store>, l0: seq<int>, d: seq<Store>, l: seq<int>)
    requires OneAndIncreasing(d0, l0) && Absorbed(d0, l0, d, l, |l0| - |l|)
    requires |l| > 1 ==> Deg(d, l[0]) != Deg(d, l[1])
    ensures l == Carried(d0, l0)
  {
    var c := |l0| - |l|;
    var t := l0[1 + c..];
    if |l| > 1 {
      assert l[1] == t[0] == l0[1 + c];
    }
    assert Carry(d0, t, Deg(d0, l0[0]) + c) == 0;
  }

  lemma CarrySkip(d0: seq<Store>, l0: seq<int>, d: seq<Store>, l: seq<int>, k: nat)
    requires Carrying(d0, l0, d, l, k) && NonDecreasing(d, l) && k + 1 < |l|
    requires Deg(d, l[k]) != Deg(d, l[k + 1]) || (k + 2 < |l| && Deg(d, l[k + 2]) == Deg(d, l[k]))
    ensures Carrying(d0, l0, d, l, k + 1)
  {
    if OneAndIncreasing(d0, l0) && k == 0 {
      AbsorbedTail(d0, l0, d, l);
      ChainEnds(d0, l0, d, l);
      forall i, j | 0 <= i < j < |l| ensures Deg(d, l[i]) < Deg(d, l[j]) {
        if i > 0 { assert l[1..][i - 1] == l[i] && l[1..][j - 1] == l[j]; }
        if i == 0 && j > 1 { assert l[1..][0] == l[1] && l[1..][j - 1] == l[j]; }
      }
    }
  }

  lemma AbsorbedTail(d0: seq<Store>, l0: seq<int>, d: seq<Store>, l: seq<int>)
    requires OneAndIncreasing(d0, l0) && Absorbed(d0, l0, d, l, |l0| - |l|)
    ensures Increasing(d, l[1..])
    ensures |l| > 2 ==> Deg(d, l[1]) < Deg(d, l[2])
  {
    var c := |l0| - |l|;
    forall i, j | 0 <= i < j < |l| - 1 ensures Deg(d, l[1..][i]) < Deg(d, l[1..][j]) {
      assert l[1..][i] == l0[1..][c + i] == l0[1 + c + i] && l[1..][j] == l0[1..][c + j] == l0[1 + c + j];
    }
    if |l| > 2 { assert l[1] == l[1..][0] && l[2] == l[1..][1]; }
  }

  /** One of the roots at `k` and `k + 1`, the one that the priorities call for, was laced
      under the other one, `r`. */
  lemma CarryFuse(d0: seq<Store>, l0: seq<int>, d: seq<Store>, e: seq<Store>, l: seq<int>, k: nat, r: int)
    requires Carrying(d0, l0, d, l, k) && SameItems(d0, d) && NoDup(l) && k + 1 < |l|
    requires forall i :: 0 <= i < |l| ==> 0 <= l[i] < |d|
    requires Deg(d, l[k]) == Deg(d, l[k + 1])
    requires r == if d[l[k + 1]].prio < d[l[k]].prio then l[k + 1] else l[k]
    requires Deg(e, r) == Deg(d, r) + 1 && forall i :: i != r ==> Deg(e, i) == Deg(d, i)
    ensures Carrying(d0, l0, e, l[..k] + [r] + l[k + 2..], k)
  {
    if OneAndIncreasing(d0, l0) && k == 0 {
      assert l[..0] + [r] + l[2..] == [r] + l[2..];
      AbsorbFuse(d0, l0, d, e, l, r);
    }
  }

  lemma AbsorbFuse(d0: seq<Store>, l0: seq<int>, d: seq<Store>, e: seq<Store>, l: seq<int>, r: int)
    requires l0 != [] && |l| > 1 && Absorbed(d0, l0, d, l, |l0| - |l|) && SameItems(d0, d) && NoDup(l)
    requires forall i :: 0 <= i < |l| ==> 0 <= l[i] < |d|
    requires Deg(d, l[0]) == Deg(d, l[1])
    requires r == if d[l[1]].prio < d[l[0]].prio then l[1] else l[0]
    requires Deg(e, r) == Deg(d, r) + 1 && forall i :: i != r ==> Deg(e, i) == Deg(d, i)
    ensures Absorbed(d0, l0, e, [r] + l[2..], |l0| - |l| + 1)
  {
    var c, w, g := |l0| - |l|, [r] + l[2..], Deg(d0, l0[0]);
    var t := l0[1 + c..];
    assert forall i :: 1 + c <= i < |l0| ==> l0[i] == l[i - c];
    assert t[1..] == l0[2 + c..] == l[2..];
    assert Best(d0, l0, c + 1) == r;
    assert t[0] == l[1];
    CarryOne(d0, t, g + c);
    hide Best, Carry, SameItems;
  }

  lemma CarryOne(d: seq<Store>, t: seq<int>, g: int)
    requires t != [] && Deg(d, t[0]) == g
    ensures Carry(d, t, g) == 1 + Carry(d, t[1..], g + 1)
  {
  }

  lemma CarryEnd(d0: seq<Store>, l0: seq<int>, d: seq<Store>, l: seq<int>, k: nat)
    requires Carrying(d0, l0, d, l, k) && k + 1 == |l|
    ensures OneAndIncreasing(d0, l0) ==> l == Carried(d0, l0)
  {
    if OneAndIncreasing(d0, l0) && k == 0 { ChainEnds(d0, l0, d, l); }
  }

  lemma {:induction false} SameCarry(d: seq<Store>, e: seq<Store>, l: seq<int>, g: int)
    requires forall i :: Deg(e, i) == Deg(d, i)
    ensures Carry(e, l, g) == Carry(d, l, g)
  {
    if l != [] { SameCarry(d, e, l[1..], g + 1); }
  }

  lemma {:induction false} SameBest(d: seq<Store>, e: seq<Store>, l: seq<int>, c: nat)
    requires SameItems(d, e) && c < |l|
    ensures Best(e, l, c) == Best(d, l, c)
  {
    if c > 0 { SameBest(d, e, l, c - 1); }
  }

  lemma SameCarried(d: seq<Store>, e: seq<Store>, l: seq<int>)
    requires SameItems(d, e) && forall i :: Deg(e, i) == Deg(d, i)
    requires OneAndIncreasing(d, l)
    ensures OneAndIncreasing(e, l) && Carried(e, l) == Carried(d, l)
  {
    SameCarry(d, e, l[1..], Deg(d, l[0]));
    SameBest(d, e, l, Carry(d, l[1..], Deg(d, l[0])));
  }

  // ---------- which root is buried ----------

  /** The roots before and at `m` have the degrees 0, 1, 2, ... */
  ghost predicate InCarry(d: seq<Store>, l: seq<int>, m: int) {
    0 <= Deg(d, m) < |l| && l[Deg(d, m)] == m
  }

  /** The degrees in the chain, and that all later ones are beyond it. */
  lemma {:induction false} CarryDegrees(d: seq<Store>, l: seq<int>, g: int, k: nat)
    requires Increasing(d, l) && k < |l| && Deg(d, l[0]) >= g
    ensures Deg(d, l[k]) >= g + k && (Deg(d, l[k]) == g + k <==> k < Carry(d, l, g))
    decreases |l|
  {
    if k > 0 {
      var t := l[1..];
      assert t[k - 1] == l[k];
      if Deg(d, l[0]) == g {
        CarryDegrees(d, t, g + 1, k - 1);
      } else {
        CarryDegrees(d, t, g + 2, k - 1);
      }
    }
  }

  lemma {:induction false} BestLeads(d: seq<Store>, l: seq<int>, c: nat) returns (j: nat)
    requires c < |l|
    ensures j <= c && l[j] == Best(d, l, c)
    ensures forall i :: 0 <= i < j ==> PrioAt(d, l[j]) < PrioAt(d, l[i])
    ensures forall i :: j <= i <= c ==> PrioAt(d, l[j]) <= PrioAt(d, l[i])
  {
    if c == 0 {
      j := 0;
    } else {
      j := BestLeads(d, l, c - 1);
      if PrioAt(d, l[c]) < PrioAt(d, l[j]) { j := c; }
    }
  }

  /** When the root at position `k` of `l` is still there after `i` was pushed in front. */
  lemma CarriedKeeps(d: seq<Store>, l: seq<int>, i: int, k: nat)
    requires Increasing(d, l) && NoDup([i] + l) && k < |l| && Deg(d, i) == 0 && Deg(d, l[0]) >= 0
    ensures l[k] in Carried(d, [i] + l) <==>
            || !InCarry(d, l, l[k])
            || Best(d, [i] + l, Carry(d, l, 0)) == l[k]
  {
    var w, c, m := [i] + l, Carry(d, l, 0), l[k];
    assert w[1..] == l && w[1 + c..] == l[c..];
    CarryDegrees(d, l, 0, k);
    assert InCarry(d, l, m) <==> k < c by {
      if InCarry(d, l, m) { assert w[1 + Deg(d, m)] == w[1 + k]; }
    }
    if k >= c { assert l[c..][k - c] == m; }
    if k < c { assert m !in l[c..]; }
  }

  lemma LeadsBefore(d: seq<Store>, l: seq<int>, k: nat)
    requires k < |l| && LeastRoot(d, l, l[k]) && NoDup(l)
    ensures Leads(d, l, l[k]) <==> forall j :: 0 <= j < k ==> PrioAt(d, l[j]) > PrioAt(d, l[k])
  {
    if forall j :: 0 <= j < k ==> PrioAt(d, l[j]) > PrioAt(d, l[k]) {
      assert IsLeader(d, l, k);
    }
    if Leads(d, l, l[k]) {
      var j :| IsLeader(d, l, j) && l[j] == l[k];
    }
  }

  /** Whether a least root at position `k` is also the best of the roots up to the end of
      the carry chain. */
  lemma BestIsLeast(d: seq<Store>, l: seq<int>, i: int, k: nat, c: nat)
    requires k < c <= |l| && NoDup([i] + l)
    requires PrioAt(d, l[k]) <= PrioAt(d, i) && forall j :: 0 <= j < |l| ==> PrioAt(d, l[k]) <= PrioAt(d, l[j])
    ensures Best(d, [i] + l, c) == l[k] <==>
            PrioAt(d, i) > PrioAt(d, l[k]) && forall j :: 0 <= j < k ==> PrioAt(d, l[j]) > PrioAt(d, l[k])
  {
    hide PrioAt, Best;
    var w := [i] + l;
    var j := BestLeads(d, w, c);
    var before := PrioAt(d, i) > PrioAt(d, l[k]) && forall x :: 0 <= x < k ==> PrioAt(d, l[x]) > PrioAt(d, l[k]);
    assert w[1 + k] == l[k] && w[j] == if j == 0 then i else l[j - 1];
    if w[j] == l[k] {
      assert j == 1 + k;
      assert before by {
        assert w[0] == i;
        forall x | 0 <= x < k ensures PrioAt(d, l[x]) > PrioAt(d, l[k]) { assert w[x + 1] == l[x]; }
      }
    }
  }

  /** When `i` is pushed in front of the roots and not smaller than the least root `m`, `m`
      stays a root exactly if it is outside the carry chain, or the leftmost least root
      of the new list. */
  lemma PushedKeeps(d: seq<Store>, l: seq<int>, i: int, m: int)
    requires Increasing(d, l) && NoDup([i] + l) && LeastRoot(d, l, m) && 0 <= i < |d|
    requires Deg(d, i) == 0 && Deg(d, l[0]) >= 0 && d[i].prio >= d[m].prio
    ensures m in Carried(d, [i] + l) <==> !InCarry(d, l, m) || (d[i].prio > d[m].prio && Leads(d, l, m))
  {
    var c := Carry(d, l, 0);
    var k :| 0 <= k < |l| && l[k] == m;
    TailNoDup(l, i);
    CarriedKeeps(d, l, i, k);
    CarryDegrees(d, l, 0, k);
    LeadsBefore(d, l, k);
    hide Carried, Carry, Best, Increasing, Leads, NoDup;
    if InCarry(d, l, m) {
      BestIsLeast(d, l, i, k, c);
    }
  }

  lemma TailNoDup(l: seq<int>, i: int)
    requires NoDup([i] + l)
    ensures NoDup(l)
  {
    forall x, y | 0 <= x < y < |l| ensures l[x] != l[y] { assert ([i] + l)[x + 1] != ([i] + l)[y + 1]; }
  }

  lemma CarriedWithin(d: seq<Store>, l: seq<int>, i: int)
    ensures forall x :: x in Carried(d, [i] + l) ==> x == i || x in l
  {
    var w := [i] + l;
    assert w[1..] == l;
    var c := Carry(d, l, 0);
    var j := BestLeads(d, w, Carry(d, l, Deg(d, i)));
  }

  lemma CarriedSmaller(d: seq<Store>, l: seq<int>, i: int)
    requires forall k :: 0 <= k < |l| ==> PrioAt(d, i) < PrioAt(d, l[k])
    ensures i in Carried(d, [i] + l)
  {
    var w := [i] + l;
    assert w[1..] == l;
    var c := Carry(d, l, Deg(d, i));
    var j := BestLeads(d, w, c);
    assert w[0] == i && forall k :: 0 <= k < |l| ==> w[k + 1] == l[k];
    assert Carried(d, w)[0] == i;
  }

  /** Whether the cached minimum `m`, or `i` if that is smaller, is a root after `i` was
      pushed in front of the roots; `m` need not be one of them. */
  lemma PushedRoot(d: seq<Store>, l: seq<int>, i: int, m: int)
    requires Increasing(d, l) && NoDup([i] + l) && l != [] && 0 <= i < |d| && 0 <= m < |d| && i != m
    requires forall k :: 0 <= k < |l| ==> 0 <= l[k] < |d| && d[m].prio <= d[l[k]].prio
    requires Deg(d, i) == 0 && Deg(d, l[0]) >= 0
    ensures var t := if d[i].prio < d[m].prio then i else m;
            t in Carried(d, [i] + l) <==>
            || d[i].prio < d[m].prio
            || (m in l && (!InCarry(d, l, m) || (d[i].prio > d[m].prio && Leads(d, l, m))))
  {
    hide Carried, Increasing, NoDup, InCarry, Leads;
    if d[i].prio < d[m].prio {
      CarriedSmaller(d, l, i);
    } else if m in l {
      PushedKeeps(d, l, i, m);
    } else {
      CarriedWithin(d, l, i);
    }
  }

  lemma FrontIncreasing(d: seq<Store>, i: int, l: seq<int>)
    requires Increasing(d, l)
    ensures OneAndIncreasing(d, [i] + l)
  {
    assert ([i] + l)[1..] == l;
  }
}
