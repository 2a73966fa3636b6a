/** The diffusion step of examples/scaffCC/square_root.cc: a compute / phase / uncompute
    ladder between two layers of Hadamard gates. */
module Diffusion {
  import opened Circuits
  import opened SquareRoot

  function FlipGates(k: nat): seq<Gate> {
    if k == 0 then [] else FlipGates(k - 1) + [X(ABASE + (k - 1))]
  }

  function HadamardGates(k: nat): seq<Gate> {
    if k == 0 then [] else HadamardGates(k - 1) + [Hadamard(ABASE + (k - 1))]
  }

  function PrepGates(n: nat, k: nat): seq<Gate> {
    if k == 0 then [] else PrepGates(n, k - 1) + [PrepZ(XBase(n) + (k - 1))]
  }

  /** Rung `j` of the ladder: x[j] ^= a[j+1] and x[j-1], or a[0] and a[1] at the bottom. */
  function Rung(n: nat, j: nat): Gate {
    if j == 0 then Toffoli(ABASE + 0, ABASE + 1, XBase(n) + 0)
    else Toffoli(ABASE + j + 1, XBase(n) + j - 1, XBase(n) + j)
  }

  function UpGates(n: nat, k: nat): seq<Gate> {
    if k == 0 then [] else UpGates(n, k - 1) + [Rung(n, k - 1)]
  }

  function DownGates(n: nat, k: nat): seq<Gate> {
    if k == 0 then [] else [Rung(n, k - 1)] + DownGates(n, k - 1)
  }

  /** The part of the diffusion step between its two Hadamard layers. */
  function OracleGates(n: nat): seq<Gate>
    requires n >= 2
  {
    FlipGates(n) + PrepGates(n, n - 1) + UpGates(n, n - 1) + [Z(XBase(n) + n - 2)] + DownGates(n, n - 1) + FlipGates(n)
  }

  method PrepLayer(kernel: Kernel, n: nat)
    requires n >= 2
    modifies kernel
    ensures kernel.gates == old(kernel.gates) + PrepGates(n, n - 1)
  {
    ghost var g := kernel.gates;
    for j := 0 to n - 1
      invariant kernel.gates == g + PrepGates(n, j)
    {
      kernel.Add(PrepZ(XBase(n) + j));
    }
  }

  method ClimbLadder(kernel: Kernel, n: nat)
    requires n >= 2
    modifies kernel
    ensures kernel.gates == old(kernel.gates) + UpGates(n, n - 1)
  {
    ghost var g := kernel.gates;
    kernel.Add(Toffoli(ABASE + 0, ABASE + 1, XBase(n) + 0));
    assert UpGates(n, 1) == [Rung(n, 0)];
    for j := 1 to n - 1
      invariant kernel.gates == g + UpGates(n, j)
    {
      kernel.Add(Toffoli(ABASE + j + 1, XBase(n) + j - 1, XBase(n) + j));
    }
  }

  method DescendLadder(kernel: Kernel, n: nat)
    requires n >= 2
    modifies kernel
    ensures kernel.gates == old(kernel.gates) + DownGates(n, n - 1)
  {
    hide DownGates;
    ghost var g := kernel.gates;
    var j := n - 2;
    while j > 0
      invariant 0 <= j <= n - 2
      invariant kernel.gates + DownGates(n, j + 1) == g + DownGates(n, n - 1)
    {
      DownStep(kernel.gates, n, j);
      kernel.Add(Toffoli(ABASE + j + 1, XBase(n) + j - 1, XBase(n) + j));
      j := j - 1;
    }
    DownStep(kernel.gates, n, 0);
    DownStep(kernel.gates + [Rung(n, 0)], n, 0);
    kernel.Add(Toffoli(ABASE + 0, ABASE + 1, XBase(n) + 0));
  }

  lemma DownStep(g: seq<Gate>, n: nat, j: nat)
    ensures g + DownGates(n, j + 1) == g + [Rung(n, j)] + DownGates(n, j)
    ensures g + DownGates(n, 0) == g
  {
  }

  method FlipLayer(kernel: Kernel, n: nat)
    modifies kernel
    ensures kernel.gates == old(kernel.gates) + FlipGates(n)
  {
    ghost var g := kernel.gates;
    for j := 0 to n
      invariant kernel.gates == g + FlipGates(j)
    {
      kernel.Add(X(ABASE + j));
    }
  }

  method HadamardLayer(kernel: Kernel, n: nat)
    modifies kernel
    ensures kernel.gates == old(kernel.gates) + HadamardGates(n)
  {
    ghost var g := kernel.gates;
    for j := 0 to n
      invariant kernel.gates == g + HadamardGates(j)
    {
      kernel.Add(Hadamard(ABASE + j));
    }
  }

  method Diffuse(kernel: Kernel, n: nat)
    requires n >= 2
    modifies kernel
    ensures kernel.gates == old(kernel.gates) + HadamardGates(n) + OracleGates(n) + HadamardGates(n)
  {
    hide HadamardGates, FlipGates, PrepGates, UpGates, DownGates;
    ghost var g := kernel.gates;
    HadamardLayer(kernel, n);
    FlipLayer(kernel, n);
    PrepLayer(kernel, n);
    ClimbLadder(kernel, n);
    kernel.Add(Z(XBase(n) + n - 2));
    DescendLadder(kernel, n);
    FlipLayer(kernel, n);
    HadamardLayer(kernel, n);
  }

  // ---------- what the layers do ----------

  /** A Hadamard layer has exactly one gate on every qubit of register a, in order. */
  lemma {:induction false} HadamardOnce(n: nat, j: nat)
    requires j < n
    ensures |HadamardGates(n)| == n && HadamardGates(n)[j] == Hadamard(j)
  {
    if j < n - 1 {
      HadamardOnce(n - 1, j);
    } else if n > 1 {
      HadamardOnce(n - 1, 0);
    }
  }

  lemma {:induction false} FlipEffect(k: nat, s: State)
    requires k <= |s.bits|
    ensures Runs(FlipGates(k), |s.bits|)
    ensures var t := Run(FlipGates(k), s);
            && t.minus == s.minus
            && forall q :: 0 <= q < |s.bits| ==> t.bits[q] == (s.bits[q] != (q < k))
  {
    if k > 0 {
      FlipEffect(k - 1, s);
      RunSnoc(FlipGates(k - 1), X(ABASE + (k - 1)), s);
    }
  }

  lemma {:induction false} PrepEffect(n: nat, k: nat, s: State)
    requires 2 * n + k <= |s.bits|
    ensures Runs(PrepGates(n, k), |s.bits|)
    ensures var t := Run(PrepGates(n, k), s);
            && t.minus == s.minus
            && forall q :: 0 <= q < |s.bits| ==> t.bits[q] == (s.bits[q] && !(2 * n <= q < 2 * n + k))
  {
    if k > 0 {
      PrepEffect(n, k - 1, s);
      RunSnoc(PrepGates(n, k - 1), PrepZ(XBase(n) + (k - 1)), s);
    }
  }

  /** The first `m` bits of register a are all set. */
  ghost predicate AllSet(s: State, m: nat)
    requires m <= |s.bits|
  {
    forall i :: 0 <= i < m ==> s.bits[i]
  }

  /** One rung: x[k] picks up x[k-1] and a[k+1]. */
  lemma RungEffect(n: nat, k: nat, t: State)
    requires n >= 2 && k < n - 1 && 3 * n - 1 <= |t.bits|
    ensures Classical(Rung(n, k)) && Fits(Rung(n, k), |t.bits|)
    ensures var c := if k == 0 then t.bits[0] && t.bits[1] else t.bits[k + 1] && t.bits[2 * n + k - 1];
            Apply(Rung(n, k), t) == t.(bits := t.bits[2 * n + k := t.bits[2 * n + k] != c])
  {
  }

  lemma AllSetNext(s: State, k: nat)
    requires k < |s.bits|
    ensures AllSet(s, k + 1) <==> AllSet(s, k) && s.bits[k]
    ensures AllSet(s, 0)
  {
  }

  /** Climbing the ladder: x[j] becomes the conjunction of a[0] ... a[j+1]. */
  lemma {:induction false} UpEffect(n: nat, k: nat, s: State, q: nat)
    requires n >= 2 && k <= n - 1 && 3 * n - 1 <= |s.bits| && q < |s.bits|
    requires Runs(UpGates(n, k), |s.bits|)
    requires forall q :: 2 * n <= q < 2 * n + k ==> !s.bits[q]
    ensures var t := Run(UpGates(n, k), s);
            && t.minus == s.minus
            && t.bits[q] == if 2 * n <= q < 2 * n + k then AllSet(s, q - 2 * n + 2) else s.bits[q]
  {
    hide Run, Runs, Apply, Rung, AllSet;
    if k == 0 {
      NoGates(s);
    } else {
      LadderRuns(n, k - 1, |s.bits|);
      UpEffect(n, k - 1, s, q);
      UpEffect(n, k - 1, s, 0);
      UpEffect(n, k - 1, s, 1);
      UpEffect(n, k - 1, s, k);
      UpEffect(n, k - 1, s, 2 * n + k - 1);
      if k > 1 { UpEffect(n, k - 1, s, 2 * n + k - 2); }
      RungEffect(n, k - 1, Run(UpGates(n, k - 1), s));
      RunSnoc(UpGates(n, k - 1), Rung(n, k - 1), s);
      AllSetNext(s, k);
      AllSetNext(s, 0);
    }
  }

  lemma {:induction false} LadderRuns(n: nat, k: nat, m: nat)
    requires n >= 2 && k <= n - 1 && 3 * n - 1 <= m
    ensures Runs(UpGates(n, k), m) && Runs(DownGates(n, k), m)
  {
    if k > 0 { LadderRuns(n, k - 1, m); }
  }

  /** A rung is its own inverse, whatever happens to the sign in between. */
  lemma RungTwice(n: nat, k: nat, s: State, minus: bool)
    requires n >= 2 && k < n - 1 && 3 * n - 1 <= |s.bits|
    ensures Classical(Rung(n, k)) && Fits(Rung(n, k), |s.bits|)
    ensures Apply(Rung(n, k), Apply(Rung(n, k), s).(minus := minus)) == s.(minus := minus)
  {
    assert Apply(Rung(n, k), Apply(Rung(n, k), s)).bits == s.bits;
  }

  /** The way down undoes the way up, whatever the sign. */
  lemma {:induction false} DownUndoesUp(n: nat, k: nat, s: State, minus: bool)
    requires n >= 2 && k <= n - 1 && 3 * n - 1 <= |s.bits|
    requires Runs(UpGates(n, k), |s.bits|) && Runs(DownGates(n, k), |s.bits|)
    ensures Run(DownGates(n, k), Run(UpGates(n, k), s).(minus := minus)) == s.(minus := minus)
  {
    hide Run, Runs, Apply, Rung;
    if k > 0 {
      var up, down, g := UpGates(n, k - 1), DownGates(n, k - 1), Rung(n, k - 1);
      LadderRuns(n, k - 1, |s.bits|);
      DownUndoesUp(n, k - 1, s, minus);
      RungTwice(n, k - 1, Run(up, s), minus);
      RunSnoc(up, g, s);
      var u := Apply(g, Run(up, s)).(minus := minus);
      RunOne(g, u);
      RunConcat([g], down, u);
    } else {
      NoGates(s);
      NoGates(s.(minus := minus));
    }
  }

  lemma NoGates(s: State)
    ensures Run([], s) == s
  {
  }

  ghost predicate AllClear(s: State, m: nat)
    requires m <= |s.bits|
  {
    forall i :: 0 <= i < m ==> !s.bits[i]
  }

  /** Every basis state keeps a, b and everything beyond x; x is left all zero; the sign
      flips exactly when a is all zero. */
  ghost function Oracle(n: nat, s: State): (t: State)
    requires n >= 2 && 3 * n - 1 <= |s.bits|
    ensures |t.bits| == |s.bits|
  {
    State(seq(|s.bits|, q requires 0 <= q < |s.bits| => s.bits[q] && !(XBase(n) <= q < XBase(n) + n - 1)),
          s.minus != AllClear(s, n))
  }

  /** The state after the whole oracle, given what its layers do. */
  lemma OracleState(n: nat, s: State, s1: State, s2: State, t: State)
    requires n >= 2 && 3 * n - 1 <= |s.bits| == |s1.bits| == |s2.bits| == |t.bits|
    requires forall q :: 0 <= q < |s.bits| ==> s1.bits[q] == (s.bits[q] != (q < n))
    requires forall q :: 0 <= q < |s.bits| ==> s2.bits[q] == (s1.bits[q] && !(2 * n <= q < 3 * n - 1))
    requires forall q :: 0 <= q < |s.bits| ==> t.bits[q] == (s2.bits[q] != (q < n))
    requires t.minus == (s.minus != AllSet(s2, n))
    ensures t == Oracle(n, s)
  {
    var o := Oracle(n, s);
    forall q | 0 <= q < |s.bits| ensures t.bits[q] == o.bits[q] {
      assert s2.bits[q] == (s1.bits[q] && !(2 * n <= q < 3 * n - 1));
    }
    assert t.bits == o.bits;
    assert AllSet(s2, n) <==> AllClear(s, n) by {
      assert forall i :: 0 <= i < n ==> s2.bits[i] == !s.bits[i];
    }
  }

  lemma ZEffect(s: State, q: nat)
    requires q < |s.bits|
    ensures Apply(Z(q), s) == s.(minus := s.minus != s.bits[q])
  {
  }

  lemma OracleFlipsZero(n: nat, s: State)
    requires n >= 2 && 3 * n - 1 <= |s.bits|
    ensures Runs(OracleGates(n), |s.bits|)
    ensures Run(OracleGates(n), s) == Oracle(n, s)
  {
    hide Run, Runs, Apply, FlipGates, PrepGates, UpGates, DownGates, AllSet, Oracle;
    var flip, prep, z := FlipGates(n), PrepGates(n, n - 1), Z(XBase(n) + n - 2);
    var up, down := UpGates(n, n - 1), DownGates(n, n - 1);
    FlipEffect(n, s);
    var s1 := Run(flip, s);
    PrepEffect(n, n - 1, s1);
    RunConcat(flip, prep, s);
    var s2 := Run(prep, s1);
    LadderRuns(n, n - 1, |s.bits|);
    UpEffect(n, n - 1, s2, 2 * n + (n - 2));
    RunConcat(flip + prep, up, s);
    var s3 := Run(up, s2);
    RunSnoc(flip + prep + up, z, s);
    ZEffect(s3, 3 * n - 2);
    var minus := s3.minus != s3.bits[3 * n - 2];
    DownUndoesUp(n, n - 1, s2, minus);
    RunConcat(flip + prep + up + [z], down, s);
    FlipEffect(n, s2.(minus := minus));
    RunConcat(flip + prep + up + [z] + down, flip, s);
    OracleState(n, s, s1, s2, Run(flip, s2.(minus := minus)));
  }
}
