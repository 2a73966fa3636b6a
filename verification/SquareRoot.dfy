/** The circuits of examples/scaffCC/square_root.cc for any problem size n >= 2: `Sqr`
    squares modulo x^n + x + 1, and `diffuse` flips the phase of the all-zeros state. */
module SquareRoot {
  import opened Circuits
  import opened Gf2

  // Registers: a on qubits 0..n, b on n..2n, x on 2n..3n-1.
  const ABASE: nat := 0
  function BBase(n: nat): nat { ABASE + n }
  function XBase(n: nat): nat { BBase(n) + n }

  // ---------- Sqr ----------

  /** The first loop of `Sqr` up to, not including, `k`. */
  function LowGates(n: nat, k: nat): seq<Gate> {
    if k == 0 then [] else LowGates(n, k - 1) + [Cnot(ABASE + (k - 1), BBase(n) + 2 * (k - 1))]
  }

  /** The second loop of `Sqr` from `lo` up to, not including, `k`. */
  function HighGates(n: nat, lo: nat, k: nat): seq<Gate>
    requires n <= 2 * lo
    decreases k
  {
    if k <= lo then []
    else HighGates(n, lo, k - 1) + CnotPair(ABASE + (k - 1), BBase(n) + 2 * (k - 1) - n)
  }

  function CnotPair(c: nat, t: nat): seq<Gate> {
    [Cnot(c, t), Cnot(c, t + 1)]
  }

  /** One more controlled not. */
  lemma CnotEffect(g: seq<Gate>, s: State, c: nat, t: nat, q: nat)
    requires Runs(g, |s.bits|) && c < t < |s.bits| && q < |s.bits|
    ensures Runs(g + [Cnot(c, t)], |s.bits|)
    ensures var r, u := Run(g, s), Run(g + [Cnot(c, t)], s);
            u.minus == r.minus && u.bits[q] == (r.bits[q] != (q == t && r.bits[c]))
  {
    RunSnoc(g, Cnot(c, t), s);
  }

  /** Two controlled nots from one control to neighbouring targets. */
  lemma CnotPairEffect(g: seq<Gate>, s: State, c: nat, t: nat, q: nat)
    requires Runs(g, |s.bits|) && c < t && t + 1 < |s.bits| && q < |s.bits|
    ensures Runs(g + CnotPair(c, t), |s.bits|)
    ensures var r, u := Run(g, s), Run(g + CnotPair(c, t), s);
            u.minus == r.minus && u.bits[q] == (r.bits[q] != ((q == t || q == t + 1) && r.bits[c]))
  {
    RunSnoc(g, Cnot(c, t), s);
    RunSnoc(g + [Cnot(c, t)], Cnot(c, t + 1), s);
    assert g + [Cnot(c, t)] + [Cnot(c, t + 1)] == g + CnotPair(c, t);
  }

  function SqrGates(n: nat): seq<Gate> {
    LowGates(n, (n - 1) / 2 + 1) + HighGates(n, (n + 1) / 2, n)
  }

  method Sqr(kernel: Kernel, n: nat)
    requires n >= 2
    modifies kernel
    ensures kernel.gates == old(kernel.gates) + SqrGates(n)
  {
    ghost var g := kernel.gates;
    ghost var low := LowGates(n, (n - 1) / 2 + 1);
    var i := 0;
    while i <= (n - 1) / 2
      invariant 0 <= i <= (n - 1) / 2 + 1
      invariant kernel.gates == g + LowGates(n, i)
    {
      kernel.Add(Cnot(ABASE + i, BBase(n) + 2 * i));
      i := i + 1;
    }
    assert kernel.gates == g + low;
    i := (n + 1) / 2;
    while i < n
      invariant (n + 1) / 2 <= i <= n
      invariant kernel.gates == g + low + HighGates(n, (n + 1) / 2, i)
    {
      kernel.Add(Cnot(ABASE + i, BBase(n) + 2 * i - n));
      kernel.Add(Cnot(ABASE + i, BBase(n) + 2 * i - n + 1));
      i := i + 1;
    }
  }

  lemma {:induction false} LowRuns(n: nat, k: nat, m: nat)
    requires 2 * n <= m && 2 * k <= n + 1
    ensures Runs(LowGates(n, k), m)
  {
    if k > 0 { LowRuns(n, k - 1, m); }
  }

  lemma {:induction false} HighRuns(n: nat, lo: nat, k: nat, m: nat)
    requires 2 * n <= m && n <= 2 * lo && k <= n
    ensures Runs(HighGates(n, lo, k), m)
    decreases k
  {
    if k > lo { HighRuns(n, lo, k - 1, m); }
  }

  /** The first loop leaves everything below register b alone ... */
  lemma {:induction false} LowKeeps(n: nat, k: nat, s: State, q: nat)
    requires 2 * n <= |s.bits| && 2 * k <= n + 1 && q < n && Runs(LowGates(n, k), |s.bits|)
    ensures var t := Run(LowGates(n, k), s); t.minus == s.minus && t.bits[q] == s.bits[q]
  {
    if k > 0 {
      LowRuns(n, k - 1, |s.bits|);
      LowKeeps(n, k - 1, s, q);
      RunSnoc(LowGates(n, k - 1), Cnot(ABASE + (k - 1), BBase(n) + 2 * (k - 1)), s);
    }
  }

  /** ... and xors bit i of a into bit 2i of b. */
  lemma {:induction false} LowEffect(n: nat, k: nat, s: State, i: nat, odd: bool)
    requires 2 * n <= |s.bits| && 2 * k <= n + 1 && Runs(LowGates(n, k), |s.bits|)
    requires n + 2 * i + (if odd then 1 else 0) < |s.bits| && (i < k ==> i < n)
    ensures var t, q := Run(LowGates(n, k), s), n + 2 * i + if odd then 1 else 0;
            t.bits[q] == (s.bits[q] != (!odd && i < k && s.bits[i]))
  {
    hide Run, Runs, LowGates;
    if k == 0 {
      LowNone(n, s);
    } else {
      LowGatesNext(n, k - 1);
      LowRuns(n, k - 1, |s.bits|);
      LowEffect(n, k - 1, s, i, odd);
      LowKeeps(n, k - 1, s, k - 1);
      var q := n + 2 * i + if odd then 1 else 0;
      CnotEffect(LowGates(n, k - 1), s, k - 1, n + 2 * (k - 1), q);
      assert q == n + 2 * (k - 1) <==> i == k - 1 && !odd;
    }
  }

  lemma LowGatesNext(n: nat, k: nat)
    ensures LowGates(n, k + 1) == LowGates(n, k) + [Cnot(k, n + 2 * k)]
  {
  }

  lemma LowNone(n: nat, s: State)
    ensures Runs(LowGates(n, 0), |s.bits|) && Run(LowGates(n, 0), s) == s
  {
  }

  lemma HighNone(n: nat, lo: nat, k: nat, s: State)
    requires n <= 2 * lo && k <= lo
    ensures Runs(HighGates(n, lo, k), |s.bits|) && Run(HighGates(n, lo, k), s) == s
  {
  }

  /** The second loop xors bit i of a into qubits 2i and 2i + 1. */
  lemma {:induction false} HighEffect(n: nat, lo: nat, k: nat, s: State, i: nat, odd: bool)
    requires 2 * n <= |s.bits| && n <= 2 * lo && lo <= k <= n && Runs(HighGates(n, lo, k), |s.bits|)
    requires 2 * i + (if odd then 1 else 0) < |s.bits|
    ensures var t, q := Run(HighGates(n, lo, k), s), 2 * i + if odd then 1 else 0;
            t.minus == s.minus && t.bits[q] == (s.bits[q] != (lo <= i < k && s.bits[i]))
    decreases k
  {
    hide Run, Runs, CnotPair;
    if k > lo {
      HighRuns(n, lo, k - 1, |s.bits|);
      HighEffect(n, lo, k - 1, s, i, odd);
      HighKeeps(n, lo, k - 1, s, k - 1);
      var q := 2 * i + if odd then 1 else 0;
      CnotPairEffect(HighGates(n, lo, k - 1), s, k - 1, 2 * (k - 1), q);
      assert q == 2 * (k - 1) || q == 2 * (k - 1) + 1 <==> i == k - 1;
    } else {
      HighNone(n, lo, k, s);
    }
  }

  lemma {:induction false} HighKeeps(n: nat, lo: nat, k: nat, s: State, q: nat)
    requires 2 * n <= |s.bits| && n <= 2 * lo && lo <= k <= n && q < n && Runs(HighGates(n, lo, k), |s.bits|)
    ensures Run(HighGates(n, lo, k), s).bits[q] == s.bits[q]
    decreases k
  {
    hide Run, Runs, CnotPair;
    if k > lo {
      HighRuns(n, lo, k - 1, |s.bits|);
      HighKeeps(n, lo, k - 1, s, q);
      CnotPairEffect(HighGates(n, lo, k - 1), s, k - 1, 2 * (k - 1), q);
    } else {
      HighNone(n, lo, k, s);
    }
  }

  /** Register b with `r` xored in, everything else the same. */
  function XorB(n: nat, s: State, r: seq<bool>): (t: State)
    requires 2 * n <= |s.bits| && |r| == n
    ensures |t.bits| == |s.bits|
  {
    s.(bits := seq(|s.bits|, q requires 0 <= q < |s.bits| =>
                 s.bits[q] != (BBase(n) <= q < XBase(n) && r[q - BBase(n)])))
  }

  function RegA(n: nat, s: State): seq<bool>
    requires n <= |s.bits|
  {
    s.bits[ABASE..ABASE + n]
  }

  lemma SpreadEven(a: seq<bool>, i: nat)
    ensures Spread(a, 2 * i) == Coef(a, i)
  {
  }

  lemma SpreadOdd(a: seq<bool>, i: int)
    ensures !Spread(a, 2 * i + 1)
  {
  }

  /** Remainder coefficient `j`, with j = 2i or 2i + 1 and n + j = 2m or 2m + 1. */
  lemma SqrBit(n: nat, a: seq<bool>, j: nat, i: nat, odd: bool, m: nat, mOdd: bool)
    requires n >= 2 && |a| == n && j < n
    requires j == 2 * i + (if odd then 1 else 0) && n + j == 2 * m + if mOdd then 1 else 0
    ensures RemCoef(n, a, j) == ((!odd && a[i]) != (2 * m >= n && a[m]))
  {
    SpreadEven(a, i);
    SpreadOdd(a, i);
    SpreadEven(a, m);
    SpreadOdd(a, m);
    SpreadOdd(a, m - 1);
    hide Spread;
    if !mOdd { assert n + j - 1 == 2 * (m - 1) + 1; }
  }

  /** What both loops, split at lo = n / 2 rounded up, do to bit q = 2m or 2m + 1. */
  lemma SplitEffect(n: nat, s: State, lo: nat, q: nat, m: nat, mOdd: bool)
    requires n >= 2 && 2 * n <= |s.bits| && q < |s.bits|
    requires n <= 2 * lo <= n + 1 && q == 2 * m + if mOdd then 1 else 0
    requires Runs(LowGates(n, lo), |s.bits|) && Runs(HighGates(n, lo, n), |s.bits|)
    ensures var t, u := Run(LowGates(n, lo), s), Run(HighGates(n, lo, n), Run(LowGates(n, lo), s));
            u.minus == s.minus && u.bits[q] == (t.bits[q] != (lo <= m < n && s.bits[m]))
  {
    hide Run, Runs, LowGates, HighGates;
    LowKeeps(n, lo, s, 0);
    HighEffect(n, lo, n, Run(LowGates(n, lo), s), m, mOdd);
    if m < n { LowKeeps(n, lo, s, m); }
  }

  lemma SplitEffectB(n: nat, s: State, lo: nat, j: nat, i: nat, odd: bool, m: nat, mOdd: bool)
    requires n >= 2 && 2 * n <= |s.bits| && j < n
    requires n <= 2 * lo <= n + 1
    requires j == 2 * i + (if odd then 1 else 0) && n + j == 2 * m + if mOdd then 1 else 0
    requires Runs(LowGates(n, lo), |s.bits|) && Runs(HighGates(n, lo, n), |s.bits|)
    ensures var u := Run(HighGates(n, lo, n), Run(LowGates(n, lo), s));
            u.bits[n + j] == (s.bits[n + j] != RemCoef(n, RegA(n, s), j))
  {
    hide Run, Runs, LowGates, HighGates, RemCoef;
    SplitEffect(n, s, lo, n + j, m, mOdd);
    LowEffect(n, lo, s, i, odd);
    SqrBit(n, RegA(n, s), j, i, odd, m, mOdd);
  }

  lemma Half(q: nat) returns (m: nat, odd: bool)
    ensures q == 2 * m + if odd then 1 else 0
  {
    m, odd := q / 2, q % 2 == 1;
  }

  /** What `Sqr` does to bit `q`. */
  lemma SqrEffect(n: nat, s: State, q: nat)
    requires n >= 2 && 2 * n <= |s.bits| && q < |s.bits|
    requires Runs(SqrGates(n), |s.bits|)
    ensures var t := Run(SqrGates(n), s);
            && t.minus == s.minus
            && t.bits[q] == (s.bits[q] != (n <= q < 2 * n && RemCoef(n, RegA(n, s), q - n)))
  {
    hide Run, Runs, LowGates, HighGates, RemCoef;
    var lo := (n + 1) / 2;
    assert SqrGates(n) == LowGates(n, lo) + HighGates(n, lo, n);
    hide SqrGates, RegA;
    LowRuns(n, lo, |s.bits|);
    HighRuns(n, lo, n, |s.bits|);
    RunConcat(LowGates(n, lo), HighGates(n, lo, n), s);
    var m, mOdd := Half(q);
    SplitEffect(n, s, lo, q, m, mOdd);
    if q < n {
      LowKeeps(n, lo, s, q);
    } else {
      var i, odd := Half(q - n);
      if q < 2 * n {
        SplitEffectB(n, s, lo, q - n, i, odd, m, mOdd);
      } else {
        LowEffect(n, lo, s, i, odd);
      }
    }
  }

  lemma SqrGatesRun(n: nat, m: nat)
    requires n >= 2 && 2 * n <= m
    ensures Runs(SqrGates(n), m)
  {
    LowRuns(n, (n - 1) / 2 + 1, m);
    HighRuns(n, (n + 1) / 2, n, m);
  }

  lemma SqrBitAt(n: nat, s: State, r: seq<bool>, q: nat)
    requires 2 * n <= |s.bits| && q < |s.bits| && r == SquareMod(n, RegA(n, s))
    ensures XorB(n, s, r).bits[q] == (s.bits[q] != (n <= q < 2 * n && RemCoef(n, RegA(n, s), q - n)))
  {
    var j := q - n;
    assert n <= q < 2 * n ==> r[j] == RemCoef(n, RegA(n, s), j);
    assert XorB(n, s, r).bits[q] == (s.bits[q] != (BBase(n) <= q < XBase(n) && r[q - BBase(n)]));
    assert BBase(n) == n && XBase(n) == 2 * n;
  }

  /** `Sqr` xors a(x)^2 mod (x^n + x + 1) into register b, and nothing else. */
  lemma SqrSquares(n: nat, s: State, r: seq<bool>)
    requires n >= 2 && 2 * n <= |s.bits|
    requires IsSquareMod(n, RegA(n, s), r)
    ensures Runs(SqrGates(n), |s.bits|)
    ensures Run(SqrGates(n), s) == XorB(n, s, r)
  {
    SquareModIsSquareMod(n, RegA(n, s));
    SquareModUnique(n, RegA(n, s), r, SquareMod(n, RegA(n, s)));
    SqrGatesRun(n, |s.bits|);
    SqrEffect(n, s, 0);
    hide SqrGates, Run, IsSquareMod, RemCoef, Runs;
    var u, v := Run(SqrGates(n), s), XorB(n, s, r);
    forall q: nat | q < |s.bits| ensures u.bits[q] == v.bits[q] {
      SqrEffect(n, s, q);
      SqrBitAt(n, s, r, q);
    }
    assert u.bits == v.bits;
  }

  /** `Sqr` is its own inverse. */
  lemma SqrTwice(n: nat, s: State)
    requires n >= 2 && 2 * n <= |s.bits|
    ensures Runs(SqrGates(n) + SqrGates(n), |s.bits|)
    ensures Run(SqrGates(n) + SqrGates(n), s) == s
  {
    var r := SquareMod(n, RegA(n, s));
    SquareModIsSquareMod(n, RegA(n, s));
    SqrSquares(n, s, r);
    var t := Run(SqrGates(n), s);
    assert RegA(n, t) == RegA(n, s);
    SqrSquares(n, t, r);
    RunConcat(SqrGates(n), SqrGates(n), s);
    assert XorB(n, t, r).bits == s.bits;
  }
}
