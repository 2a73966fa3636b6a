/** Polynomials over GF(2) as sequences of coefficients, and remainders modulo
    x^n + x + 1. Addition of coefficients is exclusive or, written `!=`. */
module Gf2 {

  function Coef(p: seq<bool>, k: int): bool {
    0 <= k < |p| && p[k]
  }

  /** Sum of p_t * q_(k-t) over lo <= t < hi. */
  ghost function Conv(p: seq<bool>, q: seq<bool>, k: int, lo: int, hi: int): bool
    decreases hi - lo
  {
    if lo >= hi then false
    else Conv(p, q, k, lo, hi - 1) != (Coef(p, hi - 1) && Coef(q, k - (hi - 1)))
  }

  /** Coefficient of x^k in the product. */
  ghost function MulCoef(p: seq<bool>, q: seq<bool>, k: nat): bool {
    Conv(p, q, k, 0, k + 1)
  }

  function Modulus(n: nat): seq<bool> {
    seq(n + 1, i => i == 0 || i == 1 || i == n)
  }

  /** a^2 = q * (x^n + x + 1) + r. */
  ghost predicate SquareDivides(n: nat, a: seq<bool>, q: seq<bool>, r: seq<bool>) {
    forall k: nat :: MulCoef(a, a, k) == (MulCoef(q, Modulus(n), k) != Coef(r, k))
  }

  /** `r`, of degree below `n`, is a^2 reduced modulo x^n + x + 1. */
  ghost predicate IsSquareMod(n: nat, a: seq<bool>, r: seq<bool>) {
    |r| == n && exists q: seq<bool> :: SquareDivides(n, a, q, r)
  }

  lemma {:induction false} ConvFirst(p: seq<bool>, q: seq<bool>, k: int, lo: int, hi: int)
    requires lo < hi
    ensures Conv(p, q, k, lo, hi) == ((Coef(p, lo) && Coef(q, k - lo)) != Conv(p, q, k, lo + 1, hi))
    decreases hi - lo
  {
    if lo + 1 < hi {
      ConvFirst(p, q, k, lo, hi - 1);
    }
  }

  /** The two ends of a symmetric sum cancel, so only the middle term is left. */
  lemma {:induction false} SquareMiddle(a: seq<bool>, k: nat, lo: nat)
    requires 2 * lo <= k + 1
    ensures Conv(a, a, k, lo, k + 1 - lo) == (k % 2 == 0 && Coef(a, k / 2))
    decreases k + 1 - 2 * lo
  {
    var hi := k + 1 - lo;
    if lo + 1 < hi {
      ConvFirst(a, a, k, lo, hi - 1);
      SquareMiddle(a, k, lo + 1);
    } else if lo + 1 == hi {
      assert Conv(a, a, k, lo, hi - 1) == false;
    }
  }

  /** The coefficients spread over the even powers. */
  function Spread(a: seq<bool>, k: int): bool {
    k % 2 == 0 && Coef(a, k / 2)
  }

  /** Squaring spreads the coefficients. */
  lemma SquareCoef(a: seq<bool>, k: nat)
    ensures MulCoef(a, a, k) == Spread(a, k)
  {
    SquareMiddle(a, k, 0);
  }

  lemma {:induction false} ModulusConv(q: seq<bool>, n: nat, k: nat, hi: nat)
    requires n >= 2 && hi <= k + 1
    ensures Conv(q, Modulus(n), k, 0, hi) ==
            (((k < hi && Coef(q, k)) != (k - 1 < hi && Coef(q, k - 1))) != (k - n < hi && Coef(q, k - n)))
  {
    if hi > 0 {
      ModulusConv(q, n, k, hi - 1);
    }
  }

  lemma ModulusCoef(q: seq<bool>, n: nat, k: nat)
    requires n >= 2
    ensures MulCoef(q, Modulus(n), k) == ((Coef(q, k) != Coef(q, k - 1)) != Coef(q, k - n))
  {
    ModulusConv(q, n, k, k + 1);
  }

  // ---------- the remainder ----------

  /** Coefficient `j` of the remainder: x^(n+j) counts at j and at j + 1. */
  function RemCoef(n: nat, a: seq<bool>, j: nat): bool {
    Spread(a, j) != (Spread(a, n + j) != (j > 0 && Spread(a, n + j - 1)))
  }

  function SquareMod(n: nat, a: seq<bool>): (r: seq<bool>)
    ensures |r| == n && forall j :: 0 <= j < n ==> r[j] == RemCoef(n, a, j)
  {
    seq(n, j requires 0 <= j => RemCoef(n, a, j))
  }

  /** The quotient collects the coefficients of degree at least n. */
  function SquareQuotient(n: nat, a: seq<bool>): (q: seq<bool>) {
    seq(n, k => Spread(a, n + k))
  }

  lemma DivisionStep(n: nat, a: seq<bool>, k: nat)
    requires n >= 2 && |a| == n
    ensures MulCoef(a, a, k) == (MulCoef(SquareQuotient(n, a), Modulus(n), k) != Coef(SquareMod(n, a), k))
  {
    var q, r := SquareQuotient(n, a), SquareMod(n, a);
    SquareCoef(a, k);
    ModulusCoef(q, n, k);
    if k >= n {
      assert !Spread(a, 2 * n - 1);
      assert Coef(q, k - n) == Spread(a, k);
    }
  }

  lemma SquareModIsSquareMod(n: nat, a: seq<bool>)
    requires n >= 2 && |a| == n
    ensures IsSquareMod(n, a, SquareMod(n, a))
  {
    var q, r := SquareQuotient(n, a), SquareMod(n, a);
    forall k: nat ensures MulCoef(a, a, k) == (MulCoef(q, Modulus(n), k) != Coef(r, k)) {
      DivisionStep(n, a, k);
    }
    assert SquareDivides(n, a, q, r);
  }

  /** A multiple of the modulus with no coefficients from x^n on comes from zero. */
  lemma {:induction false} QuotientsAgree(n: nat, p: seq<bool>, q: seq<bool>, k: nat, top: nat)
    requires n >= 2 && |p| <= top && |q| <= top
    requires forall j: nat :: j >= n ==> MulCoef(p, Modulus(n), j) == MulCoef(q, Modulus(n), j)
    ensures Coef(p, k) == Coef(q, k)
    decreases top - k
  {
    if k < top {
      QuotientsAgree(n, p, q, k + n, top);
      QuotientsAgree(n, p, q, k + n - 1, top);
      ModulusCoef(p, n, k + n);
      ModulusCoef(q, n, k + n);
      assert MulCoef(p, Modulus(n), k + n) == MulCoef(q, Modulus(n), k + n);
    }
  }

  /** There is only one remainder. */
  lemma SquareModUnique(n: nat, a: seq<bool>, r: seq<bool>, s: seq<bool>)
    requires n >= 2 && IsSquareMod(n, a, r) && IsSquareMod(n, a, s)
    ensures r == s
  {
    var p: seq<bool> :| SquareDivides(n, a, p, r);
    var q: seq<bool> :| SquareDivides(n, a, q, s);
    forall j: nat | j >= n ensures MulCoef(p, Modulus(n), j) == MulCoef(q, Modulus(n), j) {
      assert MulCoef(a, a, j) == (MulCoef(p, Modulus(n), j) != Coef(r, j));
      assert MulCoef(a, a, j) == (MulCoef(q, Modulus(n), j) != Coef(s, j));
    }
    forall k | 0 <= k < n ensures r[k] == s[k] {
      assert MulCoef(a, a, k) == (MulCoef(p, Modulus(n), k) != Coef(r, k));
      assert MulCoef(a, a, k) == (MulCoef(q, Modulus(n), k) != Coef(s, k));
      ModulusCoef(p, n, k);
      ModulusCoef(q, n, k);
      QuotientsAgree(n, p, q, k, |p| + |q|);
      if k > 0 { QuotientsAgree(n, p, q, k - 1, |p| + |q|); }
    }
  }
}
