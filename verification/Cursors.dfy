/** Stepping through a duplicate-free list with a cursor: the list a cursor enumerates,
    the entry after a given one, and what skipping unwanted entries enumerates. */
module Cursors {
  import opened Sequences

  function HeadOr<T>(s: seq<T>, end: T): T {
    if s == [] then end else s[0]
  }

  /** The entry after `a`, or `end`. */
  function After<T(==)>(s: seq<T>, a: T, end: T): T {
    if s == [] then end
    else if s[0] == a then HeadOr(s[1..], end)
    else After(s[1..], a, end)
  }

  lemma {:induction false} AfterAt<T>(s: seq<T>, k: nat, end: T)
    requires NoDup(s) && k < |s|
    ensures After(s, s[k], end) == if k + 1 < |s| then s[k + 1] else end
  {
    if k > 0 {
      assert s[1..][k - 1] == s[k];
      AfterAt(s[1..], k - 1, end);
    }
  }

  // ---------- collecting what a cursor steps through ----------

  /** The loop has put the entries before `a` into `l`; at the end `a` is `end`. */
  ghost predicate Collected<T>(all: seq<T>, l: seq<T>, a: T, end: T) {
    |l| <= |all| && l == all[..|l|] && a == if |l| < |all| then all[|l|] else end
  }

  lemma CollectStart<T>(all: seq<T>, end: T)
    ensures Collected(all, [], HeadOr(all, end), end)
  {
  }

  lemma CollectStep<T>(all: seq<T>, l: seq<T>, a: T, end: T)
    requires NoDup(all) && Collected(all, l, a, end) && a != end
    ensures |l| < |all| && a in all && Collected(all, l + [a], After(all, a, end), end)
  {
    AfterAt(all, |l|, end);
  }

  lemma CollectEnd<T>(all: seq<T>, l: seq<T>, end: T)
    requires end !in all && Collected(all, l, end, end)
    ensures l == all
  {
    assert forall k :: 0 <= k < |all| ==> all[k] != end;
  }

  // ---------- filtering ----------

  ghost function Filter<T(!new)>(s: seq<T>, p: T -> bool): (f: seq<T>) {
    if s == [] then [] else (if p(s[0]) then [s[0]] else []) + Filter(s[1..], p)
  }

  lemma {:induction false} FilterElements<T(!new)>(s: seq<T>, p: T -> bool, x: T)
    ensures x in Filter(s, p) <==> x in s && p(x)
  {
    if s != [] {
      FilterElements(s[1..], p, x);
      assert s == [s[0]] + s[1..];
    }
  }

  lemma {:induction false} FilterNoDup<T(!new)>(s: seq<T>, p: T -> bool)
    requires NoDup(s)
    ensures NoDup(Filter(s, p))
  {
    if s != [] {
      FilterElements(s[1..], p, s[0]);
      FilterNoDup(s[1..], p);
    }
  }

  lemma {:induction false} FilterConcat<T(!new)>(s: seq<T>, t: seq<T>, p: T -> bool)
    ensures Filter(s + t, p) == Filter(s, p) + Filter(t, p)
  {
    if s == [] {
      assert s + t == t;
    } else {
      assert (s + t)[1..] == s[1..] + t && (s + t)[0] == s[0];
      FilterConcat(s[1..], t, p);
      var h, f, r := if p(s[0]) then [s[0]] else [], Filter(s[1..], p), Filter(t, p);
      assert h + (f + r) == (h + f) + r;
    }
  }

  /** Skipping from the position after `k` finds the entry after `s[k]` in the filtered list. */
  lemma {:induction false} FilterAfter<T(!new)>(s: seq<T>, p: T -> bool, k: nat, end: T)
    requires NoDup(s) && k < |s| && p(s[k])
    ensures After(Filter(s, p), s[k], end) == HeadOr(Filter(s[k + 1..], p), end)
  {
    var f := Filter(s[1..], p);
    assert ([s[0]] + f)[1..] == f && [] + f == f;
    if k > 0 {
      assert s[1..][k - 1] == s[k] && s[1..][k..] == s[k + 1..];
      FilterAfter(s[1..], p, k - 1, end);
    }
  }

  /** The head of what is left to filter: the next entry if it passes, else what follows. */
  lemma FilterHead<T(!new)>(s: seq<T>, p: T -> bool, k: nat, end: T)
    requires k <= |s|
    ensures k < |s| && p(s[k]) ==> HeadOr(Filter(s[k..], p), end) == s[k]
    ensures k < |s| && !p(s[k]) ==> Filter(s[k..], p) == Filter(s[k + 1..], p)
    ensures k == |s| ==> HeadOr(Filter(s[k..], p), end) == end
  {
    if k < |s| {
      assert s[k..][0] == s[k] && s[k..][1..] == s[k + 1..];
      assert [] + Filter(s[k + 1..], p) == Filter(s[k + 1..], p);
    }
  }

  lemma ConcatNoDup<T>(s: seq<T>, t: seq<T>)
    requires NoDup(s) && NoDup(t) && forall x :: x in s ==> x !in t
    ensures NoDup(s + t)
  {
    forall i, j | 0 <= i < j < |s + t| ensures (s + t)[i] != (s + t)[j] {
      if i < |s| <= j { assert s[i] in s && t[j - |s|] in t; }
    }
  }
}
