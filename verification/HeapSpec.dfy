/** What a heap of deps/lemon/lemon/concepts/heap.h does, on a plain map from the stored
    items to their priorities. */
module HeapSpec {

  type Item = int

  // What `state` reports and the cross reference map starts from.
  const IN_HEAP := 0
  const PRE_HEAP := -1
  const POST_HEAP := -2

  /** The slot a cross reference map records for an item; an absent item stands for PRE_HEAP. */
  function Ref(iim: map<Item, int>, x: Item): int {
    if x in iim then iim[x] else PRE_HEAP
  }

  datatype Op =
    | Push(x: Item, v: int)
    | Pop
    | Erase(x: Item)
    | Decrease(x: Item, v: int)
    | Increase(x: Item, v: int)
    | Set(x: Item, v: int)
    | SetState(x: Item, st: int)
    | Replace(x: Item, y: Item)  // only the binary heap has this one

  /** `t` has least priority in `m`. */
  ghost predicate Least(m: map<Item, int>, t: Item) {
    t in m && forall x :: x in m ==> m[t] <= m[x]
  }

  /** `v` is the least priority in `m`. */
  ghost predicate Ties(m: map<Item, int>, v: int) {
    (exists x :: x in m && m[x] == v) && forall x :: x in m ==> v <= m[x]
  }

  /** The documented preconditions. */
  ghost predicate Legal(m: map<Item, int>, op: Op) {
    match op
    case Push(x, v) => x !in m
    case Pop => m != map[]
    case Erase(x) => x in m
    case Decrease(x, v) => x in m && v <= m[x]
    case Increase(x, v) => x in m && v >= m[x]
    case Set(x, v) => true
    case SetState(x, st) => st in {IN_HEAP, PRE_HEAP, POST_HEAP}
    case Replace(x, y) => x in m && y !in m
  }

  /** What an operation does to the map; `Pop` may take any least item. */
  ghost predicate Step(m: map<Item, int>, op: Op, n: map<Item, int>) {
    match op
    case Push(x, v) => n == m[x := v]
    case Pop => exists t :: Least(m, t) && n == m - {t}
    case Erase(x) => n == m - {x}
    case Decrease(x, v) => n == m[x := v]
    case Increase(x, v) => n == m[x := v]
    case Set(x, v) => n == m[x := v]
    case SetState(x, st) => n == if st == IN_HEAP then m else m - {x}
    case Replace(x, y) => x in m && n == (m - {x})[y := m[x]]
  }

  /** Every operation is legal, whatever the earlier ones chose. */
  ghost predicate AllLegal(m: map<Item, int>, ops: seq<Op>)
    decreases |ops|
  {
    ops != [] ==> Legal(m, ops[0]) && forall n :: Step(m, ops[0], n) ==> AllLegal(n, ops[1..])
  }

  ghost predicate IsRun(ops: seq<Op>, trace: seq<map<Item, int>>) {
    |trace| == |ops| + 1 && forall k :: 0 <= k < |ops| ==> Step(trace[k], ops[k], trace[k + 1])
  }

  lemma NextLegal(m: map<Item, int>, ops: seq<Op>, k: nat)
    requires k < |ops| && AllLegal(m, ops[k..])
    ensures Legal(m, ops[k]) && forall n :: Step(m, ops[k], n) ==> AllLegal(n, ops[k + 1..])
  {
    assert ops[k..][0] == ops[k] && ops[k..][1..] == ops[k + 1..];
  }

  lemma RunExtends(ops: seq<Op>, trace: seq<map<Item, int>>, k: nat, n: map<Item, int>)
    requires k < |ops| && IsRun(ops[..k], trace) && Step(trace[k], ops[k], n)
    ensures IsRun(ops[..k + 1], trace + [n])
  {
    forall j | 0 <= j < k + 1 ensures Step((trace + [n])[j], ops[..k + 1][j], (trace + [n])[j + 1]) {
      if j < k { assert ops[..k][j] == ops[..k + 1][j]; }
    }
  }

  /** `out` lists the items of `m`, each once, in order of priority. */
  ghost predicate SortedListing(m: map<Item, int>, out: seq<(Item, int)>) {
    && |out| == |m|
    && (forall i, j :: 0 <= i < j < |out| ==> out[i].1 <= out[j].1 && out[i].0 != out[j].0)
    && (forall i :: 0 <= i < |out| ==> out[i].0 in m && m[out[i].0] == out[i].1)
  }
}
