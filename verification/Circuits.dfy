/** Gate lists on classical basis states, as the kernels of examples/scaffCC/square_root.cc
    build them. A basis state is a bit per qubit together with a sign. */
module Circuits {

  datatype Gate =
    | X(q: nat)
    | Z(q: nat)
    | PrepZ(q: nat)
    | Hadamard(q: nat)
    | Cnot(c: nat, t: nat)
    | Toffoli(a: nat, b: nat, t: nat)

  datatype State = State(bits: seq<bool>, minus: bool)

  /** Gates that map a basis state to a basis state, up to sign. */
  predicate Classical(g: Gate) {
    !g.Hadamard?
  }

  /** The gate acts on the first `m` qubits, its controls apart from its target. */
  predicate Fits(g: Gate, m: nat) {
    match g
    case Cnot(c, t) => c < m && t < m && c != t
    case Toffoli(a, b, t) => a < m && b < m && t < m && a != t && b != t
    case _ => g.q < m
  }

  function Apply(g: Gate, s: State): (r: State)
    requires Classical(g) && Fits(g, |s.bits|)
    ensures |r.bits| == |s.bits|
  {
    match g
    case X(q) => s.(bits := s.bits[q := !s.bits[q]])
    case Z(q) => s.(minus := s.minus != s.bits[q])
    case PrepZ(q) => s.(bits := s.bits[q := false])
    case Cnot(c, t) => s.(bits := s.bits[t := s.bits[t] != s.bits[c]])
    case Toffoli(a, b, t) => s.(bits := s.bits[t := s.bits[t] != (s.bits[a] && s.bits[b])])
  }

  ghost predicate Runs(gates: seq<Gate>, m: nat) {
    forall i :: 0 <= i < |gates| ==> Classical(gates[i]) && Fits(gates[i], m)
  }

  function Run(gates: seq<Gate>, s: State): (r: State)
    requires Runs(gates, |s.bits|)
    ensures |r.bits| == |s.bits|
  {
    if gates == [] then s
    else
      Apply(gates[|gates| - 1], Run(gates[..|gates| - 1], s))
  }

  lemma {:induction false} RunConcat(g: seq<Gate>, h: seq<Gate>, s: State)
    requires Runs(g, |s.bits|) && Runs(h, |s.bits|)
    ensures Runs(g + h, |s.bits|) && Run(g + h, s) == Run(h, Run(g, s))
  {
    if h == [] {
      assert g + h == g;
    } else {
      RunConcat(g, h[..|h| - 1], s);
      assert (g + h)[..|g + h| - 1] == g + h[..|h| - 1];
    }
  }

  lemma RunOne(g: Gate, s: State)
    requires Classical(g) && Fits(g, |s.bits|)
    ensures Runs([g], |s.bits|) && Run([g], s) == Apply(g, s)
  {
    assert [g][..0] == [];
  }

  lemma RunSnoc(gates: seq<Gate>, g: Gate, s: State)
    requires Runs(gates, |s.bits|) && Classical(g) && Fits(g, |s.bits|)
    ensures Runs(gates + [g], |s.bits|) && Run(gates + [g], s) == Apply(g, Run(gates, s))
  {
    assert (gates + [g])[..|gates|] == gates;
  }

  /** The kernel under construction: gates are appended one by one. */
  class Kernel {
    var gates: seq<Gate>

    constructor ()
      ensures gates == []
    {
      gates := [];
    }

    method Add(g: Gate)
      modifies this
      ensures gates == old(gates) + [g]
    {
      gates := gates + [g];
    }
  }
}
