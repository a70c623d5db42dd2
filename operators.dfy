/** Atomic operator symbols of a *-algebra (class `Operator` of polynomials.py). */
module Operators {

  /** An operator symbol. Operators are value objects: every operation returns a new one. */
  datatype Operator = Operator(name: string, hermitian: bool, adjoint: bool)

  /** What operator equality looks at: the name and the adjoint flag, never `hermitian`. */
  function Key(x: Operator): (string, bool)
  {
    (x.name, x.adjoint)
  }

  /** Operator equality (`__eq__`). */
  function Same(x: Operator, y: Operator): (r: bool)
    ensures r <==> Key(x) == Key(y)
  {
    x.name == y.name && x.adjoint == y.adjoint
  }

  /** `Operator.adj`: a copy whose adjoint flag is toggled unless the operator is hermitian. */
  function Adj(x: Operator): (r: Operator)
    ensures r.name == x.name && r.hermitian == x.hermitian
    ensures r.adjoint == (if x.hermitian then x.adjoint else !x.adjoint)
    ensures Same(r, x) <==> x.hermitian
  {
    var copy := Operator(x.name, x.hermitian, x.adjoint);
    if !copy.hermitian then copy.(adjoint := !copy.adjoint) else copy
  }

  /** `Operator.simplify`: the adjoint of a hermitian operator is the operator itself. */
  function Canonical(x: Operator): (r: Operator)
    ensures r.name == x.name && r.hermitian == x.hermitian
    ensures r.adjoint == (x.adjoint && !x.hermitian)
    ensures r == x <==> !(x.hermitian && x.adjoint)
  {
    if x.hermitian && x.adjoint then x.(adjoint := false) else x
  }

  lemma AdjInvolutive(x: Operator)
    ensures Adj(Adj(x)) == x
  {
  }

  lemma CanonicalIdempotent(x: Operator)
    ensures Canonical(Canonical(x)) == Canonical(x)
    ensures Canonical(Adj(x)) == Adj(Canonical(x))
  {
  }

  /** Equality ignores the hermitian flag: same name and adjoint state compare equal. */
  lemma SameIgnoresHermitian(n: string, a: bool, h1: bool, h2: bool)
    ensures Same(Operator(n, h1, a), Operator(n, h2, a))
  {
  }

  /** Operator equality is an equivalence relation. */
  lemma SameEquivalence(x: Operator, y: Operator, z: Operator)
    ensures Same(x, x)
    ensures Same(x, y) ==> Same(y, x)
    ensures Same(x, y) && Same(y, z) ==> Same(x, z)
  {
  }

  /** The mutable `Operator` object. Only the adjoint flag is ever changed in place. */
  class OperatorObject {
    const name: string
    const hermitian: bool
    var adjoint: bool

    /** The operator the object currently holds. */
    function Value(): Operator
      reads this
    {
      Operator(name, hermitian, adjoint)
    }

    /** `Operator(x)`: a copy of `x`. */
    constructor (x: Operator)
      ensures Value() == x
    {
      name := x.name;
      hermitian := x.hermitian;
      adjoint := x.adjoint;
    }

    /** `simplify`: clear the adjoint flag of a hermitian operator and return the operator. */
    method Simplify() returns (r: Operator)
      modifies this
      ensures Value() == Canonical(old(Value()))
      ensures r == Value()
    {
      if hermitian && adjoint {
        adjoint := false;
      }
      r := Value();
    }
  }
}
