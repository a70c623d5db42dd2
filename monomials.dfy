/** Products of operators with a coefficient (class `Monomial` of polynomials.py). */
module Monomials {
  import opened Operators
  import opened Lists

  /** An ordered word of operators times a scalar coefficient. */
  datatype Monomial = Monomial(terms: seq<Operator>, coef: real)

  /** `Monomial([])`: the empty word with coefficient 1, the multiplicative identity. */
  function Identity(): Monomial
  {
    Monomial([], 1.0)
  }

  /** `Monomial(c)` for a number c: the empty word with coefficient c. */
  function FromScalar(c: real): Monomial
  {
    Monomial([], c)
  }

  /** `Monomial(x)` for an operator x: the one-letter word with coefficient 1. */
  function FromOperator(x: Operator): Monomial
  {
    Monomial([x], 1.0)
  }

  /** `Monomial.degree` (and `len`): the number of factors. */
  function Degree(m: Monomial): nat
  {
    |m.terms|
  }

  /** The factor-by-factor comparison loop shared by `__mod__` and `__eq__`. */
  function WordMatches(u: seq<Operator>, v: seq<Operator>): bool
  {
    if |u| != |v| then false
    else if |u| == 0 then true
    else Same(u[0], v[0]) && WordMatches(u[1..], v[1..])
  }

  /** The comparison loop accepts exactly the equal-length words that agree factor by factor. */
  lemma {:induction false} WordMatchesPointwise(u: seq<Operator>, v: seq<Operator>)
    ensures WordMatches(u, v) <==> |u| == |v| && forall i :: 0 <= i < |u| ==> Same(u[i], v[i])
  {
    if |u| == |v| && |u| > 0 {
      WordMatchesPointwise(u[1..], v[1..]);
      assert forall i :: 1 <= i < |u| ==> u[1..][i - 1] == u[i] && v[1..][i - 1] == v[i];
    }
  }

  /** Structural match `a % b`: same length, pointwise operator equality, coefficients ignored. */
  function Matches(a: Monomial, b: Monomial): bool
  {
    WordMatches(a.terms, b.terms)
  }

  /** Exact equality `a == b`: structural match plus equal coefficients. */
  function Equal(a: Monomial, b: Monomial): (r: bool)
    ensures r <==> Matches(a, b) && a.coef == b.coef
  {
    if |a.terms| != |b.terms| || a.coef != b.coef then false
    else WordMatches(a.terms, b.terms)
  }

  /** `a * b`: concatenation of the words, left operand first; product of the coefficients. */
  function Mul(a: Monomial, b: Monomial): Monomial
  {
    Monomial(a.terms + b.terms, a.coef * b.coef)
  }

  /** `-m`: the same word with the coefficient negated. */
  function Neg(m: Monomial): Monomial
  {
    Monomial(m.terms, -m.coef)
  }

  /** `c * m` and `m * c` for a number c (promotion of c to `Monomial(c)`). */
  function Scale(m: Monomial, c: real): Monomial
  {
    Mul(m, FromScalar(c))
  }

  /** `x * y` for operators: both are promoted to one-letter monomials. */
  function OperatorProduct(x: Operator, y: Operator): Monomial
  {
    Mul(FromOperator(x), FromOperator(y))
  }

  /** `-x` for an operator: the one-letter word with coefficient -1. */
  function OperatorNeg(x: Operator): Monomial
  {
    Monomial([x], -1.0)
  }

  /** The per-factor step of `Monomial.adj`: `op.adj() if op.hermitian == False else op`. */
  function AdjFactor(x: Operator): Operator
  {
    if !x.hermitian then Operators.Adj(x) else x
  }

  /** `Monomial.adj`: reverse the word and take the adjoint of every factor. Coefficients are
      real here, so the conjugation of complex coefficients leaves them as they are. */
  function Adj(m: Monomial): (r: Monomial)
    ensures |r.terms| == |m.terms| && r.coef == m.coef
    ensures forall i :: 0 <= i < |m.terms| ==> r.terms[i] == Operators.Adj(m.terms[|m.terms| - 1 - i])
  {
    var reversed := Reverse(m.terms);
    Monomial(seq(|reversed|, i requires 0 <= i < |reversed| => AdjFactor(reversed[i])), m.coef)
  }

  /** The `hermitian` property: the monomial structurally matches its own adjoint. */
  function IsHermitian(m: Monomial): bool
  {
    Matches(m, Adj(m))
  }

  /** Structural match is an equivalence relation. */
  lemma MatchesEquivalence(a: Monomial, b: Monomial, c: Monomial)
    ensures Matches(a, a)
    ensures Matches(a, b) ==> Matches(b, a)
    ensures Matches(a, b) && Matches(b, c) ==> Matches(a, c)
  {
    WordMatchesPointwise(a.terms, a.terms);
    WordMatchesPointwise(a.terms, b.terms);
    WordMatchesPointwise(b.terms, a.terms);
    WordMatchesPointwise(b.terms, c.terms);
    WordMatchesPointwise(a.terms, c.terms);
  }

  /** The identity is a two-sided unit of multiplication, under `==` and as a value. */
  lemma MulIdentity(m: Monomial)
    ensures Mul(Identity(), m) == m && Mul(m, Identity()) == m
    ensures Equal(Mul(Identity(), m), m) && Equal(Mul(m, Identity()), m)
  {
    WordMatchesPointwise(m.terms, m.terms);
    assert [] + m.terms == m.terms;
    assert m.terms + [] == m.terms;
  }

  lemma MulAssociative(a: Monomial, b: Monomial, c: Monomial)
    ensures Mul(Mul(a, b), c) == Mul(a, Mul(b, c))
  {
    assert (a.terms + b.terms) + c.terms == a.terms + (b.terms + c.terms);
  }

  /** Multiplying by a number keeps the word and scales the coefficient. */
  lemma ScaleKeepsWord(m: Monomial, c: real)
    ensures Scale(m, c) == Monomial(m.terms, m.coef * c)
    ensures Matches(Scale(m, c), m)
  {
    WordMatchesPointwise(m.terms, m.terms);
    assert m.terms + [] == m.terms;
  }

  /** `Monomial.adj` is an involution (for real coefficients). */
  lemma AdjInvolutive(m: Monomial)
    ensures Adj(Adj(m)) == m
    ensures Equal(Adj(Adj(m)), m)
  {
    WordMatchesPointwise(m.terms, m.terms);
    var n := |m.terms|;
    forall i | 0 <= i < n
      ensures Adj(Adj(m)).terms[i] == m.terms[i]
    {
      Operators.AdjInvolutive(m.terms[i]);
    }
  }

  /** The adjoint of a product is the product of the adjoints in reverse order. */
  lemma {:induction false} AdjMul(a: Monomial, b: Monomial)
    ensures Adj(Mul(a, b)) == Mul(Adj(b), Adj(a))
  {
    var l, r := Adj(Mul(a, b)), Mul(Adj(b), Adj(a));
    assert |l.terms| == |r.terms|;
    forall i | 0 <= i < |l.terms|
      ensures l.terms[i] == r.terms[i]
    {
      if i < |b.terms| {
        assert r.terms[i] == Adj(b).terms[i];
      } else {
        assert r.terms[i] == Adj(a).terms[i - |b.terms|];
      }
    }
  }

  /** A one-letter monomial is hermitian exactly when its operator is. */
  lemma HermitianLetter(x: Operator)
    ensures IsHermitian(FromOperator(x)) <==> x.hermitian
  {
    assert Adj(FromOperator(x)).terms[0] == Operators.Adj(x);
    WordMatchesPointwise(FromOperator(x).terms, Adj(FromOperator(x)).terms);
  }

  /** A monomial is hermitian exactly when its adjoint is. */
  lemma AdjHermitian(m: Monomial)
    ensures IsHermitian(Adj(m)) <==> IsHermitian(m)
  {
    AdjInvolutive(m);
    MatchesEquivalence(m, Adj(m), m);
    MatchesEquivalence(Adj(m), m, Adj(m));
  }

  /** Every product `m * m.adj()` is hermitian. */
  lemma ProductWithAdjointHermitian(m: Monomial)
    ensures IsHermitian(Mul(m, Adj(m)))
  {
    AdjMul(m, Adj(m));
    AdjInvolutive(m);
    MatchesEquivalence(Mul(m, Adj(m)), Mul(m, Adj(m)), Mul(m, Adj(m)));
  }

  /** Numbers promoted to monomials multiply as numbers; the identity is the number 1. */
  lemma ScalarsMultiply(c: real, d: real)
    ensures Mul(FromScalar(c), FromScalar(d)) == FromScalar(c * d)
    ensures Identity() == FromScalar(1.0) && Degree(FromScalar(c)) == 0
  {
  }

  /** `c * m` (`__rmul__`, which returns `m * c`) equals the product `Monomial(c) * m`. */
  lemma ScaleCommutes(m: Monomial, c: real)
    ensures Mul(FromScalar(c), m) == Scale(m, c)
  {
  }

  /** Degrees add under multiplication, and the adjoint keeps the degree. */
  lemma DegreeMul(a: Monomial, b: Monomial)
    ensures Degree(Mul(a, b)) == Degree(a) + Degree(b)
    ensures Degree(Adj(a)) == Degree(a)
  {
  }

  /** `x * y` for operators is the two-letter word `x y` with coefficient 1, which matches
      `y x` only when the two letters are equal. */
  lemma OperatorProductWord(x: Operator, y: Operator)
    ensures OperatorProduct(x, y) == Monomial([x, y], 1.0)
    ensures Matches(OperatorProduct(x, y), OperatorProduct(y, x)) <==> Same(x, y)
  {
    assert [x] + [y] == [x, y] && [y] + [x] == [y, x];
    WordMatchesPointwise([x, y], [y, x]);
    SameEquivalence(x, y, x);
  }

  /** `-x` for an operator agrees with negating the promoted monomial `Monomial(x)`. */
  lemma OperatorNegIsNeg(x: Operator)
    ensures OperatorNeg(x) == Neg(FromOperator(x))
    ensures Matches(OperatorNeg(x), FromOperator(x))
  {
  }
}
