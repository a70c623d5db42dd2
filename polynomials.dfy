/** Sums of monomials (class `Polynomial` of polynomials.py): the list algebra. */
module Polynomials {
  import opened Monomials
  import opened Grouping

  /** A polynomial is its list of terms, in order; nothing is merged until `simplify`. */
  datatype Polynomial = Polynomial(terms: seq<Monomial>)

  /** `Polynomial(x)` for a number, operator or monomial: the one-term list. */
  function FromMonomial(m: Monomial): Polynomial
  {
    Polynomial([m])
  }

  /** `Polynomial()`: the empty sum. */
  function Zero(): Polynomial
  {
    Polynomial([])
  }

  /** The coefficient of the class of `x`: the sum of the coefficients of the terms that
      structurally match `x`. This is what like-term merging must keep. */
  function Coefficient(p: Polynomial, x: Monomial): real
  {
    ClassSum(p.terms, x)
  }

  /** `p + q`: the concatenation of the term lists, `p`'s terms first. */
  function Add(p: Polynomial, q: Polynomial): Polynomial
  {
    Polynomial(p.terms + q.terms)
  }

  /** `-p`: every term negated, in place order. */
  function Neg(p: Polynomial): (r: Polynomial)
    ensures |r.terms| == |p.terms|
    ensures forall i :: 0 <= i < |p.terms| ==> r.terms[i] == Monomials.Neg(p.terms[i])
  {
    Polynomial(seq(|p.terms|, i requires 0 <= i < |p.terms| => Monomials.Neg(p.terms[i])))
  }

  /** `p - q`, which the source writes as `Polynomial(p) + (-Polynomial(q))`. */
  function Sub(p: Polynomial, q: Polynomial): Polynomial
  {
    Add(p, Neg(q))
  }

  /** The terms `a * q[j]` for every j, in order. */
  function Row(a: Monomial, qs: seq<Monomial>): (r: seq<Monomial>)
    ensures |r| == |qs|
    ensures forall j :: 0 <= j < |qs| ==> r[j] == Monomials.Mul(a, qs[j])
  {
    seq(|qs|, j requires 0 <= j < |qs| => Monomials.Mul(a, qs[j]))
  }

  /** `[t1 * t2 for t1, t2 in product(ps, qs)]`: rows of `ps[0]`, then `ps[1]`, and so on. */
  function Product(ps: seq<Monomial>, qs: seq<Monomial>): seq<Monomial>
  {
    if |ps| == 0 then [] else Row(ps[0], qs) + Product(ps[1..], qs)
  }

  /** `p * q`. */
  function Mul(p: Polynomial, q: Polynomial): Polynomial
  {
    Polynomial(Product(p.terms, q.terms))
  }

  /** `p.adj()`: the adjoint of every term, in place order. */
  function Adj(p: Polynomial): (r: Polynomial)
    ensures |r.terms| == |p.terms|
    ensures forall i :: 0 <= i < |p.terms| ==> r.terms[i] == Monomials.Adj(p.terms[i])
  {
    Polynomial(seq(|p.terms|, i requires 0 <= i < |p.terms| => Monomials.Adj(p.terms[i])))
  }

  /** The comparison loop of `__eq__` from index `i` on. */
  function EqualFrom(p: Polynomial, q: Polynomial, i: nat): bool
    requires |p.terms| == |q.terms| && i <= |p.terms|
    decreases |p.terms| - i
  {
    if i == |p.terms| then true
    else if !Monomials.Equal(p.terms[i], q.terms[i]) then false
    else EqualFrom(p, q, i + 1)
  }

  /** `p == q`: same length and `==`-equal terms position by position. */
  function Equal(p: Polynomial, q: Polynomial): bool
  {
    if |p.terms| != |q.terms| then false else EqualFrom(p, q, 0)
  }

  /** `p.degree`: the largest term degree. `max([])` raises, hence the precondition. */
  function Degree(p: Polynomial): (r: nat)
    requires |p.terms| > 0
    ensures forall i :: 0 <= i < |p.terms| ==> Monomials.Degree(p.terms[i]) <= r
    ensures exists i :: 0 <= i < |p.terms| && Monomials.Degree(p.terms[i]) == r
    decreases |p.terms|
  {
    var n := |p.terms|;
    if n == 1 then Monomials.Degree(p.terms[0])
    else
      var rest := Degree(Polynomial(p.terms[..n - 1]));
      assert forall i :: 0 <= i < n - 1 ==> p.terms[..n - 1][i] == p.terms[i];
      if Monomials.Degree(p.terms[n - 1]) > rest then Monomials.Degree(p.terms[n - 1]) else rest
  }

  /** The threshold of `iszero`: coefficients of absolute value up to `1e-10` count as zero. */
  const Tolerance: real := 0.0000000001

  function Abs(c: real): real
  {
    if c < 0.0 then -c else c
  }

  /** `[term.coef for term in ts if abs(term.coef) > 1e-10]`. */
  function BigCoefs(ts: seq<Monomial>): seq<real>
  {
    if |ts| == 0 then []
    else BigCoefs(ts[..|ts| - 1]) + (if Abs(ts[|ts| - 1].coef) > Tolerance then [ts[|ts| - 1].coef] else [])
  }

  /** `p.iszero()`: no coefficient survives the threshold. */
  function IsZero(p: Polynomial): bool
  {
    |BigCoefs(p.terms)| == 0
  }

  // ---------------------------------------------------------------------------------------
  // Properties.

  /** `iszero` holds exactly when every coefficient is within the threshold of 0. */
  lemma {:induction false} IsZeroIff(p: Polynomial)
    ensures IsZero(p) <==> forall i :: 0 <= i < |p.terms| ==> Abs(p.terms[i].coef) <= Tolerance
    decreases |p.terms|
  {
    var ts := p.terms;
    if |ts| > 0 {
      var n := |ts| - 1;
      IsZeroIff(Polynomial(ts[..n]));
      assert forall i :: 0 <= i < n ==> ts[..n][i] == ts[i];
    }
  }

  /** Class coefficients add up over a concatenation. */
  lemma {:induction false} ClassSumConcat(a: seq<Monomial>, b: seq<Monomial>, x: Monomial)
    ensures ClassSum(a + b, x) == ClassSum(a, x) + ClassSum(b, x)
    decreases |b|
  {
    if |b| > 0 {
      var b' := b[..|b| - 1];
      ClassSumConcat(a, b', x);
      assert (a + b)[..|a + b| - 1] == a + b';
      assert (a + b)[|a + b| - 1] == b[|b| - 1];
    } else {
      assert a + b == a;
    }
  }

  /** `p + q` has `|p| + |q|` terms, `p`'s first, and adds the class coefficients. */
  lemma AddCoefficient(p: Polynomial, q: Polynomial, x: Monomial)
    ensures |Add(p, q).terms| == |p.terms| + |q.terms|
    ensures Add(p, q).terms[..|p.terms|] == p.terms && Add(p, q).terms[|p.terms|..] == q.terms
    ensures Coefficient(Add(p, q), x) == Coefficient(p, x) + Coefficient(q, x)
  {
    var s := p.terms + q.terms;
    assert s[..|p.terms|] == p.terms && s[|p.terms|..] == q.terms;
    ClassSumConcat(p.terms, q.terms, x);
  }

  /** Negation negates every class coefficient. */
  lemma {:induction false} NegCoefficient(p: Polynomial, x: Monomial)
    ensures Coefficient(Neg(p), x) == -Coefficient(p, x)
    decreases |p.terms|
  {
    if |p.terms| > 0 {
      var n := |p.terms| - 1;
      NegCoefficient(Polynomial(p.terms[..n]), x);
      assert Neg(p).terms[..n] == Neg(Polynomial(p.terms[..n])).terms;
    }
  }

  /** `p - p` has every class coefficient 0, though it keeps all `2|p|` terms until simplified. */
  lemma SubSelf(p: Polynomial, x: Monomial)
    ensures |Sub(p, p).terms| == 2 * |p.terms|
    ensures Coefficient(Sub(p, p), x) == 0.0
  {
    AddCoefficient(p, Neg(p), x);
    NegCoefficient(p, x);
  }

  /** Negation is an involution. */
  lemma NegInvolutive(p: Polynomial)
    ensures Neg(Neg(p)) == p
  {
    assert Neg(Neg(p)).terms == p.terms;
  }

  /** `p * q` has `|p| * |q|` terms. */
  lemma {:induction false} ProductLength(ps: seq<Monomial>, qs: seq<Monomial>)
    ensures |Product(ps, qs)| == |ps| * |qs|
  {
    if |ps| > 0 {
      ProductLength(ps[1..], qs);
      assert |ps| * |qs| == |qs| + (|ps| - 1) * |qs|;
    }
  }

  /** Term `i * |q| + j` of `p * q` is `p[i] * q[j]`: the order of `itertools.product`. */
  lemma {:induction false} ProductAt(ps: seq<Monomial>, qs: seq<Monomial>, i: nat, j: nat)
    requires i < |ps| && j < |qs|
    ensures i * |qs| + j < |Product(ps, qs)|
    ensures Product(ps, qs)[i * |qs| + j] == Monomials.Mul(ps[i], qs[j])
  {
    ProductLength(ps, qs);
    if i > 0 {
      ProductAt(ps[1..], qs, i - 1, j);
      assert i * |qs| + j == |qs| + ((i - 1) * |qs| + j);
      assert ps[1..][i - 1] == ps[i];
    }
  }

  /** Multiplication distributes over concatenation on the left, term list for term list. */
  lemma {:induction false} ProductConcat(a: seq<Monomial>, b: seq<Monomial>, qs: seq<Monomial>)
    ensures Product(a + b, qs) == Product(a, qs) + Product(b, qs)
    decreases |a|
  {
    if |a| > 0 {
      ProductConcat(a[1..], b, qs);
      assert (a + b)[0] == a[0];
      assert (a + b)[1..] == a[1..] + b;
      assert Row(a[0], qs) + (Product(a[1..], qs) + Product(b, qs))
        == (Row(a[0], qs) + Product(a[1..], qs)) + Product(b, qs);
    } else {
      assert a + b == b;
    }
  }

  /** `(p1 + p2) * q == p1 * q + p2 * q`, as term lists. */
  lemma MulDistributes(p1: Polynomial, p2: Polynomial, q: Polynomial)
    ensures Mul(Add(p1, p2), q) == Add(Mul(p1, q), Mul(p2, q))
  {
    ProductConcat(p1.terms, p2.terms, q.terms);
  }

  /** The one-term polynomial `Polynomial(Monomial([]))` is a two-sided unit of `*`. */
  lemma {:induction false} MulUnit(p: Polynomial)
    ensures Mul(FromMonomial(Identity()), p) == p
    ensures Mul(p, FromMonomial(Identity())) == p
    decreases |p.terms|
  {
    var one := FromMonomial(Identity());
    forall j | 0 <= j < |p.terms|
      ensures Monomials.Mul(Identity(), p.terms[j]) == p.terms[j]
      ensures Monomials.Mul(p.terms[j], Identity()) == p.terms[j]
    {
      MulIdentity(p.terms[j]);
    }
    assert Row(Identity(), p.terms) == p.terms;
    assert Product(one.terms, p.terms) == Row(Identity(), p.terms) + Product([], p.terms);
    if |p.terms| > 0 {
      MulUnit(Polynomial(p.terms[1..]));
      assert Product(p.terms, one.terms) == [p.terms[0]] + Product(p.terms[1..], one.terms);
    }
  }

  /** `p.adj()` is an involution. */
  lemma AdjInvolutive(p: Polynomial)
    ensures Adj(Adj(p)) == p
  {
    forall i | 0 <= i < |p.terms|
      ensures Adj(Adj(p)).terms[i] == p.terms[i]
    {
      Monomials.AdjInvolutive(p.terms[i]);
    }
  }

  /** The adjoint of a sum is the sum of the adjoints. */
  lemma AdjAdd(p: Polynomial, q: Polynomial)
    ensures Adj(Add(p, q)) == Add(Adj(p), Adj(q))
  {
    assert Adj(Add(p, q)).terms == Add(Adj(p), Adj(q)).terms;
  }

  /** The comparison loop answers whether all remaining positions are `==`-equal. */
  lemma {:induction false} EqualFromPointwise(p: Polynomial, q: Polynomial, i: nat)
    requires |p.terms| == |q.terms| && i <= |p.terms|
    ensures EqualFrom(p, q, i) <==> forall k :: i <= k < |p.terms| ==> Monomials.Equal(p.terms[k], q.terms[k])
    decreases |p.terms| - i
  {
    if i < |p.terms| {
      EqualFromPointwise(p, q, i + 1);
    }
  }

  /** `p == q` holds exactly for equal lengths and position-wise `==`-equal terms. */
  lemma EqualIff(p: Polynomial, q: Polynomial)
    ensures Equal(p, q) <==>
      (|p.terms| == |q.terms| && forall k :: 0 <= k < |p.terms| ==> Monomials.Equal(p.terms[k], q.terms[k]))
  {
    if |p.terms| == |q.terms| {
      EqualFromPointwise(p, q, 0);
    }
  }

  /** Position-wise `==`-equal lists have the same class coefficients. */
  lemma {:induction false} ClassSumPointwise(a: seq<Monomial>, b: seq<Monomial>, x: Monomial)
    requires |a| == |b| && forall k :: 0 <= k < |a| ==> Monomials.Equal(a[k], b[k])
    ensures ClassSum(a, x) == ClassSum(b, x)
    decreases |a|
  {
    if |a| > 0 {
      var n := |a| - 1;
      assert forall k :: 0 <= k < n ==> a[..n][k] == a[k] && b[..n][k] == b[k];
      ClassSumPointwise(a[..n], b[..n], x);
      MatchesEquivalence(x, a[n], b[n]);
      MatchesEquivalence(x, b[n], a[n]);
      MatchesEquivalence(a[n], b[n], b[n]);
    }
  }

  /** `==`-equal polynomials have the same coefficient in every class. */
  lemma EqualCoefficient(p: Polynomial, q: Polynomial, x: Monomial)
    requires Equal(p, q)
    ensures Coefficient(p, x) == Coefficient(q, x)
  {
    EqualIff(p, q);
    ClassSumPointwise(p.terms, q.terms, x);
  }

  /** `Polynomial()` is a two-sided unit of `+` and is zero. */
  lemma AddZero(p: Polynomial)
    ensures Add(Zero(), p) == p && Add(p, Zero()) == p
    ensures IsZero(Zero())
  {
  }

  /** `Polynomial(m)` has the single term `m`, so its coefficient in the class of `m` is
      `m`'s coefficient. */
  lemma FromMonomialCoefficient(m: Monomial)
    ensures |FromMonomial(m).terms| == 1
    ensures Coefficient(FromMonomial(m), m) == m.coef
  {
    MatchesEquivalence(m, m, m);
    assert [m][..0] == [];
    assert ClassSum([m], m) == ClassSum([], m) + m.coef;
  }
}
