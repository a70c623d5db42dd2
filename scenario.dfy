/** A worked case of `Polynomial.simplify`: two different projectors `a`, `b` of one measurement
    under the three rules `a*a -> a`, `a*b -> 0`, `b*a -> 0`, and no rule for `b*b`. */
module Scenario {
  import opened Options
  import opened Operators
  import opened Monomials
  import opened Polynomials
  import opened Substitution
  import opened Grouping
  import opened PolynomialSimplify

  /** The word `x y` with coefficient 1. */
  function Word(x: Operator, y: Operator): Monomial
  {
    Monomial([x, y], 1.0)
  }

  /** `{a*a: a, a*b: 0, b*a: 0}`. */
  function ThreeRules(a: Operator, b: Operator): (r: Rules)
  {
    [(Word(a, a), FromOperator(a)), (Word(a, b), FromScalar(0.0)), (Word(b, a), FromScalar(0.0))]
  }

  /** `a + b`. */
  function Sum(a: Operator, b: Operator): Polynomial
  {
    Polynomial([FromOperator(a), FromOperator(b)])
  }

  /** A two-letter pattern occurs in a two-letter word only at 0, exactly when the letters are
      equal in order. */
  lemma TwoLetters(x: Operator, y: Operator, p: Operator, q: Operator)
    ensures FirstMatch([x, y], [p, q]) == if Same(x, p) && Same(y, q) then Some(0) else None
  {
    assert [x, y][0..2] == [x, y];
    WordMatchesPointwise([x, y], [p, q]);
  }

  /** No rule applies to a word shorter than two letters. */
  lemma ShortWordNormal(m: Monomial, a: Operator, b: Operator)
    requires |m.terms| < 2 && (m.coef == 0.0 ==> m.terms == [])
    ensures Normalize(m, ThreeRules(a, b), 1) == Some(m)
  {
    var R := ThreeRules(a, b);
    forall j | 0 <= j < |R|
      ensures !Occurs(m.terms, R[j].0.terms)
    {
      assert |R[j].0.terms| == 2;
    }
    NormalFixedPoint(m, R, 1);
  }

  /** Rewriting a two-letter word with the rule at index `i` leaves the rule's value. */
  lemma RewriteWith(m: Monomial, a: Operator, b: Operator, i: nat)
    requires i < 3 && |m.terms| == 2 && m.coef == 1.0
    requires FirstRuleFrom(m.terms, ThreeRules(a, b), 0) == Some(i)
    requires FirstMatch(m.terms, ThreeRules(a, b)[i].0.terms) == Some(0)
    ensures Normalize(m, ThreeRules(a, b), 2) == Normalize(ThreeRules(a, b)[i].1, ThreeRules(a, b), 1)
  {
    var R := ThreeRules(a, b);
    var v := R[i].1;
    assert R[i].0.coef == 1.0 && |R[i].0.terms| == 2;
    assert m.terms[0..0] == [] && m.terms[2..2] == [];
    assert [] + v.terms + [] == v.terms;
    assert Substitute(m, R[i].0, v).value == Monomial(v.terms, 1.0 * v.coef / 1.0);
    assert Monomial(v.terms, 1.0 * v.coef / 1.0) == v;
  }

  lemma NormalizeAA(a: Operator, b: Operator)
    ensures Normalize(Word(a, a), ThreeRules(a, b), 2) == Some(FromOperator(a))
  {
    TwoLetters(a, a, a, a);
    assert FirstRuleFrom([a, a], ThreeRules(a, b), 0) == Some(0);
    RewriteWith(Word(a, a), a, b, 0);
    ShortWordNormal(FromOperator(a), a, b);
  }

  lemma NormalizeAB(a: Operator, b: Operator)
    requires !Same(a, b)
    ensures Normalize(Word(a, b), ThreeRules(a, b), 2) == Some(FromScalar(0.0))
  {
    TwoLetters(a, b, a, a);
    TwoLetters(a, b, a, b);
    assert FirstRuleFrom([a, b], ThreeRules(a, b), 1) == Some(1);
    RewriteWith(Word(a, b), a, b, 1);
    ShortWordNormal(FromScalar(0.0), a, b);
  }

  lemma NormalizeBA(a: Operator, b: Operator)
    requires !Same(a, b) && !Same(b, a)
    ensures Normalize(Word(b, a), ThreeRules(a, b), 2) == Some(FromScalar(0.0))
  {
    TwoLetters(b, a, a, a);
    TwoLetters(b, a, a, b);
    TwoLetters(b, a, b, a);
    assert FirstRuleFrom([b, a], ThreeRules(a, b), 2) == Some(2);
    assert FirstRuleFrom([b, a], ThreeRules(a, b), 1) == Some(2);
    RewriteWith(Word(b, a), a, b, 2);
    ShortWordNormal(FromScalar(0.0), a, b);
  }

  lemma NormalizeBB(a: Operator, b: Operator)
    requires !Same(a, b) && !Same(b, a)
    ensures Normalize(Word(b, b), ThreeRules(a, b), 2) == Some(Word(b, b))
  {
    var R := ThreeRules(a, b);
    TwoLetters(b, b, a, a);
    TwoLetters(b, b, a, b);
    TwoLetters(b, b, b, a);
    assert FirstRuleFrom([b, b], R, 2) == None;
    assert FirstRuleFrom([b, b], R, 1) == None;
    assert FirstRuleFrom([b, b], R, 0) == None;
  }

  /** Grouping `[x]`, then `[x, z]`, `[x, z, z]` and `[x, z, z, w]` for three pairwise
      different words. */
  lemma GroupOne(x: Monomial)
    ensures Unique([x]) == Groups([x], [[0]])
  {
    assert [x][..0] == [];
  }

  lemma GroupTwo(x: Monomial, z: Monomial)
    requires !Matches(x, z)
    ensures Unique([x, z]) == Groups([x, z], [[0], [1]])
  {
    assert [x, z][..1] == [x];
    GroupOne(x);
    assert !AnyMatch([x], z);
  }

  lemma GroupThree(x: Monomial, z: Monomial)
    requires !Matches(x, z) && Matches(z, z)
    ensures Unique([x, z, z]) == Groups([x, z], [[0], [1, 2]])
  {
    assert [x, z, z][..2] == [x, z];
    GroupTwo(x, z);
    assert AnyMatch([x, z], z);
    var r := AppendWhere([x, z], [[0], [1]], z, 2);
    assert r[0] == [0] && r[1] == [1, 2];
    assert r == [[0], [1, 2]];
  }

  lemma GroupFour(x: Monomial, z: Monomial, w: Monomial)
    requires !Matches(x, z) && Matches(z, z) && !Matches(x, w) && !Matches(z, w)
    ensures Unique([x, z, z, w]) == Groups([x, z, w], [[0], [1, 2], [3]])
  {
    assert [x, z, z, w][..3] == [x, z, z];
    GroupThree(x, z);
    assert !AnyMatch([x, z], w);
  }

  /** The simplified products group as `[a]`, the two zeros, and `b*b`. */
  lemma GroupProducts(a: Operator, b: Operator)
    requires !Same(b, a)
    ensures Unique([FromOperator(a), FromScalar(0.0), FromScalar(0.0), Word(b, b)]) ==
      Groups([FromOperator(a), FromScalar(0.0), Word(b, b)], [[0], [1, 2], [3]])
  {
    var x, z, w := FromOperator(a), FromScalar(0.0), Word(b, b);
    WordMatchesPointwise(z.terms, z.terms);
    WordMatchesPointwise(x.terms, w.terms);
    assert !Matches(x, z) && Matches(z, z) && !Matches(x, w) && !Matches(z, w);
    GroupFour(x, z, w);
  }

  lemma WordProduct(x: Operator, y: Operator)
    ensures Monomials.Mul(FromOperator(x), FromOperator(y)) == Word(x, y)
  {
    assert [x] + [y] == [x, y];
  }

  /** The four products of `(a + b) * (a + b)`, row by row. */
  lemma ProductsOfSum(a: Operator, b: Operator)
    ensures Polynomials.Mul(Sum(a, b), Sum(a, b)).terms == [Word(a, a), Word(a, b), Word(b, a), Word(b, b)]
  {
    var s := Sum(a, b).terms;
    WordProduct(a, a);
    WordProduct(a, b);
    WordProduct(b, a);
    WordProduct(b, b);
    assert s[1..][0] == s[1] && s[1..][1..] == [];
    assert Product(s[1..][1..], s) == [];
    assert Row(s[0], s) == [Word(a, a), Word(a, b)];
    assert Row(s[1], s) == [Word(b, a), Word(b, b)];
    assert Product(s[1..], s) == [Word(b, a), Word(b, b)] + [];
    assert Product(s, s) == [Word(a, a), Word(a, b)] + [Word(b, a), Word(b, b)];
  }

  /** One more normalized term. */
  lemma NormalizeAllSnoc(ts: seq<Monomial>, t: Monomial, rules: Rules, fuel: nat, ns: seq<Monomial>, m: Monomial)
    requires NormalizeAll(ts, rules, fuel) == Some(ns) && Normalize(t, rules, fuel) == Some(m)
    ensures NormalizeAll(ts + [t], rules, fuel) == Some(ns + [m])
  {
    assert (ts + [t])[..|ts|] == ts;
  }

  /** Normalizing the first row of products. */
  lemma NormalizeFirstRow(a: Operator, b: Operator)
    requires !Same(a, b)
    ensures NormalizeAll([Word(a, a), Word(a, b)], ThreeRules(a, b), 2) == Some([FromOperator(a), FromScalar(0.0)])
  {
    var R := ThreeRules(a, b);
    var x, z := FromOperator(a), FromScalar(0.0);
    NormalizeAA(a, b);
    NormalizeAB(a, b);
    NormalizeAllSnoc([], Word(a, a), R, 2, [], x);
    assert [] + [Word(a, a)] == [Word(a, a)] && [] + [x] == [x];
    NormalizeAllSnoc([Word(a, a)], Word(a, b), R, 2, [x], z);
    assert [Word(a, a)] + [Word(a, b)] == [Word(a, a), Word(a, b)] && [x] + [z] == [x, z];
  }

  /** Normalizing the four products term by term. */
  lemma NormalizeProducts(a: Operator, b: Operator)
    requires !Same(a, b) && !Same(b, a)
    ensures NormalizeAll([Word(a, a), Word(a, b), Word(b, a), Word(b, b)], ThreeRules(a, b), 2) ==
      Some([FromOperator(a), FromScalar(0.0), FromScalar(0.0), Word(b, b)])
  {
    var R := ThreeRules(a, b);
    var x, z := FromOperator(a), FromScalar(0.0);
    NormalizeFirstRow(a, b);
    NormalizeBA(a, b);
    NormalizeBB(a, b);
    NormalizeAllSnoc([Word(a, a), Word(a, b)], Word(b, a), R, 2, [x, z], z);
    assert [Word(a, a), Word(a, b)] + [Word(b, a)] == [Word(a, a), Word(a, b), Word(b, a)] && [x, z] + [z] == [x, z, z];
    NormalizeAllSnoc([Word(a, a), Word(a, b), Word(b, a)], Word(b, b), R, 2, [x, z, z], Word(b, b));
    assert [Word(a, a), Word(a, b), Word(b, a)] + [Word(b, b)] == [Word(a, a), Word(a, b), Word(b, a), Word(b, b)];
    assert [x, z, z] + [Word(b, b)] == [x, z, z, Word(b, b)];
  }

  /** The coefficient sums of the three groups. */
  lemma ProductSums(x: Monomial, z: Monomial, w: Monomial)
    requires x.coef == 1.0 && z.coef == 0.0 && w.coef == 1.0
    ensures SumAt([x, z, z, w], [0]) == 1.0 && SumAt([x, z, z, w], [1, 2]) == 0.0 && SumAt([x, z, z, w], [3]) == 1.0
  {
    assert [0][..0] == [] && [3][..0] == [] && [1, 2][..1] == [1] && [1][..0] == [];
  }

  /** Merging the grouped products: the two zeros add up to zero. */
  lemma MergeOfProducts(a: Operator, b: Operator)
    requires !Same(b, a)
    ensures Merge([FromOperator(a), FromScalar(0.0), FromScalar(0.0), Word(b, b)]) ==
      [FromOperator(a), FromScalar(0.0), Word(b, b)]
  {
    var x, z, w := FromOperator(a), FromScalar(0.0), Word(b, b);
    var ns := [x, z, z, w];
    GroupProducts(a, b);
    ProductSums(x, z, w);
    var M := Merge(ns);
    assert M[0] == x && M[1] == z && M[2] == w;
  }

  /** Dropping the zero term leaves `a` and `b*b`. */
  lemma DropZeroProduct(x: Monomial, z: Monomial, w: Monomial)
    requires x.coef != 0.0 && z.coef == 0.0 && w.coef != 0.0
    ensures DropZeros([x, z, w]) == [x, w]
  {
    assert [x, z, w][..2] == [x, z] && [x, z][..1] == [x] && [x][..0] == [];
    assert DropZeros([x]) == [] + [x];
    assert DropZeros([x, z]) == [x] + [];
    assert DropZeros([x, z, w]) == [x] + [w];
  }

  /** `(a + b) * (a + b)` simplifies to `a + b*b`, not to `a + b`: no rule rewrites `b*b`. */
  lemma SquareOfSum(a: Operator, b: Operator)
    requires !Same(a, b) && !Same(b, a)
    ensures SimplifyPoly(Polynomials.Mul(Sum(a, b), Sum(a, b)), ThreeRules(a, b), 2) ==
      Some(Polynomial([FromOperator(a), Word(b, b)]))
  {
    ProductsOfSum(a, b);
    NormalizeProducts(a, b);
    MergeOfProducts(a, b);
    DropZeroProduct(FromOperator(a), FromScalar(0.0), Word(b, b));
  }

  /** A one-letter pattern that neither letter matches does not occur in a two-letter word. */
  lemma OneLetterAbsent(x: Operator, y: Operator, p: Operator)
    requires !Same(x, p) && !Same(y, p)
    ensures FirstMatch([x, y], [p]).None?
  {
    assert [x, y][0..1] == [x] && [x, y][1..2] == [y];
    WordMatchesPointwise([x], [p]);
    WordMatchesPointwise([y], [p]);
  }

  /** A rule whose pattern has coefficient 0 does no harm while it does not match: under
      `{0*b: x, a*a: a}`, `a*a` simplifies to `a`. */
  lemma ZeroPatternUnmatched(a: Operator, b: Operator, x: Monomial)
    requires !Same(a, b)
    ensures Normalize(Word(a, a), [(Monomial([b], 0.0), x), (Word(a, a), FromOperator(a))], 2)
      == Some(FromOperator(a))
  {
    var R := [(Monomial([b], 0.0), x), (Word(a, a), FromOperator(a))];
    OneLetterAbsent(a, a, b);
    TwoLetters(a, a, a, a);
    assert FirstRuleFrom([a, a], R, 0) == Some(1);
    NormalizeStep(Word(a, a), R, 2, 1);
    SubstituteAt(Word(a, a), Word(a, a), FromOperator(a), 0);
    assert [a, a][0..0] + [a] + [a, a][2..2] == [a];
    assert Substitute(Word(a, a), Word(a, a), FromOperator(a)).value == FromOperator(a);
    WordMatchesPointwise([a], [b]);
    assert [a][0..1] == [a];
    assert !MatchesAt([a], [b], 1);
    assert FirstRuleFrom([a], R, 0).None?;
    NormalizeDone(FromOperator(a), R, 1);
  }

  /** Once a pattern with coefficient 0 matches, the rescaling divides by 0 and simplifying
      fails, whatever the fuel. */
  lemma ZeroPatternMatched(a: Operator, x: Monomial, fuel: nat)
    ensures Normalize(Word(a, a), [(Monomial([a], 0.0), x)], fuel).None?
  {
    var R := [(Monomial([a], 0.0), x)];
    assert [a, a][0..1] == [a];
    WordMatchesPointwise([a], [a]);
    assert MatchesAt([a, a], [a], 0);
    assert FirstRuleFrom([a, a], R, 0) == Some(0);
  }
}
