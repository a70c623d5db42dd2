# ncpolynomials in Dafny

A model of the core of `ncpolynomials`. This is a small engine for noncommutative
polynomials over the operators of a *-algebra. It has three parts:

* **The value algebra and rewriting** (`polynomials.py`).
  * Operators carry a name, a `hermitian` flag and an `adjoint` flag.
  * Monomials are ordered words of operators times a coefficient.
  * Polynomials are unmerged lists of monomials.
  * `Monomial.apply_substitution` rewrites the leftmost matching window of a word.
  * `Monomial.simplify` applies a substitution mapping until no rule applies.
  * `Polynomial.simplify` normalizes every term, merges like terms and drops zero terms.
* **The basis utilities** (`simplification_utils.py`):
  * base-b digit strings;
  * flattening of nested lists;
  * operator generation;
  * selection by degree;
  * grouping by structural match;
  * the enumeration of all words up to a degree, with their simplified, deduplicated forms.
* **The rule builder for projective measurements** (`quantum_utils.py`).
  * It generates each party's projectors.
  * It builds the ordered substitution mapping that makes the projectors idempotent,
    pairwise orthogonal within a measurement, and commuting across parties.

## Layout

Data:

* `operators.dfy` (`Operators`): the operator datatype and the mutable `OperatorObject`.
* `monomials.dfy` (`Monomials`): words and their algebra.
* `polynomials.dfy` (`Polynomials`): the list algebra of sums.

Rewriting:

* `substitution.dfy` (`Substitution`): the rewrite engine.
  * It holds the value functions `Substitute` and `Normalize`.
  * It holds the mutable `MonomialObject`, whose `ApplySubstitution` and `Simplify` are
    loops proved to compute those functions.
* `unique.dfy` (`Grouping`): `unique_monomials`. This is a fold `Unique`, with its
  invariants, and the loop `UniqueMonomials` proved to compute it.
* `simplify.dfy` (`PolynomialSimplify`): `Polynomial.simplify`, as a function and as the
  mutable `PolynomialObject`.

Basis utilities:

* `digits.dfy` (`Digits`): `num2base` and `gen_indexing`.
* `decimal.dfy` (`Decimal`): `str(k)` for naturals, used in operator names.
* `flatten.dfy` (`Flatten`): `flatten`.
* `basis.dfy` (`Basis`):
  * `generate_operators`, `pick_monomials_of_degree`, `get_monomials` and
    `get_all_unique_monomials`;
  * the free-monoid ball and its size and distinctness.

Rule builder:

* `measurements.dfy` (`Measurements`): `generate_measurements`.
* `dict.dfy` (`RuleDict`): the substitution dictionary.
  * It is an ordered list of `(key, value)` pairs with Python assignment semantics.
  * Keys are compared with monomial `==`.
  * An existing key keeps its place and gets the new value.
  * A new key is appended.
* `constraints.dfy` (`Projective`): `projective_measurement_constraints`.
  * Its loops are proved to build `Constraints(parties)`.
  * That value is the list of assignments the loops make, applied in order.
* `constraint_facts.dfy` (`ProjectiveFacts`): what the mapping says.
  * The rules of idempotency, orthogonality and commutation.
  * Every key is a product of two projectors.
  * The first-nest rules come before all commutation rules.

Worked case: `scenario.dfy` (`Scenario`) simplifies `(a + b) * (a + b)` under the rules
of two projectors of one measurement.

Helpers: `options.dfy` (`Options`) and `lists.dfy` (`Lists`).

## Conventions

* Coefficients are `real`. Complex conjugation is therefore the identity.
* A scalar `c` as a monomial is `Monomial([], c)`. This includes the `0` that the
  orthogonality rules store, written `ZeroScalar()`.
* The substitution mapping is a `seq<(Monomial, Monomial)>` in insertion order.
* `Monomial.simplify` takes a `fuel` bound on the number of substitutions. The functions
  return `None` when the fuel runs out.
* They also return `None` where the source raises `ZeroDivisionError`. That happens when a
  rule whose pattern has coefficient 0 matches, because the rescaling divides by it.
* Under `{A0*A0: A0, A0*A1: 0, A1*A0: 0}`, `(A0 + A1) * (A0 + A1)` simplifies to
  `A0 + A1*A1`, because no rule rewrites `A1*A1` (`Scenario.SquareOfSum`, for any two
  different operators in place of `A0` and `A1`).

## Model

| member | source | states |
|---|---|---|
| Operators.Same | ncpolynomials/polynomials.py:42-46 | operator equality holds exactly when name and adjoint flag agree |
| Operators.SameIgnoresHermitian | ncpolynomials/polynomials.py:42-46 | operators differing only in `hermitian` are equal |
| Operators.SameEquivalence | ncpolynomials/polynomials.py:42-46 | operator equality is reflexive, symmetric and transitive |
| Operators.Adj | ncpolynomials/polynomials.py:91-95 | the copy keeps name and hermitian flag; the adjoint flag flips exactly for non-hermitian operators, so the result equals the input iff it is hermitian |
| Operators.AdjInvolutive | ncpolynomials/polynomials.py:91-95 | `adj(adj(x)) == x` |
| Operators.Canonical | ncpolynomials/polynomials.py:97-101 | the adjoint flag is cleared only for a hermitian adjoint operator; every other operator is unchanged |
| Operators.CanonicalIdempotent | ncpolynomials/polynomials.py:91-101 | simplifying twice equals simplifying once, and simplify commutes with adj |
| Operators.OperatorObject.constructor | ncpolynomials/polynomials.py:29-37 | the new object holds a copy of the given operator |
| Operators.OperatorObject.Simplify | ncpolynomials/polynomials.py:97-101 | the object's new state is the canonical form of the old one, and simplify returns it |
| Monomials.Identity | ncpolynomials/polynomials.py:123 | `Monomial([])`: the empty word with coefficient 1; its properties are `Monomials.MulIdentity` and `Monomials.ScalarsMultiply` (it is `Monomial(1)`) |
| Monomials.FromScalar | ncpolynomials/polynomials.py:130-132 | `Monomial(c)` for a number: the empty word with coefficient c; its properties are `Monomials.ScalarsMultiply` and `Monomials.ScaleCommutes` |
| Monomials.FromOperator | ncpolynomials/polynomials.py:124-126 | `Monomial(x)` for an operator: the one-letter word with coefficient 1; its properties are `Monomials.HermitianLetter`, `Monomials.OperatorNegIsNeg` and `Basis.LetterMatches` |
| Monomials.Degree | ncpolynomials/polynomials.py:221-223 | `degree` (and `len`, polynomials.py:137-138) is the number of factors; its property is `Monomials.DegreeMul` |
| Monomials.WordMatchesPointwise | ncpolynomials/polynomials.py:184-198 | the comparison loop accepts exactly the equal-length words that agree operator by operator |
| Monomials.Equal | ncpolynomials/polynomials.py:144-153 | `==` is structural match plus equal coefficients |
| Monomials.Matches | ncpolynomials/polynomials.py:184-198 | `%` compares the words only; its properties are `Monomials.WordMatchesPointwise` and `Monomials.MatchesEquivalence` |
| Monomials.MatchesEquivalence | ncpolynomials/polynomials.py:184-198 | `%` is an equivalence relation |
| Monomials.MulIdentity | ncpolynomials/polynomials.py:155-161 | `Monomial([])` is a two-sided unit of multiplication, as a value and under `==` |
| Monomials.Mul | ncpolynomials/polynomials.py:155-161 | the product concatenates the words and multiplies the coefficients; its properties are `Monomials.MulIdentity`, `Monomials.MulAssociative` and `Monomials.AdjMul` |
| Monomials.MulAssociative | ncpolynomials/polynomials.py:155-161 | multiplication (concatenation of words, product of coefficients) is associative |
| Monomials.Scale | ncpolynomials/polynomials.py:155-157 | `m * c` for a number c promotes c to `Monomial(c)`; its properties are `Monomials.ScaleKeepsWord` and `Monomials.ScaleCommutes` |
| Monomials.ScalarsMultiply | ncpolynomials/polynomials.py:155-161 | numbers promoted to monomials multiply as numbers; `Monomial([])` is `Monomial(1)` and has degree 0 |
| Monomials.ScaleCommutes | ncpolynomials/polynomials.py:166-168 | `c * m` (`__rmul__`, returning `m * c`) equals `Monomial(c) * m` |
| Monomials.ScaleKeepsWord | ncpolynomials/polynomials.py:155-157 | multiplying by a number keeps the word and scales the coefficient |
| Monomials.Adj | ncpolynomials/polynomials.py:230-239 | same length and coefficient; position i holds the adjoint of factor n-1-i (its properties are `Monomials.AdjInvolutive` and `Monomials.AdjMul`) |
| Monomials.AdjInvolutive | ncpolynomials/polynomials.py:230-239 | applying adj twice gives back the monomial, which is therefore `==`-equal |
| Monomials.AdjMul | ncpolynomials/polynomials.py:230-239 | the adjoint of a product is the product of the adjoints in reverse order |
| Monomials.Neg | ncpolynomials/polynomials.py:181-182 | `-m` keeps the word and negates the coefficient; it is lifted termwise by `Polynomials.Neg`, whose properties are `Polynomials.NegInvolutive` and `Polynomials.NegCoefficient` |
| Monomials.IsHermitian | ncpolynomials/polynomials.py:225-228 | `m.hermitian` is `m % m.adj()`; its properties are `Monomials.HermitianLetter`, `Monomials.AdjHermitian` and `Monomials.ProductWithAdjointHermitian` |
| Monomials.HermitianLetter | ncpolynomials/polynomials.py:225-228 | a one-letter monomial is hermitian exactly when its operator is |
| Monomials.AdjHermitian | ncpolynomials/polynomials.py:225-239 | a monomial is hermitian exactly when its adjoint is |
| Monomials.ProductWithAdjointHermitian | ncpolynomials/polynomials.py:225-239 | every product `m * m.adj()` is hermitian |
| Monomials.DegreeMul | ncpolynomials/polynomials.py:221-223 | the degree of a product is the sum of the degrees, and the adjoint keeps the degree |
| Monomials.OperatorProduct | ncpolynomials/polynomials.py:48-49 | `x * y` for operators promotes both to monomials and multiplies; its property is `Monomials.OperatorProductWord` |
| Monomials.OperatorProductWord | ncpolynomials/polynomials.py:48-49 | `x * y` is the word `x y` with coefficient 1, and it matches `y * x` iff the operators are equal |
| Monomials.OperatorNeg | ncpolynomials/polynomials.py:62-63 | `-x` is `Monomial([x], -1)`; its property is `Monomials.OperatorNegIsNeg` |
| Monomials.OperatorNegIsNeg | ncpolynomials/polynomials.py:62-63 | `-x` equals `-Monomial(x)` and has the same word as `Monomial(x)` |
| Polynomials.FromMonomial | ncpolynomials/polynomials.py:308-309 | `Polynomial(x)` for a number, operator or monomial: the one-term list; its property is `Polynomials.FromMonomialCoefficient` |
| Polynomials.FromMonomialCoefficient | ncpolynomials/polynomials.py:308-309 | `Polynomial(m)` has one term, and its coefficient in the class of `m` is `m`'s coefficient |
| Polynomials.Zero | ncpolynomials/polynomials.py:307 | `Polynomial()`: the empty sum; its property is `Polynomials.AddZero` |
| Polynomials.AddZero | ncpolynomials/polynomials.py:334-338 | `Polynomial()` is a two-sided unit of `+`, and `iszero` holds for it |
| Polynomials.Neg | ncpolynomials/polynomials.py:366-367 | same length, every term negated in place order (its properties are `Polynomials.NegInvolutive` and `Polynomials.NegCoefficient`) |
| Polynomials.NegInvolutive | ncpolynomials/polynomials.py:366-367 | negating twice gives back the polynomial |
| Polynomials.NegCoefficient | ncpolynomials/polynomials.py:366-367 | negation negates the coefficient of every match class |
| Polynomials.Add | ncpolynomials/polynomials.py:334-338 | `p + q` lists p's terms then q's; its properties are `Polynomials.AddCoefficient` and `Polynomials.ClassSumConcat` |
| Polynomials.AddCoefficient | ncpolynomials/polynomials.py:334-338 | `len(p+q) = len(p)+len(q)`, p's terms first then q's, and class coefficients add |
| Polynomials.ClassSumConcat | ncpolynomials/polynomials.py:334-338 | the class coefficient of a concatenation is the sum of the parts' |
| Polynomials.Sub | ncpolynomials/polynomials.py:344-345 | `p - q` is `p + (-q)`; its property is `Polynomials.SubSelf` |
| Polynomials.SubSelf | ncpolynomials/polynomials.py:344-345 | `p - p` keeps all `2 len(p)` terms but every class coefficient is 0 |
| Polynomials.Row | ncpolynomials/polynomials.py:349-354 | one row of the product: `a * q[j]` at position j |
| Polynomials.ProductLength | ncpolynomials/polynomials.py:349-354 | `len(p*q) = len(p)*len(q)` |
| Polynomials.Mul | ncpolynomials/polynomials.py:349-354 | `p * q` has the pairwise products in `itertools.product` order; its properties are `Polynomials.ProductLength`, `Polynomials.ProductAt`, `Polynomials.MulDistributes` and `Polynomials.MulUnit` |
| Polynomials.ProductAt | ncpolynomials/polynomials.py:349-354 | term `i*len(q)+j` of `p*q` is `p[i]*q[j]` (itertools.product order) |
| Polynomials.ProductConcat | ncpolynomials/polynomials.py:349-354 | the product distributes over concatenation of the left factor's terms |
| Polynomials.MulDistributes | ncpolynomials/polynomials.py:349-354 | `(p1 + p2) * q == p1*q + p2*q` as term lists |
| Polynomials.MulUnit | ncpolynomials/polynomials.py:349-354 | the one-term identity polynomial is a two-sided unit |
| Polynomials.Adj | ncpolynomials/polynomials.py:384-385 | same length, term i is the adjoint of term i (its properties are `Polynomials.AdjInvolutive` and `Polynomials.AdjAdd`) |
| Polynomials.AdjInvolutive | ncpolynomials/polynomials.py:384-385 | adj is an involution on polynomials |
| Polynomials.AdjAdd | ncpolynomials/polynomials.py:384-385 | the adjoint of a sum is the sum of the adjoints |
| Polynomials.Degree | ncpolynomials/polynomials.py:380-382 | the degree bounds every term's degree and is attained by some term |
| Polynomials.EqualFromPointwise | ncpolynomials/polynomials.py:322-332 | the comparison loop answers whether every remaining position is `==`-equal |
| Polynomials.Equal | ncpolynomials/polynomials.py:322-332 | `p == q` as the source's comparison loop; its properties are `Polynomials.EqualIff` and `Polynomials.EqualCoefficient` |
| Polynomials.EqualIff | ncpolynomials/polynomials.py:322-332 | `p == q` iff equal lengths and position-wise `==`-equal terms |
| Polynomials.ClassSumPointwise | ncpolynomials/polynomials.py:322-332 | position-wise `==`-equal lists have the same class coefficients |
| Polynomials.EqualCoefficient | ncpolynomials/polynomials.py:322-332 | `==`-equal polynomials have the same coefficient in every class |
| Polynomials.IsZero | ncpolynomials/polynomials.py:403-410 | `iszero` counts the coefficients above `1e-10`; its property is `Polynomials.IsZeroIff` |
| Polynomials.IsZeroIff | ncpolynomials/polynomials.py:403-410 | `iszero` iff every coefficient has absolute value at most `1e-10` |
| Substitution.FindFrom | ncpolynomials/polynomials.py:249-251 | the window scan returns the first matching window at or after k, or reports that none matches |
| Substitution.FirstMatch | ncpolynomials/polynomials.py:249-251 | the leftmost matching window; none exactly when the pattern does not occur |
| Substitution.EmptyPatternOccurs | ncpolynomials/polynomials.py:249-251 | the empty pattern occurs in every word |
| Substitution.Substitute | ncpolynomials/polynomials.py:241-261 | fails iff the pattern does not occur; on success the length is `len(self)-len(old)+len(new)` and the coefficient `coef*new.coef/old.coef` |
| Substitution.SubstituteSplice | ncpolynomials/polynomials.py:250-255 | on success the word is the prefix before the leftmost match, the replacement, then the suffix after the window |
| Substitution.SubstituteAt | ncpolynomials/polynomials.py:250-258 | substitution at a known leftmost window gives that splice and rescaled coefficient |
| Substitution.FirstRuleFrom | ncpolynomials/polynomials.py:270-276 | the first rule from index i on whose pattern occurs, or none when no later rule applies |
| Substitution.ClearZero | ncpolynomials/polynomials.py:278-280 | a zero coefficient loses its word; its properties are `Substitution.ClearZeroNormal` and `Substitution.NormalizeZero` |
| Substitution.ClearZeroNormal | ncpolynomials/polynomials.py:278-280 | clearing the word of a zero monomial leaves a normal form |
| Substitution.Normalize | ncpolynomials/polynomials.py:263-281 | a result that is reached is normal: a zero coefficient has an empty word, and otherwise no rule pattern occurs in the word |
| Substitution.NormalizeStep | ncpolynomials/polynomials.py:249-258 | when the first rule that applies has pattern coefficient 0 the result is `None` (the division raises); otherwise simplifying is simplifying the substituted monomial with one unit of fuel less |
| Substitution.FirstMatchAt | ncpolynomials/polynomials.py:250-251 | a matching window with no matching window before it is the one the scan finds first |
| Substitution.NormalFixedPoint | ncpolynomials/polynomials.py:263-281 | a normal monomial is returned unchanged |
| Substitution.NormalizeIdempotent | ncpolynomials/polynomials.py:263-281 | simplifying a simplified monomial changes nothing |
| Substitution.NormalizeFuelMonotone | ncpolynomials/polynomials.py:263-281 | more fuel never changes a result that was reached |
| Substitution.NormalizeZero | ncpolynomials/polynomials.py:278-280 | a zero monomial simplifies to the canonical zero `Monomial([], 0)` |
| Substitution.MonomialObject.constructor | ncpolynomials/polynomials.py:127-129 | the new object holds a copy of the given monomial |
| Substitution.MonomialObject.Splice | ncpolynomials/polynomials.py:250-258 | at the leftmost matching window it succeeds iff the pattern coefficient is nonzero; then the new state is the `Substitute` result (the window replaced by the new word, the coefficient rescaled), otherwise the new word is in place and the coefficient is unchanged |
| Substitution.MonomialObject.ApplySubstitution | ncpolynomials/polynomials.py:241-261 | `Some(true)` iff the pattern occurs and its coefficient is nonzero, with the object then holding the substituted monomial; `None` (ZeroDivisionError) iff it occurs with coefficient 0, leaving the spliced word and the old coefficient; `Some(false)` leaves the object unchanged |
| Substitution.MonomialObject.Simplify | ncpolynomials/polynomials.py:263-281 | the recursive rule loop returns `Normalize` of the old value (including `None` for a division by 0), and on success the object holds that value |
| Grouping.AppendWhere | ncpolynomials/simplification_utils.py:105-109 | the inner loop appends j to exactly the groups whose representative matches |
| Grouping.Unique | ncpolynomials/simplification_utils.py:92-115 | as many groups as representatives; groups are nonempty and hold indexes of the list |
| Grouping.NoMatchIsNew | ncpolynomials/simplification_utils.py:111-113 | an element matching no representative of a covering grouping matches no element of the list, in either order |
| Grouping.StepShape | ncpolynomials/simplification_utils.py:102-113 | one outer step keeps every group nonempty, in range and headed by its representative |
| Grouping.StepOrder | ncpolynomials/simplification_utils.py:102-113 | one outer step keeps groups ascending and representatives in first-seen order |
| Grouping.StepMembership | ncpolynomials/simplification_utils.py:102-113 | one outer step keeps "j is in group i iff L[j] matches representative i" |
| Grouping.StepDistinctCovers | ncpolynomials/simplification_utils.py:102-113 | one outer step keeps representatives pairwise distinct and covering every element |
| Grouping.UniqueWellGrouped | ncpolynomials/simplification_utils.py:92-115 | representatives pairwise distinct, in first-seen order, `umonos[i] = L[idx[i][0]]`, groups ascending, membership iff match, every element covered |
| Grouping.Partition | ncpolynomials/simplification_utils.py:92-115 | every index lies in exactly one group |
| Grouping.RepresentativeFirst | ncpolynomials/simplification_utils.py:102-113 | no element before a representative's first index matches it |
| Grouping.ClassSumNone | ncpolynomials/polynomials.py:397 | a class no element belongs to has coefficient 0 |
| Grouping.ClassSumCongruent | ncpolynomials/polynomials.py:397 | matching monomials have the same class coefficient |
| Grouping.GroupSumStep | ncpolynomials/polynomials.py:396-397 | after one more element, each group still sums to its class coefficient |
| Grouping.GroupSums | ncpolynomials/polynomials.py:396-397 | the sum `Polynomial.simplify` forms over group i is the coefficient of representative i's class |
| Grouping.UniqueOfDistinct | ncpolynomials/simplification_utils.py:92-115 | a pairwise distinct list is its own representatives, one singleton group each |
| Grouping.JoinMatching | ncpolynomials/simplification_utils.py:104-109 | the inner loop reports whether some representative matches, and appends the index to exactly the matching groups |
| Grouping.UniqueMonomials | ncpolynomials/simplification_utils.py:92-115 | the nested loops return exactly `Unique(L)` |
| PolynomialSimplify.NormalizeAll | ncpolynomials/polynomials.py:393 | on success term i is the simplified term i; fails iff some term's simplification fails (its fuel runs out or it divides by a zero pattern coefficient) |
| PolynomialSimplify.NormalizeAllFixed | ncpolynomials/polynomials.py:393 | terms already in normal form are left as they are |
| PolynomialSimplify.Merge | ncpolynomials/polynomials.py:396-397 | one merged term per group |
| PolynomialSimplify.MergeAt | ncpolynomials/polynomials.py:397 | merged term i has representative i's word and its class coefficient |
| PolynomialSimplify.MergeDistinct | ncpolynomials/polynomials.py:396-397 | merged terms pairwise do not match |
| PolynomialSimplify.ClassSumSingle | ncpolynomials/polynomials.py:397 | in a list where only one position matches x, x's class coefficient is that position's coefficient |
| PolynomialSimplify.MergeCoefficient | ncpolynomials/polynomials.py:396-397 | merging keeps every class coefficient |
| PolynomialSimplify.MergeFirstSeen | ncpolynomials/polynomials.py:396-397 | merged classes come in the order their first elements appear |
| PolynomialSimplify.MergeOfDistinct | ncpolynomials/polynomials.py:396-397 | a pairwise distinct list is its own merge |
| PolynomialSimplify.DropZeros | ncpolynomials/polynomials.py:399 | no kept term has coefficient 0 |
| PolynomialSimplify.DropZerosKept | ncpolynomials/polynomials.py:399 | the result is the subsequence at the ascending positions of the nonzero terms |
| PolynomialSimplify.DropZerosComplete | ncpolynomials/polynomials.py:399 | every term with nonzero coefficient is kept |
| PolynomialSimplify.DropZerosCoefficient | ncpolynomials/polynomials.py:399 | dropping zero terms keeps every class coefficient |
| PolynomialSimplify.DropZerosOrder | ncpolynomials/polynomials.py:399 | kept terms keep their relative order |
| PolynomialSimplify.DropZerosFrom | ncpolynomials/polynomials.py:399 | every kept term is a term of the input |
| PolynomialSimplify.DropZerosNoop | ncpolynomials/polynomials.py:399 | a list without zero coefficients is unchanged |
| PolynomialSimplify.DropZerosDistinct | ncpolynomials/polynomials.py:399 | dropping keeps a pairwise distinct list pairwise distinct |
| PolynomialSimplify.SimplifyPoly | ncpolynomials/polynomials.py:387-401 | `p.simplify(subs)` on values: simplify every term, merge like terms, drop zeros; its properties are `PolynomialSimplify.SimplifyResult`, `PolynomialSimplify.SimplifyFirstSeen` and `PolynomialSimplify.SimplifyIdempotent` |
| PolynomialSimplify.SimplifyResult | ncpolynomials/polynomials.py:387-401 | result terms pairwise do not match, none has coefficient 0, each is in normal form, and each class coefficient equals that of the normalized terms |
| PolynomialSimplify.SimplifyFirstSeen | ncpolynomials/polynomials.py:396-401 | result classes appear in first-occurrence order of the normalized terms |
| PolynomialSimplify.SimplifyIdempotent | ncpolynomials/polynomials.py:387-401 | simplifying a simplified polynomial changes nothing |
| PolynomialSimplify.PolynomialObject.constructor | ncpolynomials/polynomials.py:310-311 | the new object holds a copy of the given polynomial |
| PolynomialSimplify.PolynomialObject.SimplifyEach | ncpolynomials/polynomials.py:393 | the loop over the terms returns `NormalizeAll` of them |
| PolynomialSimplify.PolynomialObject.Simplify | ncpolynomials/polynomials.py:387-401 | the three reassignments leave `SimplifyPoly` of the old value, which is returned |
| Lists.Reverse | ncpolynomials/simplification_utils.py:31 | same length, position i holds element n-1-i |
| Digits.Zeros | ncpolynomials/simplification_utils.py:25 | `k` entries, all 0 |
| Digits.LoopDigits | ncpolynomials/simplification_utils.py:27-30 | the digits the `while n` loop appends, least significant first; its properties are `Digits.LoopDigitsValue`, `Digits.LoopDigitsBelow` and `Digits.LoopDigitsLength` |
| Digits.LoopDigitsStep | ncpolynomials/simplification_utils.py:28-30 | one turn of the `while` loop appends `n % b` and continues with `n // b`, which is smaller |
| Digits.LoopDigitsValue | ncpolynomials/simplification_utils.py:28-31 | the reversed loop digits have base-b value n |
| Digits.LoopDigitsBelow | ncpolynomials/simplification_utils.py:28-30 | every loop digit is below b |
| Digits.LoopDigitsLength | ncpolynomials/simplification_utils.py:28-33 | for `n < b^d` the loop needs at most d digits, so padding never truncates |
| Digits.ValueZeros | ncpolynomials/simplification_utils.py:32-33 | left padding with zeros keeps the value |
| Digits.PadDigits | ncpolynomials/simplification_utils.py:32-33 | padding yields exactly d digits, all below b |
| Digits.CollectDigits | ncpolynomials/simplification_utils.py:27-30 | the `while n` loop appends exactly the loop digits of n, least significant first |
| Digits.Num2Base | ncpolynomials/simplification_utils.py:23-34 | the loop, reversal and padding compute `ToBase(n, b, d)`; `num2base(0, b, d)` is d zeros |
| Digits.ToBase | ncpolynomials/simplification_utils.py:23-34 | `num2base(n, b, d)` on values; its properties are `Digits.ToBaseCorrect` and `Digits.ValueInjective` |
| Digits.ToBaseCorrect | ncpolynomials/simplification_utils.py:23-34 | for `b >= 2` and `n < b^d`: exactly d digits, each below b, with big-endian value n |
| Digits.ValueInjective | ncpolynomials/simplification_utils.py:36-39 | equal-length digit strings below b with equal value are equal |
| Digits.GenIndexing | ncpolynomials/simplification_utils.py:36-39 | exactly `b^d` entries |
| Digits.GenIndexingEntries | ncpolynomials/simplification_utils.py:36-39 | entry n has d digits below b and value n, and entries are pairwise different |
| Digits.GenIndexingComplete | ncpolynomials/simplification_utils.py:36-39 | every d-digit string below b occurs, at the position of its value |
| Decimal.DigitChar | ncpolynomials/simplification_utils.py:46 | the character is a decimal digit with value k |
| Decimal.NatToString | ncpolynomials/simplification_utils.py:46 | `str(k)` is a nonempty string of decimal digits |
| Decimal.ParseNatToString | ncpolynomials/simplification_utils.py:46 | `int(str(k)) == k` |
| Decimal.NatToStringInjective | ncpolynomials/simplification_utils.py:46 | different numbers have different numerals |
| Decimal.NatToStringLength | ncpolynomials/simplification_utils.py:46 | `str(k)` has one character exactly when `k < 10` |
| Flatten.FlattenList | ncpolynomials/simplification_utils.py:7-21 | the loop returns the leaves of the nested input, skipping `None` and empty sublists |
| Flatten.LeavesSnoc | ncpolynomials/simplification_utils.py:14-20 | one more element appends exactly its own leaves |
| Flatten.LeavesConcat | ncpolynomials/simplification_utils.py:7-21 | flattening distributes over concatenation, so leaves keep their left-to-right order |
| Flatten.LeavesCons | ncpolynomials/simplification_utils.py:7-21 | the first element's leaves come first |
| Flatten.LeavesPreOrder | ncpolynomials/simplification_utils.py:7-21 | the loop's result equals an independent head-first traversal |
| Flatten.FlatUnchanged | ncpolynomials/simplification_utils.py:17-18 | a list of plain leaves comes back unchanged |
| Flatten.FlattenIdempotent | ncpolynomials/simplification_utils.py:7-21 | flattening a flattened list changes nothing |
| Basis.GenerateOperators | ncpolynomials/simplification_utils.py:42-47 | `max(n, 0)` monomials; entry k is the one-letter word `name + str(k)` with coefficient 1 and the requested hermitian flag |
| Basis.GeneratedDistinct | ncpolynomials/simplification_utils.py:46 | operators generated for different k are not equal |
| Basis.LetterMatches | ncpolynomials/polynomials.py:184-198 | one-letter monomials match exactly when their operators are equal |
| Basis.GenerateOperatorsDistinct | ncpolynomials/simplification_utils.py:42-47 | the generated monomials pairwise do not match |
| Basis.PickOfDegree | ncpolynomials/simplification_utils.py:82-88 | the elements of the given degree, in order; its properties are `Basis.PickMembers`, `Basis.PickConcat` and `Basis.PickAll` |
| Basis.PickMembers | ncpolynomials/simplification_utils.py:82-88 | an element is kept iff it is in the list and has the degree |
| Basis.PickConcat | ncpolynomials/simplification_utils.py:82-88 | selection distributes over concatenation, so the original order is kept |
| Basis.PickAll | ncpolynomials/simplification_utils.py:82-88 | a list whose elements all have the degree is unchanged |
| Basis.IndexingIndexes | ncpolynomials/simplification_utils.py:60-64 | every entry of `gen_indexing(len(monoset), d)` indexes the letters |
| Basis.MultiplyOut | ncpolynomials/simplification_utils.py:62-64 | the innermost loop returns the product of the indexed letters |
| Basis.Block | ncpolynomials/simplification_utils.py:59-65 | the block for length d has `B^d` products |
| Basis.AppendBlock | ncpolynomials/simplification_utils.py:60-65 | the loop over the index strings of length d appends exactly the block for d |
| Basis.GetMonomials | ncpolynomials/simplification_utils.py:49-66 | the words of length 0 to `degree` over the letters; its properties are `Basis.BallSize`, `Basis.BlockComplete` and `Basis.GetMonomialsDistinct` |
| Basis.GetMonomialsLoop | ncpolynomials/simplification_utils.py:49-66 | the nested loops return `GetMonomials(base, degree)` |
| Basis.BallSize | ncpolynomials/simplification_utils.py:49-66 | `1 + B + ... + B^degree` monomials, the identity first |
| Basis.BallPrefix | ncpolynomials/simplification_utils.py:56-65 | the words up to a smaller length are a prefix of the words up to a larger one |
| Basis.BallAt | ncpolynomials/simplification_utils.py:58-65 | entry n of the block for length d sits right after all shorter words |
| Basis.BallBlock | ncpolynomials/simplification_utils.py:58-65 | the block for length d starts after the shorter words, and its entry n is the product along `gen_indexing(B, d)[n]` |
| Basis.BlockComplete | ncpolynomials/simplification_utils.py:58-65 | every word of d letters appears in its block, at the position of its index value |
| Basis.ProductLetters | ncpolynomials/simplification_utils.py:62-64 | a product of d letters is a word of exactly those d factors in order |
| Basis.ProductsDistinct | ncpolynomials/simplification_utils.py:59-65 | products along different index strings of equal length do not match |
| Basis.BlockDistinct | ncpolynomials/simplification_utils.py:59-65 | a block's words are pairwise distinct and all of degree d |
| Basis.DegreeMatches | ncpolynomials/polynomials.py:184-198 | matching monomials have equal degree |
| Basis.BallDistinct | ncpolynomials/simplification_utils.py:49-66 | all words up to the degree are pairwise distinct and of degree at most `degree` |
| Basis.Letters | ncpolynomials/simplification_utils.py:55 | the unique degree-1 base monomials; its property is `Basis.LettersShape` |
| Basis.LettersShape | ncpolynomials/simplification_utils.py:55 | the letters are distinct degree-1 base monomials |
| Basis.GetMonomialsDistinct | ncpolynomials/simplification_utils.py:49-66 | `get_monomials` lists no word twice |
| Basis.SimplifyEvery | ncpolynomials/simplification_utils.py:77 | simplifying each monomial in place yields `NormalizeAll` of the list |
| Basis.AllUniqueMonomials | ncpolynomials/simplification_utils.py:68-79 | enumeration, in-place simplification and grouping compute `AllUnique` |
| Basis.AllUniqueDegreeZero | ncpolynomials/simplification_utils.py:74-75 | degree 0 gives `[Monomial([])]` |
| Basis.UniqueOfNormalized | ncpolynomials/simplification_utils.py:76-79 | keeping the unique ones of simplified monomials gives a pairwise non-matching list in normal form, each element the simplification of an input, and every simplified input matching an element |
| Basis.Enumerated | ncpolynomials/simplification_utils.py:76 | `get_monomials([Monomial([])] + base, degree) + extra_monomials`; its property is `Basis.AllUniqueResult`, which states the result in terms of it |
| Basis.AllUnique | ncpolynomials/simplification_utils.py:68-79 | `get_all_unique_monomials` on values; its properties are `Basis.AllUniqueDegreeZero` and `Basis.AllUniqueResult` |
| Basis.AllUniqueResult | ncpolynomials/simplification_utils.py:76-79 | the result pairwise does not match and is in normal form; each element is the simplification of an enumerated or extra monomial, and every such simplification matches an element |
| Measurements.Measurements | ncpolynomials/quantum_utils.py:13-17 | `len(cfg)` lists; list i has `max(cfg[i]-1, 0)` entries |
| Measurements.GenerateMeasurements | ncpolynomials/quantum_utils.py:7-17 | the loop returns `Measurements(label, cfg)` |
| Measurements.ProjectorName | ncpolynomials/quantum_utils.py:15 | the name `label + str(i) + str(k)`; its properties are `Measurements.ProjectorNamesDistinct` and `Measurements.ProjectorNameCollision` |
| Measurements.Projector | ncpolynomials/quantum_utils.py:15 | the hermitian one-letter monomial named `label + str(i) + str(k)` with coefficient 1; its properties are `Measurements.MeasurementsShape` and `Measurements.MeasurementsDistinct` |
| Measurements.MeasurementsShape | ncpolynomials/quantum_utils.py:14-15 | entry k of list i is the hermitian letter `label + str(i) + str(k)` with coefficient 1 |
| Measurements.ProjectorNamesDistinct | ncpolynomials/quantum_utils.py:15 | names are distinct for different places when both input indexes or both output indexes are below 10 |
| Measurements.MeasurementsDistinct | ncpolynomials/quantum_utils.py:13-17 | proved for at most 10 inputs, or at most 10 projectors per input: a party's projectors pairwise do not match |
| Measurements.ProjectorNameCollision | ncpolynomials/quantum_utils.py:15 | output 11 of input 1 and output 1 of input 11 are both named `label + "111"` |
| Measurements.MeasurementsCollide | ncpolynomials/quantum_utils.py:13-17 | so a party with 12 inputs of enough outputs has two matching projectors |
| RuleDict.EqualEquivalence | ncpolynomials/polynomials.py:144-153 | monomial `==` is an equivalence relation |
| RuleDict.FindKey | ncpolynomials/quantum_utils.py:37 | the position of the first `==`-equal key, or none |
| RuleDict.Insert | ncpolynomials/quantum_utils.py:37 | `d[k] = v` keeps every old key in place and appends at most one new key k |
| RuleDict.Lookup | ncpolynomials/quantum_utils.py:37-40 | `d[k]`: the value of the first `==`-equal key; its properties are `RuleDict.InsertLookup`, `RuleDict.InsertAllLookup` and `RuleDict.FindKeyFirst` |
| RuleDict.InsertLookup | ncpolynomials/quantum_utils.py:37-40 | after `d[k] = v` a key equal to k maps to v and every other lookup is unchanged |
| RuleDict.InsertAll | ncpolynomials/quantum_utils.py:27-50 | the run of assignments `d[k] = v` in order; its properties are `RuleDict.InsertAllConcat`, `RuleDict.InsertAllLookup`, `RuleDict.InsertAllKeys` and `RuleDict.InsertAllFresh` |
| RuleDict.InsertAllConcat | ncpolynomials/quantum_utils.py:27-50 | two runs of assignments are one run of their concatenation |
| RuleDict.InsertAllShort | ncpolynomials/quantum_utils.py:38-40 | one and two assignments in a row |
| RuleDict.InsertAllLookup | ncpolynomials/quantum_utils.py:27-50 | if every assignment to a key equal to k stores v, and there is one, then k maps to v at the end |
| RuleDict.Keys | ncpolynomials/quantum_utils.py:27-50 | the keys in dictionary order |
| RuleDict.InsertAllKeys | ncpolynomials/quantum_utils.py:27-50 | every key afterwards was a key before or was assigned |
| RuleDict.FindKeyFirst | ncpolynomials/quantum_utils.py:37 | the lookup finds the first equal key |
| RuleDict.InsertFresh | ncpolynomials/quantum_utils.py:37 | a key equal to none of d's keys is inserted past d |
| RuleDict.InsertAllFresh | ncpolynomials/quantum_utils.py:27-50 | assignments to keys new to d leave d's entries first, followed by the new dictionary |
| Projective.AddRow | ncpolynomials/quantum_utils.py:35-40 | the innermost loop of the first nest: the pair rules of one projector against every projector of its measurement, assigned in order |
| Projective.AddMeasurement | ncpolynomials/quantum_utils.py:34-40 | the two innermost loops of the first nest: the projector-pair rules of one measurement, row after row, assigned in order |
| Projective.Constraints | ncpolynomials/quantum_utils.py:27-50 | the dictionary both loop nests build; its properties are `ProjectiveFacts.Idempotency`, `ProjectiveFacts.Orthogonality`, `ProjectiveFacts.Commutation`, `ProjectiveFacts.ConstraintKeys` and `ProjectiveFacts.WithinBeforeCross` |
| Projective.AddWithin | ncpolynomials/quantum_utils.py:32-40 | the first nest assigns `WithinRules(parties)` in order |
| Projective.AddCommute | ncpolynomials/quantum_utils.py:46-49 | the innermost loops of the second nest assign `q*p -> p*q` for every pair of two measurements |
| Projective.AddPartyPair | ncpolynomials/quantum_utils.py:44-49 | the commutation rules of two parties, assigned in order |
| Projective.AddCross | ncpolynomials/quantum_utils.py:42-49 | the second nest assigns `CrossRules(parties)` in order |
| Projective.ProjectiveMeasurementConstraints | ncpolynomials/quantum_utils.py:19-50 | `None` (IndexError at `parties[0][0][0]`) iff there is no party, the first party has no measurement or its first measurement is empty; otherwise the result is `Constraints(parties)`, both nests filling one dictionary |
| ProjectiveFacts.MeasurementMember | ncpolynomials/quantum_utils.py:34-40 | a rule of one measurement comes from a pair of its projectors, and every such pair contributes |
| ProjectiveFacts.WithinMember | ncpolynomials/quantum_utils.py:32-40 | the first nest's rules are exactly those of projector pairs in a common measurement |
| ProjectiveFacts.CommuteMember | ncpolynomials/quantum_utils.py:46-49 | the commutation rules of two measurements are exactly `q*p -> p*q` for their projectors |
| ProjectiveFacts.PartyPairMember | ncpolynomials/quantum_utils.py:44-49 | the rules of two parties are exactly those of their projector pairs |
| ProjectiveFacts.LaterMember | ncpolynomials/quantum_utils.py:43-49 | the rules for party n1 pair its projectors with those of every later party |
| ProjectiveFacts.CrossMember | ncpolynomials/quantum_utils.py:42-49 | the second nest's rules are exactly `q*p -> p*q` for p of an earlier party and q of a later one |
| ProjectiveFacts.KeyEqual | ncpolynomials/polynomials.py:144-161 | products of two unit letters are `==` exactly when the letters match in order |
| ProjectiveFacts.WithinKey | ncpolynomials/quantum_utils.py:32-40 | a first-nest rule with key `u*v` has u and v in one measurement, and stores u for u = v and 0 otherwise |
| ProjectiveFacts.CrossKey | ncpolynomials/quantum_utils.py:42-49 | a second-nest rule with key `u*v` has u in a later party than v and stores `v*u` |
| ProjectiveFacts.Idempotency | ncpolynomials/quantum_utils.py:33-37 | for every projector p the mapping sends `p*p` to p |
| ProjectiveFacts.Orthogonality | ncpolynomials/quantum_utils.py:38-40 | for different projectors p, q of one measurement the mapping sends `p*q` to 0 (and, swapping them, `q*p`) |
| ProjectiveFacts.Commutation | ncpolynomials/quantum_utils.py:42-49 | for p of party n1 and q of a later party n2 the mapping sends `q*p` to `p*q` |
| ProjectiveFacts.WithinKeyForm | ncpolynomials/quantum_utils.py:32-40 | every first-nest key is a product of two projectors of one measurement |
| ProjectiveFacts.ConstraintKeys | ncpolynomials/quantum_utils.py:27-50 | every key of the mapping is a product of two supplied projectors |
| ProjectiveFacts.WithinBeforeCross | ncpolynomials/quantum_utils.py:27-50 | the mapping lists all idempotency and orthogonality rules first, then all commutation rules |
| ProjectiveFacts.GeneratedPartiesWellFormed | ncpolynomials/quantum_utils.py:7-17 | parties made by `generate_measurements` with different one-letter labels are well formed (unit letters at pairwise non-matching places), within the digit bound above |
| Scenario.TwoLetters | ncpolynomials/polynomials.py:241-261 | a two-letter pattern occurs in a two-letter word only at position 0, exactly when both letters are equal in order |
| Scenario.ShortWordNormal | ncpolynomials/polynomials.py:263-281 | no two-letter rule applies to a word of fewer than two letters, so simplifying returns it unchanged |
| Scenario.RewriteWith | ncpolynomials/polynomials.py:241-281 | a two-letter word that is exactly the key of the first applicable rule is replaced by that rule's value |
| Scenario.NormalizeAA | ncpolynomials/polynomials.py:263-281 | `a*a` simplifies to `a` |
| Scenario.NormalizeAB | ncpolynomials/polynomials.py:263-281 | `a*b` simplifies to `0` |
| Scenario.NormalizeBA | ncpolynomials/polynomials.py:263-281 | `b*a` simplifies to `0` |
| Scenario.NormalizeBB | ncpolynomials/polynomials.py:263-281 | `b*b` matches no rule and stays `b*b` |
| Scenario.ProductsOfSum | ncpolynomials/polynomials.py:349-354 | `(a + b) * (a + b)` has the terms `a*a, a*b, b*a, b*b`, in that order |
| Scenario.NormalizeProducts | ncpolynomials/polynomials.py:393 | simplifying the four products term by term gives `a, 0, 0, b*b` |
| Scenario.GroupProducts | ncpolynomials/simplification_utils.py:102-115 | `unique_monomials` groups `a, 0, 0, b*b` as `[0], [1, 2], [3]` |
| Scenario.MergeOfProducts | ncpolynomials/polynomials.py:396-397 | collecting like terms gives `a, 0, b*b` |
| Scenario.DropZeroProduct | ncpolynomials/polynomials.py:399 | dropping zero coefficients keeps the nonzero terms in order |
| Scenario.SquareOfSum | ncpolynomials/polynomials.py:387-401 | `((a + b) * (a + b)).simplify` under `{a*a: a, a*b: 0, b*a: 0}` is `a + b*b`, and not `a + b` |
| Scenario.OneLetterAbsent | ncpolynomials/polynomials.py:249-251 | a one-letter pattern matching neither letter of a two-letter word is not found in it |
| Scenario.ZeroPatternUnmatched | ncpolynomials/polynomials.py:249-258 | under `{0*b: x, a*a: a}`, `a*a` simplifies to `a`: a zero-coefficient pattern that never matches is never divided by |
| Scenario.ZeroPatternMatched | ncpolynomials/polynomials.py:249-258 | under `{0*a: x}`, simplifying `a*a` fails (ZeroDivisionError) whatever the fuel |

## Left out

- `projective_measurement_constraints(*parties)` unwraps a single argument whose `parties[0][0][0]` is a list (quantum_utils.py:30-31). This is Python's variadic calling convention, so the model takes the list of parties directly. Its `IndexError` is modelled for that form; in the wrapped form an empty first measurement does not raise.
- Coefficients are exact reals. Complex coefficients, their conjugation in `Monomial.adj`, and floating-point rounding in `coef * new.coef / old.coef` are not modelled.
- `__repr__`, `__hash__` and `deepcopy` are not modelled. Values are immutable Dafny datatypes, and the dictionary is an ordered list compared with `==`, which the hash agrees with.
- `isinstance` dispatch and the `TypeError` setters are left to Dafny's types. Promotion of numbers and operators to monomials is the functions `FromScalar`, `FromOperator` and `Scale`.
- `__div__` (never reached in Python 3) is not modelled. Neither are the `__rmul__` paths that return `None` for non-numbers.
- Operator, monomial and polynomial `__add__`/`__sub__`/`__radd__`/`__rsub__` between mixed types all reduce to `Polynomials.Add` and `Polynomials.Sub` after promotion. Each promotion is not modelled separately.
- Substitution.Normalize: takes a fuel bound on the number of substitutions and returns `None` when it runs out. Termination of `Monomial.simplify` depends on the caller's rules. A result reached within the fuel is what the source computes, provided the source's recursion stays within Python's recursion limit (about 1000 nested `simplify` calls, polynomials.py:274); beyond that Python raises `RecursionError`, which is not modelled.
- Substitution.Normalize, PolynomialSimplify.NormalizeAll, PolynomialSimplify.SimplifyPoly, Basis.AllUnique, and the methods Substitution.MonomialObject.Simplify, PolynomialSimplify.PolynomialObject.SimplifyEach, PolynomialSimplify.PolynomialObject.Simplify, Basis.SimplifyEvery and Basis.AllUniqueMonomials: a single `None` stands for both running out of fuel and the `ZeroDivisionError` of a zero pattern coefficient; the two are not told apart. After a `None` the objects' state is not specified. In the source, the exception leaves the terms before the failing one simplified in place and the failing term spliced, while the polynomial's term list is not reassigned.
- The default arguments of `generate_operators` (simplification_utils.py:42) and `get_all_unique_monomials` (simplification_utils.py:68) are not modelled; every argument is passed explicitly.
- The `hermitian` flag is a Python int 0/1 (simplification_utils.py:46) compared with `== 1` (polynomials.py:99). The model uses a `bool`, so other integer values are not represented.
- Digits.LoopDigits, Digits.ToBase, Digits.Num2Base: require `n == 0 || b >= 2`, and `n` is a `nat`. For `n > 0`, `num2base` loops forever when `b == 1` and raises `ZeroDivisionError` when `b == 0`. For negative `n` it also loops forever, because floor division stops at -1. `gen_indexing` never calls it on these inputs.
- Polynomials.Degree: requires a nonempty polynomial, because `max([])` raises.
- `get_all_unique_monomials` simplifies the caller's `extra_monomials` objects in place. The model simplifies copies, so the caller-side mutation (aliasing) is not captured.
- The orthogonality rules store the Python integer `0`. `apply_substitution` immediately converts it to `Monomial(0)`, which is what the model stores.
- ProjectiveFacts.Idempotency, ProjectiveFacts.Orthogonality, ProjectiveFacts.Commutation, ProjectiveFacts.WithinBeforeCross: assume the parties are well formed. This means every projector is a one-letter monomial with coefficient 1, and projectors at different places do not match. Otherwise a later assignment may overwrite a rule with a different value. `GeneratedPartiesWellFormed` shows the assumption holds for parties from `generate_measurements` with different one-letter labels.
- Measurements.MeasurementsDistinct: is proved only for at most 10 inputs or at most 10 projectors per input. Beyond that, names such as `label + "111"` collide (`ProjectorNameCollision`, `MeasurementsCollide`).
- Monomial.simplify returns `Monomial(self)`. The copy is the same value, so both the return value and the mutated object are the normal form.
- The testing scripts under `testing/` are print-only demonstrations and a benchmark against another library, and are not part of this model.
