/** `Polynomial.simplify` of polynomials.py: normalize every term, merge like terms, drop
    zero terms. */
module PolynomialSimplify {
  import opened Options
  import opened Monomials
  import opened Substitution
  import opened Grouping
  import opened Polynomials

  /** Step 1, `[term.simplify(subs) for term in terms]`; None when some term's
      simplification fails (its fuel runs out or it divides by a zero pattern coefficient). */
  function NormalizeAll(ts: seq<Monomial>, rules: Rules, fuel: nat): (r: Option<seq<Monomial>>)
    ensures r.Some? ==> |r.value| == |ts|
    ensures r.Some? ==> forall i :: 0 <= i < |ts| ==> Normalize(ts[i], rules, fuel) == Some(r.value[i])
    ensures r.None? ==> exists i :: 0 <= i < |ts| && Normalize(ts[i], rules, fuel).None?
    decreases |ts|
  {
    if |ts| == 0 then Some([])
    else
      var n := |ts| - 1;
      assert forall i :: 0 <= i < n ==> ts[..n][i] == ts[i];
      match NormalizeAll(ts[..n], rules, fuel)
      case None => None
      case Some(ns) =>
        match Normalize(ts[n], rules, fuel)
        case None => None
        case Some(m) => Some(ns + [m])
  }

  /** Step 2, `[Monomial(umonos[i].terms, sum(...)) for i in range(len(idx))]`: one term per
      match class, carrying the sum of the class's coefficients. */
  function Merge(L: seq<Monomial>): (r: seq<Monomial>)
    ensures |r| == |Unique(L).idx|
  {
    var g := Unique(L);
    seq(|g.idx|, i requires 0 <= i < |g.idx| => Monomial(g.umonos[i].terms, SumAt(L, g.idx[i])))
  }

  /** Step 3, `[term for term in terms if term.coef != 0]`. */
  function DropZeros(L: seq<Monomial>): (r: seq<Monomial>)
    ensures forall a :: 0 <= a < |r| ==> r[a].coef != 0.0
  {
    if |L| == 0 then []
    else DropZeros(L[..|L| - 1]) + (if L[|L| - 1].coef != 0.0 then [L[|L| - 1]] else [])
  }

  /** `p.simplify(subs)` on values. */
  function SimplifyPoly(p: Polynomial, rules: Rules, fuel: nat): Option<Polynomial>
  {
    match NormalizeAll(p.terms, rules, fuel)
    case None => None
    case Some(ns) => Some(Polynomial(DropZeros(Merge(ns))))
  }

  // ---------------------------------------------------------------------------------------
  // Merging.

  /** Term `i` of the merge has the word of representative `i` and its class coefficient. */
  lemma MergeAt(L: seq<Monomial>, i: nat)
    requires i < |Merge(L)|
    ensures Merge(L)[i].terms == Unique(L).umonos[i].terms
    ensures Merge(L)[i].coef == ClassSum(L, Unique(L).umonos[i])
  {
    GroupSums(L);
  }

  /** The merged terms pairwise do not match. */
  lemma MergeDistinct(L: seq<Monomial>)
    ensures PairwiseDistinct(Merge(L))
  {
    var g, M := Unique(L), Merge(L);
    UniqueWellGrouped(L);
    forall i1, i2 | 0 <= i1 < |M| && 0 <= i2 < |M| && i1 != i2
      ensures !Matches(M[i1], M[i2])
    {
      assert M[i1].terms == g.umonos[i1].terms && M[i2].terms == g.umonos[i2].terms;
    }
  }

  /** A list in which only position `i0` matches `x` has the coefficient of `i0` in `x`'s class. */
  lemma {:induction false} ClassSumSingle(M: seq<Monomial>, x: Monomial, i0: nat)
    requires i0 < |M| && Matches(x, M[i0])
    requires forall i :: 0 <= i < |M| && i != i0 ==> !Matches(x, M[i])
    ensures ClassSum(M, x) == M[i0].coef
    decreases |M|
  {
    var n := |M| - 1;
    if i0 == n {
      assert forall j :: 0 <= j < n ==> M[..n][j] == M[j];
      ClassSumNone(M[..n], x);
    } else {
      assert forall j :: 0 <= j < n ==> M[..n][j] == M[j];
      ClassSumSingle(M[..n], x, i0);
    }
  }

  /** Merging keeps the coefficient of every class. */
  lemma MergeCoefficient(L: seq<Monomial>, x: Monomial)
    ensures ClassSum(Merge(L), x) == ClassSum(L, x)
  {
    var g, M := Unique(L), Merge(L);
    UniqueWellGrouped(L);
    GroupSums(L);
    if i0 :| 0 <= i0 < |M| && Matches(x, g.umonos[i0]) {
      forall i | 0 <= i < |M| && i != i0
        ensures !Matches(x, M[i])
      {
        assert M[i].terms == g.umonos[i].terms;
        MatchesEquivalence(g.umonos[i0], x, g.umonos[i]);
        MatchesEquivalence(x, g.umonos[i0], x);
      }
      assert M[i0].terms == g.umonos[i0].terms;
      ClassSumSingle(M, x, i0);
      ClassSumCongruent(L, x, g.umonos[i0]);
    } else {
      forall i | 0 <= i < |M|
        ensures !Matches(x, M[i])
      {
        assert M[i].terms == g.umonos[i].terms;
      }
      ClassSumNone(M, x);
      forall j | 0 <= j < |L|
        ensures !Matches(x, L[j])
      {
        assert AnyMatch(g.umonos, L[j]);
        var i :| 0 <= i < |g.umonos| && Matches(g.umonos[i], L[j]);
        MatchesEquivalence(x, L[j], g.umonos[i]);
        MatchesEquivalence(g.umonos[i], L[j], g.umonos[i]);
      }
      ClassSumNone(L, x);
    }
  }

  /** The merge lists the classes in the order they are first seen: before any element of the
      class of term `b` there is an element of the class of every earlier term `a`. */
  lemma MergeFirstSeen(L: seq<Monomial>, a: nat, b: nat, jb: nat)
    requires a < b < |Merge(L)| && jb < |L| && Matches(Merge(L)[b], L[jb])
    ensures exists ja :: 0 <= ja < jb && Matches(Merge(L)[a], L[ja])
  {
    var g, M := Unique(L), Merge(L);
    UniqueWellGrouped(L);
    assert M[a].terms == g.umonos[a].terms && M[b].terms == g.umonos[b].terms;
    assert jb in g.idx[b];
    assert forall k :: 0 <= k < |g.idx[b]| ==> g.idx[b][0] <= g.idx[b][k];
    var ja := g.idx[a][0];
    MatchesEquivalence(L[ja], L[ja], L[ja]);
    assert Matches(M[a], L[ja]);
  }

  /** A list whose elements pairwise do not match is its own merge. */
  lemma MergeOfDistinct(L: seq<Monomial>)
    requires PairwiseDistinct(L)
    ensures Merge(L) == L
  {
    UniqueOfDistinct(L);
    forall i | 0 <= i < |L|
      ensures Merge(L)[i] == L[i]
    {
      assert [i][..0] == [];
      assert SumAt(L, [i]) == L[i].coef;
    }
  }

  // ---------------------------------------------------------------------------------------
  // Dropping zero terms.

  /** The positions of the nonzero elements, ascending. */
  ghost function Kept(L: seq<Monomial>): seq<nat>
  {
    if |L| == 0 then []
    else Kept(L[..|L| - 1]) + (if L[|L| - 1].coef != 0.0 then [|L| - 1] else [])
  }

  /** `DropZeros(L)` is the subsequence of `L` at the ascending positions `Kept(L)`. */
  lemma {:induction false} DropZerosKept(L: seq<Monomial>)
    ensures var ks, r := Kept(L), DropZeros(L);
      && |ks| == |r|
      && (forall a :: 0 <= a < |ks| ==> ks[a] < |L| && r[a] == L[ks[a]])
      && (forall a, b :: 0 <= a < b < |ks| ==> ks[a] < ks[b])
    decreases |L|
  {
    if |L| > 0 {
      var n := |L| - 1;
      var ks', r' := Kept(L[..n]), DropZeros(L[..n]);
      var ks, r := Kept(L), DropZeros(L);
      DropZerosKept(L[..n]);
      forall a | 0 <= a < |ks'|
        ensures ks[a] == ks'[a] && ks[a] < |L| && r[a] == L[ks[a]]
      {
        assert r[a] == r'[a] && L[..n][ks'[a]] == L[ks'[a]];
      }
      if L[n].coef != 0.0 {
        assert ks[|ks'|] == n && r[|ks'|] == L[n];
      }
    }
  }

  /** Every term with a nonzero coefficient is kept. */
  lemma {:induction false} DropZerosComplete(L: seq<Monomial>, k: nat)
    requires k < |L| && L[k].coef != 0.0
    ensures L[k] in DropZeros(L)
    decreases |L|
  {
    var n := |L| - 1;
    if k < n {
      assert L[..n][k] == L[k];
      DropZerosComplete(L[..n], k);
    }
  }

  /** Dropping zero terms keeps every class coefficient. */
  lemma {:induction false} DropZerosCoefficient(L: seq<Monomial>, x: Monomial)
    ensures ClassSum(DropZeros(L), x) == ClassSum(L, x)
    decreases |L|
  {
    if |L| > 0 {
      var n := |L| - 1;
      DropZerosCoefficient(L[..n], x);
      var R, R' := DropZeros(L), DropZeros(L[..n]);
      if L[n].coef != 0.0 {
        assert R == R' + [L[n]];
        assert R[..|R| - 1] == R' && R[|R| - 1] == L[n];
      } else {
        assert R == R';
        assert ClassSum(L, x) == ClassSum(L[..n], x);
      }
    }
  }

  /** Dropping zero terms keeps the order: any two kept terms come from positions in the same
      order. */
  lemma DropZerosOrder(L: seq<Monomial>, a: nat, b: nat)
    requires a < b < |DropZeros(L)|
    ensures exists ia, ib :: 0 <= ia < ib < |L| && DropZeros(L)[a] == L[ia] && DropZeros(L)[b] == L[ib]
  {
    DropZerosKept(L);
    var ks := Kept(L);
    assert DropZeros(L)[a] == L[ks[a]] && DropZeros(L)[b] == L[ks[b]];
  }

  /** Every kept term is an element of the list. */
  lemma DropZerosFrom(L: seq<Monomial>, a: nat)
    requires a < |DropZeros(L)|
    ensures exists k :: 0 <= k < |L| && DropZeros(L)[a] == L[k]
  {
    DropZerosKept(L);
    assert DropZeros(L)[a] == L[Kept(L)[a]];
  }

  /** A list without zero coefficients is left alone. */
  lemma {:induction false} DropZerosNoop(L: seq<Monomial>)
    requires forall i :: 0 <= i < |L| ==> L[i].coef != 0.0
    ensures DropZeros(L) == L
    decreases |L|
  {
    if |L| > 0 {
      var n := |L| - 1;
      assert forall k :: 0 <= k < n ==> L[..n][k] == L[k];
      DropZerosNoop(L[..n]);
      assert L[..n] + [L[n]] == L;
    }
  }

  /** Dropping terms from a pairwise distinct list leaves it pairwise distinct. */
  lemma DropZerosDistinct(L: seq<Monomial>)
    requires PairwiseDistinct(L)
    ensures PairwiseDistinct(DropZeros(L))
  {
    var R := DropZeros(L);
    forall a, b | 0 <= a < |R| && 0 <= b < |R| && a != b
      ensures !Matches(R[a], R[b])
    {
      if a < b {
        DropZerosOrder(L, a, b);
      } else {
        DropZerosOrder(L, b, a);
      }
    }
  }

  // ---------------------------------------------------------------------------------------
  // What `Polynomial.simplify` promises.

  /** The simplified polynomial: its terms pairwise do not match, none has coefficient 0,
      every word is in normal form, and each class keeps the coefficient it has among the
      normalized terms. */
  lemma SimplifyResult(p: Polynomial, rules: Rules, fuel: nat, x: Monomial)
    requires SimplifyPoly(p, rules, fuel).Some?
    ensures var ns := NormalizeAll(p.terms, rules, fuel).value;
      var r := SimplifyPoly(p, rules, fuel).value;
      && PairwiseDistinct(r.terms)
      && (forall i :: 0 <= i < |r.terms| ==> r.terms[i].coef != 0.0 && IsNormal(r.terms[i], rules))
      && Coefficient(r, x) == ClassSum(ns, x)
  {
    var ns := NormalizeAll(p.terms, rules, fuel).value;
    var M := Merge(ns);
    var r := SimplifyPoly(p, rules, fuel).value;
    MergeDistinct(ns);
    DropZerosDistinct(M);
    forall i | 0 <= i < |r.terms|
      ensures r.terms[i].coef != 0.0 && IsNormal(r.terms[i], rules)
    {
      DropZerosFrom(M, i);
      var k :| 0 <= k < |M| && M[k] == r.terms[i];
      var g := Unique(ns);
      UniqueWellGrouped(ns);
      assert M[k].terms == ns[g.idx[k][0]].terms;
      assert IsNormal(ns[g.idx[k][0]], rules);
    }
    DropZerosCoefficient(M, x);
    MergeCoefficient(ns, x);
  }

  /** The classes of the result appear in the order their first normalized term appears. */
  lemma SimplifyFirstSeen(p: Polynomial, rules: Rules, fuel: nat, a: nat, b: nat, jb: nat)
    requires SimplifyPoly(p, rules, fuel).Some?
    requires var r := SimplifyPoly(p, rules, fuel).value;
      var ns := NormalizeAll(p.terms, rules, fuel).value;
      a < b < |r.terms| && jb < |ns| && Matches(r.terms[b], ns[jb])
    ensures var r := SimplifyPoly(p, rules, fuel).value;
      var ns := NormalizeAll(p.terms, rules, fuel).value;
      exists ja :: 0 <= ja < jb && Matches(r.terms[a], ns[ja])
  {
    var ns := NormalizeAll(p.terms, rules, fuel).value;
    var M := Merge(ns);
    DropZerosOrder(M, a, b);
    var ia, ib :| 0 <= ia < ib < |M| && DropZeros(M)[a] == M[ia] && DropZeros(M)[b] == M[ib];
    MergeFirstSeen(ns, ia, ib, jb);
  }

  /** A polynomial whose terms are all in normal form normalizes to itself. */
  lemma NormalizeAllFixed(ts: seq<Monomial>, rules: Rules, fuel: nat)
    requires fuel >= 1
    requires forall i :: 0 <= i < |ts| ==> IsNormal(ts[i], rules)
    ensures NormalizeAll(ts, rules, fuel) == Some(ts)
  {
    forall i | 0 <= i < |ts|
      ensures Normalize(ts[i], rules, fuel) == Some(ts[i])
    {
      NormalFixedPoint(ts[i], rules, fuel);
    }
    assert NormalizeAll(ts, rules, fuel).value == ts;
  }

  /** Simplifying a simplified polynomial changes nothing. */
  lemma SimplifyIdempotent(p: Polynomial, rules: Rules, fuel: nat, fuel': nat)
    requires SimplifyPoly(p, rules, fuel).Some? && fuel' >= 1
    ensures SimplifyPoly(SimplifyPoly(p, rules, fuel).value, rules, fuel') == SimplifyPoly(p, rules, fuel)
  {
    var r := SimplifyPoly(p, rules, fuel).value;
    SimplifyResult(p, rules, fuel, Identity());
    NormalizeAllFixed(r.terms, rules, fuel');
    MergeOfDistinct(r.terms);
    DropZerosNoop(r.terms);
  }

  /** The mutable `Polynomial` object, whose `simplify` reassigns its term list. */
  class PolynomialObject {
    var terms: seq<Monomial>

    function Value(): Polynomial
      reads this
    {
      Polynomial(terms)
    }

    /** `Polynomial(p)`: a copy of `p`. */
    constructor (p: Polynomial)
      ensures Value() == p
    {
      terms := p.terms;
    }

    /** The first reassignment, `[term.simplify(subs) for term in self.terms[:]]`: each term
        is copied into a monomial object and simplified in place. */
    method SimplifyEach(rules: Rules, fuel: nat) returns (r: Option<seq<Monomial>>)
      ensures r == NormalizeAll(terms, rules, fuel)
    {
      var simplified := [];
      var k := 0;
      while k < |terms|
        invariant 0 <= k <= |terms|
        invariant NormalizeAll(terms[..k], rules, fuel) == Some(simplified)
      {
        var term := new MonomialObject(terms[k]);
        var s := term.Simplify(rules, fuel);
        if s.None? {
          return None;
        }
        assert terms[..k + 1][..k] == terms[..k];
        simplified := simplified + [s.value];
        k := k + 1;
      }
      assert terms[..|terms|] == terms;
      r := Some(simplified);
    }

    /** `simplify(subs)`: the three reassignments of the term list. Returns the value now held,
        or None if some term's simplification failed (fuel or a zero pattern coefficient). */
    method Simplify(rules: Rules, fuel: nat) returns (r: Option<Polynomial>)
      modifies this
      ensures r == SimplifyPoly(old(Value()), rules, fuel)
      ensures r.Some? ==> Value() == r.value
    {
      // every term simplified on its own
      var simplified := SimplifyEach(rules, fuel);
      if simplified.None? {
        return None;
      }
      terms := simplified.value;
      // like terms collected
      var umonos, idx := UniqueMonomials(terms);
      var ts := terms;
      terms := seq(|idx|, i requires 0 <= i < |idx| => Monomial(umonos[i].terms, SumAt(ts, idx[i])));
      assert terms == Merge(ts);
      // zero terms removed
      terms := DropZeros(terms);
      r := Some(Value());
    }
  }
}
