/** Grouping of monomials by structural match (`unique_monomials` of simplification_utils.py). */
module Grouping {
  import opened Monomials

  /** The pair `(umonos, idx)`: representatives and, per representative, the indexes of the
      list elements gathered under it. */
  datatype Groups = Groups(umonos: seq<Monomial>, idx: seq<seq<nat>>)

  /** Some representative matches `x`. */
  predicate AnyMatch(u: seq<Monomial>, x: Monomial)
  {
    exists i :: 0 <= i < |u| && Matches(u[i], x)
  }

  /** The inner loop: `j` is appended to the group of every representative matching `x`
      (the loop has no `break`). */
  function AppendWhere(u: seq<Monomial>, idx: seq<seq<nat>>, x: Monomial, j: nat): (r: seq<seq<nat>>)
    requires |u| == |idx|
    ensures |r| == |idx|
    ensures forall i :: 0 <= i < |idx| ==> r[i] == (if Matches(u[i], x) then idx[i] + [j] else idx[i])
  {
    seq(|idx|, i requires 0 <= i < |idx| => if Matches(u[i], x) then idx[i] + [j] else idx[i])
  }

  /** One pass of the outer loop, for element `x` at index `j`: join the matching groups, or
      open a new group with `x` as its representative when none matched. */
  function Step(g: Groups, x: Monomial, j: nat): Groups
    requires |g.umonos| == |g.idx|
  {
    if AnyMatch(g.umonos, x) then Groups(g.umonos, AppendWhere(g.umonos, g.idx, x, j))
    else Groups(g.umonos + [x], g.idx + [[j]])
  }

  /** `unique_monomials(L)` on values: the outer loop as a fold over the prefixes of `L`. */
  function Unique(L: seq<Monomial>): (g: Groups)
    ensures |g.umonos| == |g.idx|
    ensures forall i :: 0 <= i < |g.idx| ==> |g.idx[i]| > 0
    ensures forall i, k :: 0 <= i < |g.idx| && 0 <= k < |g.idx[i]| ==> g.idx[i][k] < |L|
  {
    if |L| == 0 then Groups([], [])
    else Step(Unique(L[..|L| - 1]), L[|L| - 1], |L| - 1)
  }

  // ---------------------------------------------------------------------------------------
  // What the grouping promises, one predicate per property.

  /** Groups are nonempty, hold indexes of `L`, and each representative is the element its
      group starts with. */
  predicate Shape(L: seq<Monomial>, g: Groups)
  {
    && |g.umonos| == |g.idx|
    && (forall i :: 0 <= i < |g.idx| ==> |g.idx[i]| > 0 && g.idx[i][0] < |L| && g.umonos[i] == L[g.idx[i][0]])
    && (forall i, k :: 0 <= i < |g.idx| && 0 <= k < |g.idx[i]| ==> g.idx[i][k] < |L|)
  }

  /** Every group lists its indexes in strictly increasing order. */
  predicate Ascending(g: Groups)
  {
    forall i, k1, k2 :: 0 <= i < |g.idx| && 0 <= k1 < k2 < |g.idx[i]| ==> g.idx[i][k1] < g.idx[i][k2]
  }

  /** Index `j` is in group `i` exactly when `L[j]` matches representative `i`. */
  predicate Membership(L: seq<Monomial>, g: Groups)
    requires |g.umonos| == |g.idx|
  {
    forall i, j :: 0 <= i < |g.idx| && 0 <= j < |L| ==> (j in g.idx[i] <==> Matches(g.umonos[i], L[j]))
  }

  /** No two elements at different positions structurally match. */
  predicate PairwiseDistinct(L: seq<Monomial>)
  {
    forall i1, i2 :: 0 <= i1 < |L| && 0 <= i2 < |L| && i1 != i2 ==> !Matches(L[i1], L[i2])
  }

  /** No two representatives match. */
  predicate Distinct(g: Groups)
  {
    PairwiseDistinct(g.umonos)
  }

  /** Every element matches some representative. */
  predicate Covers(L: seq<Monomial>, g: Groups)
  {
    forall j :: 0 <= j < |L| ==> AnyMatch(g.umonos, L[j])
  }

  /** Representatives appear in the order their classes are first seen. */
  predicate FirstSeenOrder(g: Groups)
  {
    forall i1, i2 :: 0 <= i1 < i2 < |g.idx| && |g.idx[i1]| > 0 && |g.idx[i2]| > 0 ==> g.idx[i1][0] < g.idx[i2][0]
  }

  predicate WellGrouped(L: seq<Monomial>, g: Groups)
  {
    && Shape(L, g) && Ascending(g) && Membership(L, g) && Distinct(g) && Covers(L, g)
    && FirstSeenOrder(g)
  }

  /** An element not matching any representative of a covering grouping matches no element. */
  lemma NoMatchIsNew(L: seq<Monomial>, g: Groups, x: Monomial)
    requires Covers(L, g) && !AnyMatch(g.umonos, x)
    ensures forall j :: 0 <= j < |L| ==> !Matches(x, L[j]) && !Matches(L[j], x)
  {
    forall j | 0 <= j < |L|
      ensures !Matches(x, L[j]) && !Matches(L[j], x)
    {
      var i :| 0 <= i < |g.umonos| && Matches(g.umonos[i], L[j]);
      MatchesEquivalence(g.umonos[i], L[j], x);
      MatchesEquivalence(x, L[j], g.umonos[i]);
      MatchesEquivalence(L[j], x, g.umonos[i]);
    }
  }

  /** The step keeps `Shape`. */
  lemma StepShape(L: seq<Monomial>, g: Groups)
    requires |L| > 0 && WellGrouped(L[..|L| - 1], g)
    ensures Shape(L, Step(g, L[|L| - 1], |L| - 1))
  {
    var n := |L| - 1;
    var s := Step(g, L[n], n);
    forall i | 0 <= i < |s.idx|
      ensures |s.idx[i]| > 0 && s.idx[i][0] < |L| && s.umonos[i] == L[s.idx[i][0]]
    {
      if i < |g.idx| {
        assert s.idx[i][0] == g.idx[i][0] && s.umonos[i] == g.umonos[i];
      }
    }
    forall i, k | 0 <= i < |s.idx| && 0 <= k < |s.idx[i]|
      ensures s.idx[i][k] < |L|
    {
      if i < |g.idx| && k < |g.idx[i]| {
        assert s.idx[i][k] == g.idx[i][k];
      }
    }
  }

  /** The step keeps `Ascending` and `FirstSeenOrder`. */
  lemma StepOrder(L: seq<Monomial>, g: Groups)
    requires |L| > 0 && WellGrouped(L[..|L| - 1], g)
    ensures var s := Step(g, L[|L| - 1], |L| - 1);
      Ascending(s) && FirstSeenOrder(s)
  {
    var n := |L| - 1;
    var s := Step(g, L[n], n);
    forall i, k1, k2 | 0 <= i < |s.idx| && 0 <= k1 < k2 < |s.idx[i]|
      ensures s.idx[i][k1] < s.idx[i][k2]
    {
      if i < |g.idx| {
        assert k1 < |g.idx[i]|;
        assert s.idx[i][k1] == g.idx[i][k1];
        if k2 < |g.idx[i]| {
          assert s.idx[i][k2] == g.idx[i][k2];
        } else {
          assert s.idx[i][k2] == n;
        }
      }
    }
    forall i1, i2 | 0 <= i1 < i2 < |s.idx| && |s.idx[i1]| > 0 && |s.idx[i2]| > 0
      ensures s.idx[i1][0] < s.idx[i2][0]
    {
      assert s.idx[i1][0] == g.idx[i1][0];
      if i2 < |g.idx| {
        assert s.idx[i2][0] == g.idx[i2][0];
      }
    }
  }

  /** The step keeps `Membership`. */
  lemma StepMembership(L: seq<Monomial>, g: Groups)
    requires |L| > 0 && WellGrouped(L[..|L| - 1], g)
    ensures Membership(L, Step(g, L[|L| - 1], |L| - 1))
  {
    var n := |L| - 1;
    var L' := L[..n];
    var s := Step(g, L[n], n);
    forall i, j | 0 <= i < |s.idx| && 0 <= j < |L|
      ensures j in s.idx[i] <==> Matches(s.umonos[i], L[j])
    {
      if i < |g.idx| {
        assert n !in g.idx[i];
        if j < n {
          assert L'[j] == L[j];
          assert j in s.idx[i] <==> j in g.idx[i];
        }
      } else {
        assert s.idx[i] == [n] && s.umonos[i] == L[n];
        if j < n {
          NoMatchIsNew(L', g, L[n]);
          assert L'[j] == L[j];
        } else {
          MatchesEquivalence(L[n], L[n], L[n]);
        }
      }
    }
  }

  /** The step keeps `Distinct` and `Covers`. */
  lemma StepDistinctCovers(L: seq<Monomial>, g: Groups)
    requires |L| > 0 && WellGrouped(L[..|L| - 1], g)
    ensures var s := Step(g, L[|L| - 1], |L| - 1);
      Distinct(s) && Covers(L, s)
  {
    var n := |L| - 1;
    var L' := L[..n];
    var s := Step(g, L[n], n);
    if !AnyMatch(g.umonos, L[n]) {
      forall i | 0 <= i < |g.umonos|
        ensures !Matches(g.umonos[i], L[n]) && !Matches(L[n], g.umonos[i])
      {
        MatchesEquivalence(L[n], g.umonos[i], L[n]);
      }
      MatchesEquivalence(L[n], L[n], L[n]);
      assert s.umonos[|g.umonos|] == L[n];
    }
    forall j | 0 <= j < |L|
      ensures AnyMatch(s.umonos, L[j])
    {
      if j < n {
        assert L'[j] == L[j];
        var i :| 0 <= i < |g.umonos| && Matches(g.umonos[i], L'[j]);
        assert s.umonos[i] == g.umonos[i];
      }
    }
  }

  /** The grouping `unique_monomials` returns has every promised property. */
  lemma {:induction false} UniqueWellGrouped(L: seq<Monomial>)
    ensures WellGrouped(L, Unique(L))
  {
    if |L| > 0 {
      UniqueWellGrouped(L[..|L| - 1]);
      StepShape(L, Unique(L[..|L| - 1]));
      StepOrder(L, Unique(L[..|L| - 1]));
      StepMembership(L, Unique(L[..|L| - 1]));
      StepDistinctCovers(L, Unique(L[..|L| - 1]));
    }
  }

  /** In a well-formed grouping each index of `L` lies in exactly one group, so the groups
      partition `0..|L|-1`. */
  lemma Partition(L: seq<Monomial>, g: Groups, j: nat)
    requires WellGrouped(L, g) && j < |L|
    ensures exists i :: 0 <= i < |g.idx| && j in g.idx[i]
    ensures forall i1, i2 :: 0 <= i1 < |g.idx| && 0 <= i2 < |g.idx| && j in g.idx[i1] && j in g.idx[i2] ==> i1 == i2
  {
    assert AnyMatch(g.umonos, L[j]);
    var i :| 0 <= i < |g.umonos| && Matches(g.umonos[i], L[j]);
    assert j in g.idx[i];
    forall i1, i2 | 0 <= i1 < |g.idx| && 0 <= i2 < |g.idx| && j in g.idx[i1] && j in g.idx[i2]
      ensures i1 == i2
    {
      MatchesEquivalence(g.umonos[i1], L[j], g.umonos[i2]);
      MatchesEquivalence(g.umonos[i2], L[j], g.umonos[i2]);
    }
  }

  /** A representative is the first element of its class: no earlier element matches it. */
  lemma RepresentativeFirst(L: seq<Monomial>, i: nat, j: nat)
    requires var g := Unique(L); i < |g.idx| && j < g.idx[i][0]
    ensures !Matches(Unique(L).umonos[i], L[j])
  {
    var g := Unique(L);
    UniqueWellGrouped(L);
    assert forall k :: 0 <= k < |g.idx[i]| ==> g.idx[i][0] <= g.idx[i][k];
    assert j !in g.idx[i];
  }

  // ---------------------------------------------------------------------------------------
  // Coefficient sums.

  /** The coefficient of the class of `x` in `L`: the sum of the coefficients of the elements
      matching `x`. */
  function ClassSum(L: seq<Monomial>, x: Monomial): real
  {
    if |L| == 0 then 0.0
    else ClassSum(L[..|L| - 1], x) + (if Matches(x, L[|L| - 1]) then L[|L| - 1].coef else 0.0)
  }

  /** `sum([L[j].coef for j in ix])`. */
  function SumAt(L: seq<Monomial>, ix: seq<nat>): real
    requires forall k :: 0 <= k < |ix| ==> ix[k] < |L|
  {
    if |ix| == 0 then 0.0 else SumAt(L, ix[..|ix| - 1]) + L[ix[|ix| - 1]].coef
  }

  /** Summing over indexes of a prefix does not look past the prefix. */
  lemma {:induction false} SumAtPrefix(L: seq<Monomial>, n: nat, ix: seq<nat>)
    requires n <= |L| && forall k :: 0 <= k < |ix| ==> ix[k] < n
    ensures SumAt(L, ix) == SumAt(L[..n], ix)
  {
    if |ix| > 0 {
      SumAtPrefix(L, n, ix[..|ix| - 1]);
    }
  }

  /** A class no element belongs to has coefficient 0. */
  lemma {:induction false} ClassSumNone(L: seq<Monomial>, x: Monomial)
    requires forall j :: 0 <= j < |L| ==> !Matches(x, L[j])
    ensures ClassSum(L, x) == 0.0
  {
    if |L| > 0 {
      ClassSumNone(L[..|L| - 1], x);
    }
  }

  /** Matching monomials have the same class coefficient. */
  lemma {:induction false} ClassSumCongruent(L: seq<Monomial>, x: Monomial, y: Monomial)
    requires Matches(x, y)
    ensures ClassSum(L, x) == ClassSum(L, y)
  {
    if |L| > 0 {
      ClassSumCongruent(L[..|L| - 1], x, y);
      MatchesEquivalence(x, y, L[|L| - 1]);
      MatchesEquivalence(y, x, L[|L| - 1]);
    }
  }

  /** Every group of `Unique(L)` sums to the coefficient of its class. */
  predicate GroupsSum(L: seq<Monomial>)
  {
    var g := Unique(L);
    forall i :: 0 <= i < |g.idx| ==> SumAt(L, g.idx[i]) == ClassSum(L, g.umonos[i])
  }

  /** Group `i` after the step for the last element of `L` sums to its class coefficient,
      given that this held for the groups of the prefix. */
  lemma GroupSumStep(L: seq<Monomial>, i: nat)
    requires |L| > 0 && GroupsSum(L[..|L| - 1]) && i < |Unique(L).idx|
    ensures SumAt(L, Unique(L).idx[i]) == ClassSum(L, Unique(L).umonos[i])
  {
    var n := |L| - 1;
    var L' := L[..n];
    var g' := Unique(L');
    var g := Unique(L);
    assert g == Step(g', L[n], n);
    if i < |g'.idx| {
      SumAtPrefix(L, n, g'.idx[i]);
      assert GroupsSum(L');
      assert g.umonos[i] == g'.umonos[i];
      if Matches(g'.umonos[i], L[n]) {
        assert g.idx[i] == g'.idx[i] + [n];
        assert g.idx[i][..|g.idx[i]| - 1] == g'.idx[i];
      } else {
        assert g.idx[i] == g'.idx[i];
        assert ClassSum(L, g.umonos[i]) == ClassSum(L', g.umonos[i]);
      }
    } else {
      UniqueWellGrouped(L');
      assert !AnyMatch(g'.umonos, L[n]);
      assert g.idx[i] == [n] && g.umonos[i] == L[n];
      NoMatchIsNew(L', g', L[n]);
      ClassSumNone(L', L[n]);
      MatchesEquivalence(L[n], L[n], L[n]);
      assert L[..|L| - 1] == L';
      assert ClassSum(L, L[n]) == L[n].coef;
      assert g.idx[i][..0] == [];
      assert SumAt(L, [n]) == L[n].coef;
    }
  }

  /** The sum `Polynomial.simplify` forms over group `i` is the coefficient of its class. */
  lemma {:induction false} GroupSums(L: seq<Monomial>)
    ensures GroupsSum(L)
  {
    if |L| > 0 {
      GroupSums(L[..|L| - 1]);
      forall i | 0 <= i < |Unique(L).idx|
        ensures SumAt(L, Unique(L).idx[i]) == ClassSum(L, Unique(L).umonos[i])
      {
        GroupSumStep(L, i);
      }
    }
  }

  /** The grouping of `n` elements into one group each. */
  function Singletons(n: nat): (r: seq<seq<nat>>)
    ensures |r| == n && forall i :: 0 <= i < n ==> r[i] == [i]
  {
    seq(n, i requires 0 <= i < n => [i])
  }

  /** A prefix of a pairwise distinct list is pairwise distinct. */
  lemma DistinctPrefix(L: seq<Monomial>, n: nat)
    requires PairwiseDistinct(L) && n <= |L|
    ensures PairwiseDistinct(L[..n])
  {
    assert forall i :: 0 <= i < n ==> L[..n][i] == L[i];
  }

  /** The last element of a pairwise distinct list matches no earlier one. */
  lemma DistinctLastNew(L: seq<Monomial>)
    requires PairwiseDistinct(L) && |L| > 0
    ensures !AnyMatch(L[..|L| - 1], L[|L| - 1])
  {
    var n := |L| - 1;
    assert forall i :: 0 <= i < n ==> L[..n][i] == L[i];
  }

  lemma SingletonsSnoc(n: nat)
    ensures Singletons(n) + [[n]] == Singletons(n + 1)
  {
    assert forall i :: 0 <= i < n ==> (Singletons(n) + [[n]])[i] == [i];
  }

  /** A list whose elements pairwise do not match is its own set of representatives, each in
      a group of its own. */
  lemma {:induction false} UniqueOfDistinct(L: seq<Monomial>)
    requires PairwiseDistinct(L)
    ensures Unique(L) == Groups(L, Singletons(|L|))
  {
    if |L| > 0 {
      var n := |L| - 1;
      var L' := L[..n];
      DistinctPrefix(L, n);
      UniqueOfDistinct(L');
      DistinctLastNew(L);
      assert L' + [L[n]] == L;
      SingletonsSnoc(n);
    }
  }

  /** The inner loop of `unique_monomials`: `j` joins the group of every representative
      matching `mono`, and `found` records whether there was one. */
  method JoinMatching(umonos: seq<Monomial>, idx0: seq<seq<nat>>, mono: Monomial, j: nat)
    returns (idx: seq<seq<nat>>, found: bool)
    requires |umonos| == |idx0|
    ensures found <==> AnyMatch(umonos, mono)
    ensures idx == AppendWhere(umonos, idx0, mono, j)
    ensures !found ==> idx == idx0
  {
    idx, found := idx0, false;
    var umonoInd := 0;
    while umonoInd < |umonos|
      invariant 0 <= umonoInd <= |umonos| == |idx|
      invariant found <==> exists i :: 0 <= i < umonoInd && Matches(umonos[i], mono)
      invariant forall i :: 0 <= i < umonoInd ==>
        idx[i] == (if Matches(umonos[i], mono) then idx0[i] + [j] else idx0[i])
      invariant forall i :: umonoInd <= i < |idx| ==> idx[i] == idx0[i]
    {
      if Matches(umonos[umonoInd], mono) {
        found := true;
        idx := idx[umonoInd := idx[umonoInd] + [j]];
      }
      umonoInd := umonoInd + 1;
    }
  }

  /** The fold takes one more element. */
  lemma UniqueSnoc(L: seq<Monomial>, k: nat)
    requires k < |L|
    ensures Unique(L[..k + 1]) == Step(Unique(L[..k]), L[k], k)
  {
    assert L[..k + 1][..k] == L[..k];
  }

  /** The nested loops of `unique_monomials`, proved to build `Unique(monoList)`. */
  method UniqueMonomials(monoList: seq<Monomial>) returns (umonos: seq<Monomial>, idx: seq<seq<nat>>)
    ensures Groups(umonos, idx) == Unique(monoList)
  {
    umonos, idx := [], [];
    var monoInd := 0;
    while monoInd < |monoList|
      invariant 0 <= monoInd <= |monoList|
      invariant Groups(umonos, idx) == Unique(monoList[..monoInd])
    {
      var mono := monoList[monoInd];
      UniqueSnoc(monoList, monoInd);
      var found;
      idx, found := JoinMatching(umonos, idx, mono, monoInd);
      if !found {
        umonos := umonos + [mono];
        idx := idx + [[monoInd]];
      }
      monoInd := monoInd + 1;
    }
    assert monoList[..|monoList|] == monoList;
  }
}
