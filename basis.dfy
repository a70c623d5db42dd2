/** The basis utilities of simplification_utils.py: operator generation, selection by degree,
    and the enumeration of all words up to a degree. */
module Basis {
  import opened Options
  import opened Operators
  import opened Monomials
  import opened Decimal
  import opened Digits
  import opened Grouping
  import opened Substitution
  import opened PolynomialSimplify

  // ---------------------------------------------------------------------------------------
  // generate_operators

  /** `range(n)` has `n` elements when `n` is positive and none otherwise. */
  function RangeLength(n: int): nat
  {
    if n > 0 then n else 0
  }

  /** The operator `name + str(k)` as `generate_operators` builds it (not adjoint). */
  function Generated(name: string, k: nat, hermitian: bool): Operator
  {
    Operator(name + NatToString(k), hermitian, false)
  }

  /** `generate_operators(name, n_vars, hermitian)`: one single-factor monomial with
      coefficient 1 per `k in range(n_vars)`. */
  function GenerateOperators(name: string, nVars: int, hermitian: bool): (r: seq<Monomial>)
    ensures |r| == RangeLength(nVars)
    ensures forall k :: 0 <= k < |r| ==> r[k] == Monomial([Generated(name, k, hermitian)], 1.0)
  {
    seq(RangeLength(nVars), k requires 0 <= k < RangeLength(nVars) =>
      Monomial([Generated(name, k, hermitian)], 1.0))
  }

  /** A common prefix can be cancelled. */
  lemma PrefixCancel(name: string, a: string, b: string)
    requires name + a == name + b
    ensures a == b
  {
    assert (name + a)[|name|..] == a;
    assert (name + b)[|name|..] == b;
  }

  /** Generated names differ for different indexes. */
  lemma GeneratedDistinct(name: string, k: nat, l: nat, h: bool, h': bool)
    requires k != l
    ensures !Same(Generated(name, k, h), Generated(name, l, h'))
  {
    if Generated(name, k, h).name == Generated(name, l, h').name {
      PrefixCancel(name, NatToString(k), NatToString(l));
      NatToStringInjective(k, l);
    }
  }

  /** One-letter words match exactly when their letters are equal operators. */
  lemma LetterMatches(x: Operator, c: real, y: Operator, e: real)
    ensures Matches(Monomial([x], c), Monomial([y], e)) <==> Same(x, y)
  {
    WordMatchesPointwise([x], [y]);
  }

  /** The generated operators pairwise do not structurally match. */
  lemma GenerateOperatorsDistinct(name: string, nVars: int, hermitian: bool)
    ensures PairwiseDistinct(GenerateOperators(name, nVars, hermitian))
  {
    var r := GenerateOperators(name, nVars, hermitian);
    forall i1, i2 | 0 <= i1 < |r| && 0 <= i2 < |r| && i1 != i2
      ensures !Matches(r[i1], r[i2])
    {
      GeneratedDistinct(name, i1, i2, hermitian, hermitian);
      LetterMatches(Generated(name, i1, hermitian), 1.0, Generated(name, i2, hermitian), 1.0);
    }
  }

  // ---------------------------------------------------------------------------------------
  // pick_monomials_of_degree

  /** `[mono for mono in mono_list if mono.degree == degree]`. */
  function PickOfDegree(monoList: seq<Monomial>, degree: int): seq<Monomial>
  {
    if |monoList| == 0 then []
    else
      var last := monoList[|monoList| - 1];
      PickOfDegree(monoList[..|monoList| - 1], degree) + (if Degree(last) == degree then [last] else [])
  }

  /** Exactly the elements of the given degree are kept. */
  lemma {:induction false} PickMembers(monoList: seq<Monomial>, degree: int, x: Monomial)
    ensures x in PickOfDegree(monoList, degree) <==> x in monoList && Degree(x) == degree
  {
    if |monoList| > 0 {
      var n := |monoList| - 1;
      PickMembers(monoList[..n], degree, x);
      assert monoList == monoList[..n] + [monoList[n]];
    }
  }

  /** Selection distributes over concatenation, so the original order is kept. */
  lemma {:induction false} PickConcat(a: seq<Monomial>, b: seq<Monomial>, degree: int)
    ensures PickOfDegree(a + b, degree) == PickOfDegree(a, degree) + PickOfDegree(b, degree)
    decreases |b|
  {
    if |b| == 0 {
      assert a + b == a;
    } else {
      var n := |b| - 1;
      assert (a + b)[..|a + b| - 1] == a + b[..n];
      PickConcat(a, b[..n], degree);
    }
  }

  /** A list whose elements all have the degree comes back unchanged. */
  lemma {:induction false} PickAll(monoList: seq<Monomial>, degree: int)
    requires forall i :: 0 <= i < |monoList| ==> Degree(monoList[i]) == degree
    ensures PickOfDegree(monoList, degree) == monoList
  {
    if |monoList| > 0 {
      var n := |monoList| - 1;
      PickAll(monoList[..n], degree);
      assert monoList[..n] + [monoList[n]] == monoList;
    }
  }

  // ---------------------------------------------------------------------------------------
  // get_monomials

  /** Every index names a letter. */
  predicate Indexes(ms: seq<Monomial>, index: seq<nat>)
  {
    forall k :: 0 <= k < |index| ==> index[k] < |ms|
  }

  /** `temp = id; for k in index: temp = temp * monoset[k]`. */
  function Product(ms: seq<Monomial>, index: seq<nat>): Monomial
    requires Indexes(ms, index)
  {
    if |index| == 0 then Identity()
    else Mul(Product(ms, index[..|index| - 1]), ms[index[|index| - 1]])
  }

  /** The words of length `d`: one product per entry of `gen_indexing(len(monoset), d)`. */
  function Block(ms: seq<Monomial>, d: nat): (r: seq<Monomial>)
    ensures |r| == Pow(|ms|, d)
  {
    var indexes := GenIndexing(|ms|, d);
    GenIndexingEntries(|ms|, d);
    seq(|indexes|, n requires 0 <= n < |indexes| => Product(ms, indexes[n]))
  }

  /** `[id]` followed by the blocks of lengths `1..degree`. */
  function Ball(ms: seq<Monomial>, degree: nat): seq<Monomial>
  {
    if degree == 0 then [Identity()] else Ball(ms, degree - 1) + Block(ms, degree)
  }

  /** The distinct degree-1 base monomials, `unique_monomials(pick_monomials_of_degree(base, 1))[0]`. */
  function Letters(baseMonomials: seq<Monomial>): seq<Monomial>
  {
    Unique(PickOfDegree(baseMonomials, 1)).umonos
  }

  /** `get_monomials(base_monomials, degree)` on values. */
  function GetMonomials(baseMonomials: seq<Monomial>, degree: int): seq<Monomial>
  {
    Ball(Letters(baseMonomials), RangeLength(degree))
  }

  /** Every entry of `gen_indexing(len(ms), d)` indexes the letters. */
  lemma IndexingIndexes(ms: seq<Monomial>, d: nat)
    ensures forall n :: 0 <= n < |GenIndexing(|ms|, d)| ==> Indexes(ms, GenIndexing(|ms|, d)[n])
  {
    GenIndexingEntries(|ms|, d);
  }

  /** The innermost loop of `get_monomials`, `temp = id; for k in index: temp = temp * monoset[k]`. */
  method MultiplyOut(monoset: seq<Monomial>, index: seq<nat>) returns (temp: Monomial)
    requires Indexes(monoset, index)
    ensures temp == Product(monoset, index)
  {
    temp := Identity();
    var k := 0;
    while k < |index|
      invariant 0 <= k <= |index|
      invariant temp == Product(monoset, index[..k])
    {
      assert index[..k + 1][..k] == index[..k];
      temp := Mul(temp, monoset[index[k]]);
      k := k + 1;
    }
    assert index[..k] == index;
  }

  /** The loop over `gen_indexing(len(monoset), d)`: one product per index string. */
  method AppendBlock(monos: seq<Monomial>, monoset: seq<Monomial>, d: nat) returns (r: seq<Monomial>)
    ensures r == monos + Block(monoset, d)
  {
    var indexes := GenIndexing(|monoset|, d);
    IndexingIndexes(monoset, d);
    ghost var block := Block(monoset, d);
    r := monos;
    var n := 0;
    while n < |indexes|
      invariant 0 <= n <= |indexes|
      invariant r == monos + block[..n]
    {
      var temp := MultiplyOut(monoset, indexes[n]);
      assert block[..n + 1] == block[..n] + [temp];
      r := r + [temp];
      n := n + 1;
    }
    assert block[..n] == block;
  }

  /** `get_monomials`: the nested loops appending one product per index string to `monos`. */
  method GetMonomialsLoop(baseMonomials: seq<Monomial>, degree: int) returns (monos: seq<Monomial>)
    ensures monos == GetMonomials(baseMonomials, degree)
  {
    var monoset, idx := UniqueMonomials(PickOfDegree(baseMonomials, 1));
    assert monoset == Letters(baseMonomials);
    monos := [Identity()];
    var d := 1;
    while d <= degree
      invariant 1 <= d <= RangeLength(degree) + 1
      invariant monos == Ball(monoset, d - 1)
    {
      monos := AppendBlock(monos, monoset, d);
      d := d + 1;
    }
    assert d - 1 == RangeLength(degree);
  }

  /** `1 + B + B^2 + ... + B^degree` counted without the leading 1. */
  function SumPow(b: nat, degree: nat): nat
  {
    if degree == 0 then 0 else SumPow(b, degree - 1) + Pow(b, degree)
  }

  /** `get_monomials` returns `1 + sum(B**d for d in 1..degree)` monomials, identity
      first. */
  lemma {:induction false} BallSize(ms: seq<Monomial>, degree: nat)
    ensures |Ball(ms, degree)| == 1 + SumPow(|ms|, degree)
    ensures Ball(ms, degree)[0] == Identity()
  {
    if degree > 0 {
      BallSize(ms, degree - 1);
    }
  }

  /** A ball of smaller degree is a prefix of a larger one. */
  lemma {:induction false} BallPrefix(ms: seq<Monomial>, d: nat, degree: nat)
    requires d <= degree
    ensures |Ball(ms, d)| <= |Ball(ms, degree)|
    ensures forall i :: 0 <= i < |Ball(ms, d)| ==> Ball(ms, degree)[i] == Ball(ms, d)[i]
    decreases degree
  {
    if d < degree {
      BallPrefix(ms, d, degree - 1);
      assert Ball(ms, degree) == Ball(ms, degree - 1) + Block(ms, degree);
    }
  }

  /** Entry `n` of the block for length `d` sits right after the shorter words. */
  lemma BallAt(ms: seq<Monomial>, degree: nat, d: nat, n: nat)
    requires 1 <= d <= degree && n < Pow(|ms|, d)
    ensures 1 + SumPow(|ms|, d - 1) + n < |Ball(ms, degree)|
    ensures Ball(ms, degree)[1 + SumPow(|ms|, d - 1) + n] == Block(ms, d)[n]
  {
    BallSize(ms, d - 1);
    BallPrefix(ms, d, degree);
    assert Ball(ms, d) == Ball(ms, d - 1) + Block(ms, d);
  }

  /** The block for length `d` starts right after the shorter words, and its entry `n` is the
      product along `gen_indexing(B, d)[n]`. */
  lemma BallBlock(ms: seq<Monomial>, degree: nat, d: nat, n: nat)
    requires 1 <= d <= degree && n < Pow(|ms|, d)
    ensures 1 + SumPow(|ms|, d - 1) + n < |Ball(ms, degree)|
    ensures Indexes(ms, GenIndexing(|ms|, d)[n])
    ensures Ball(ms, degree)[1 + SumPow(|ms|, d - 1) + n] == Product(ms, GenIndexing(|ms|, d)[n])
  {
    IndexingIndexes(ms, d);
    BallAt(ms, degree, d, n);
  }

  /** Every word over the letters of length `d` appears in its block, at the position its
      digits spell in base `B`. */
  lemma BlockComplete(ms: seq<Monomial>, s: seq<nat>)
    requires |ms| >= 2 && Indexes(ms, s)
    ensures Value(s, |ms|) < |Block(ms, |s|)| && Block(ms, |s|)[Value(s, |ms|)] == Product(ms, s)
  {
    GenIndexingComplete(|ms|, s);
  }

  /** Every letter has one factor. */
  predicate SingleLetters(ms: seq<Monomial>)
  {
    forall i :: 0 <= i < |ms| ==> Degree(ms[i]) == 1
  }

  /** A product of `d` letters is a word of exactly `d` factors, the letters' own, in order. */
  lemma {:induction false} ProductLetters(ms: seq<Monomial>, s: seq<nat>)
    requires SingleLetters(ms) && Indexes(ms, s)
    ensures |Product(ms, s).terms| == |s|
    ensures forall k :: 0 <= k < |s| ==> Product(ms, s).terms[k] == ms[s[k]].terms[0]
  {
    if |s| > 0 {
      var n := |s| - 1;
      assert Indexes(ms, s[..n]);
      ProductLetters(ms, s[..n]);
    }
  }

  /** Products along different index strings of the same length do not match when the
      letters pairwise do not. */
  lemma ProductsDistinct(ms: seq<Monomial>, s: seq<nat>, t: seq<nat>)
    requires SingleLetters(ms) && PairwiseDistinct(ms) && Indexes(ms, s) && Indexes(ms, t)
    requires |s| == |t| && s != t
    ensures !Matches(Product(ms, s), Product(ms, t))
  {
    var k :| 0 <= k < |s| && s[k] != t[k];
    ProductLetters(ms, s);
    ProductLetters(ms, t);
    var x, y := ms[s[k]], ms[t[k]];
    assert x.terms == [x.terms[0]] && y.terms == [y.terms[0]];
    LetterMatches(x.terms[0], x.coef, y.terms[0], y.coef);
    assert !Same(x.terms[0], y.terms[0]);
    WordMatchesPointwise(Product(ms, s).terms, Product(ms, t).terms);
  }

  /** The words of one block are pairwise distinct and all have length `d`. */
  lemma BlockDistinct(ms: seq<Monomial>, d: nat)
    requires SingleLetters(ms) && PairwiseDistinct(ms)
    ensures PairwiseDistinct(Block(ms, d))
    ensures forall n :: 0 <= n < |Block(ms, d)| ==> Degree(Block(ms, d)[n]) == d
  {
    var g := GenIndexing(|ms|, d);
    GenIndexingEntries(|ms|, d);
    forall n | 0 <= n < |g|
      ensures Degree(Block(ms, d)[n]) == d
    {
      ProductLetters(ms, g[n]);
    }
    forall n, m | 0 <= n < |g| && 0 <= m < |g| && n != m
      ensures !Matches(Block(ms, d)[n], Block(ms, d)[m])
    {
      if n < m {
        ProductsDistinct(ms, g[n], g[m]);
      } else {
        ProductsDistinct(ms, g[n], g[m]);
      }
    }
  }

  /** Monomials of different degrees never match. */
  lemma DegreeMatches(a: Monomial, b: Monomial)
    requires Matches(a, b)
    ensures Degree(a) == Degree(b)
  {
  }

  /** All monomials up to the degree are pairwise distinct: no word is listed twice. */
  lemma {:induction false} BallDistinct(ms: seq<Monomial>, degree: nat)
    requires SingleLetters(ms) && PairwiseDistinct(ms)
    ensures PairwiseDistinct(Ball(ms, degree))
    ensures forall i :: 0 <= i < |Ball(ms, degree)| ==> Degree(Ball(ms, degree)[i]) <= degree
  {
    if degree > 0 {
      BallDistinct(ms, degree - 1);
      BlockDistinct(ms, degree);
      var a, b := Ball(ms, degree - 1), Block(ms, degree);
      assert Ball(ms, degree) == a + b;
      forall i1, i2 | 0 <= i1 < |a + b| && 0 <= i2 < |a + b| && i1 != i2
        ensures !Matches((a + b)[i1], (a + b)[i2])
      {
        if i1 < |a| && i2 >= |a| {
          if Matches(a[i1], b[i2 - |a|]) { DegreeMatches(a[i1], b[i2 - |a|]); }
        } else if i1 >= |a| && i2 < |a| {
          if Matches(b[i1 - |a|], a[i2]) { DegreeMatches(b[i1 - |a|], a[i2]); }
        }
      }
    }
  }

  /** The letters are the distinct degree-1 base monomials. */
  lemma LettersShape(baseMonomials: seq<Monomial>)
    ensures SingleLetters(Letters(baseMonomials)) && PairwiseDistinct(Letters(baseMonomials))
    ensures forall i :: 0 <= i < |Letters(baseMonomials)| ==> Letters(baseMonomials)[i] in baseMonomials
  {
    var L := PickOfDegree(baseMonomials, 1);
    UniqueWellGrouped(L);
    var g := Unique(L);
    forall i | 0 <= i < |g.umonos|
      ensures Degree(g.umonos[i]) == 1 && g.umonos[i] in baseMonomials
    {
      assert g.umonos[i] in L;
      PickMembers(baseMonomials, 1, g.umonos[i]);
    }
  }

  /** `get_monomials` lists every word over the distinct degree-1 base monomials once. */
  lemma GetMonomialsDistinct(baseMonomials: seq<Monomial>, degree: int)
    ensures PairwiseDistinct(GetMonomials(baseMonomials, degree))
  {
    LettersShape(baseMonomials);
    BallDistinct(Letters(baseMonomials), RangeLength(degree));
  }

  // ---------------------------------------------------------------------------------------
  // get_all_unique_monomials

  /** `get_monomials([Monomial([])] + base_monomials, degree) + extra_monomials`. */
  function Enumerated(baseMonomials: seq<Monomial>, degree: int, extra: seq<Monomial>): seq<Monomial>
  {
    GetMonomials([Identity()] + baseMonomials, degree) + extra
  }

  /** `get_all_unique_monomials(base, degree, subs, extra)` on values; None when some
      simplification fails (its fuel runs out or it divides by a zero pattern coefficient). */
  function AllUnique(baseMonomials: seq<Monomial>, degree: int, rules: Rules, extra: seq<Monomial>, fuel: nat): Option<seq<Monomial>>
  {
    if degree == 0 then Some([Identity()])
    else
      match NormalizeAll(Enumerated(baseMonomials, degree, extra), rules, fuel)
      case None => None
      case Some(ns) => Some(Unique(ns).umonos)
  }

  /** The loop of `get_all_unique_monomials` that simplifies each monomial in place; None as
      soon as one simplification fails (fuel or a zero pattern coefficient). */
  method SimplifyEvery(monos: seq<Monomial>, rules: Rules, fuel: nat) returns (r: Option<seq<Monomial>>)
    ensures r == NormalizeAll(monos, rules, fuel)
  {
    var simplified := [];
    var k := 0;
    while k < |monos|
      invariant 0 <= k <= |monos|
      invariant NormalizeAll(monos[..k], rules, fuel) == Some(simplified)
    {
      var mon := new MonomialObject(monos[k]);
      var s := mon.Simplify(rules, fuel);
      if s.None? {
        assert NormalizeAll(monos, rules, fuel).None?;
        return None;
      }
      assert monos[..k + 1][..k] == monos[..k];
      simplified := simplified + [s.value];
      k := k + 1;
    }
    assert monos[..k] == monos;
    r := Some(simplified);
  }

  /** `get_all_unique_monomials`: enumerate, simplify each monomial in place, keep the
      unique ones. */
  method AllUniqueMonomials(baseMonomials: seq<Monomial>, degree: int, rules: Rules, extra: seq<Monomial>, fuel: nat)
    returns (r: Option<seq<Monomial>>)
    ensures r == AllUnique(baseMonomials, degree, rules, extra, fuel)
  {
    if degree == 0 {
      return Some([Identity()]);
    }
    var monos := GetMonomialsLoop([Identity()] + baseMonomials, degree);
    monos := monos + extra;
    var simplified := SimplifyEvery(monos, rules, fuel);
    if simplified.None? {
      return None;
    }
    var umonos, _ := UniqueMonomials(simplified.value);
    r := Some(umonos);
  }

  /** Degree 0 gives just the identity. */
  lemma AllUniqueDegreeZero(baseMonomials: seq<Monomial>, rules: Rules, extra: seq<Monomial>, fuel: nat)
    ensures AllUnique(baseMonomials, 0, rules, extra, fuel) == Some([Identity()])
  {
  }

  /** Keeping the unique ones of a list of simplified monomials: the result pairwise does not
      match, no rule applies to any element, every element is the simplified form of an
      input, and every simplified input matches some element. */
  lemma UniqueOfNormalized(E: seq<Monomial>, rules: Rules, fuel: nat, ns: seq<Monomial>)
    requires NormalizeAll(E, rules, fuel) == Some(ns)
    ensures var r := Unique(ns).umonos;
      && PairwiseDistinct(r)
      && (forall i :: 0 <= i < |r| ==> IsNormal(r[i], rules))
      && (forall i :: 0 <= i < |r| ==> exists j :: 0 <= j < |E| && Normalize(E[j], rules, fuel) == Some(r[i]))
      && (forall j :: 0 <= j < |E| ==> AnyMatch(r, Normalize(E[j], rules, fuel).value))
  {
    UniqueWellGrouped(ns);
    var g := Unique(ns);
    forall i | 0 <= i < |g.umonos|
      ensures exists j :: 0 <= j < |E| && Normalize(E[j], rules, fuel) == Some(g.umonos[i])
    {
      var j := g.idx[i][0];
      assert Normalize(E[j], rules, fuel) == Some(ns[j]);
    }
    forall j | 0 <= j < |E|
      ensures AnyMatch(g.umonos, Normalize(E[j], rules, fuel).value)
    {
      assert Normalize(E[j], rules, fuel).value == ns[j];
    }
  }

  /** Otherwise the result pairwise does not match, every element is the simplified form of
      an enumerated or extra monomial (so no rule applies to it), and every simplified input
      matches some element. */
  lemma AllUniqueResult(baseMonomials: seq<Monomial>, degree: int, rules: Rules, extra: seq<Monomial>, fuel: nat)
    requires degree != 0
    requires AllUnique(baseMonomials, degree, rules, extra, fuel).Some?
    ensures var r := AllUnique(baseMonomials, degree, rules, extra, fuel).value;
      var E := Enumerated(baseMonomials, degree, extra);
      && PairwiseDistinct(r)
      && (forall i :: 0 <= i < |r| ==> IsNormal(r[i], rules))
      && (forall i :: 0 <= i < |r| ==> exists j :: 0 <= j < |E| && Normalize(E[j], rules, fuel) == Some(r[i]))
      && (forall j :: 0 <= j < |E| ==> AnyMatch(r, Normalize(E[j], rules, fuel).value))
  {
    var E := Enumerated(baseMonomials, degree, extra);
    var ns := NormalizeAll(E, rules, fuel).value;
    UniqueOfNormalized(E, rules, fuel, ns);
  }
}
