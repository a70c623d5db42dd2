/** The rewrite engine of polynomials.py: `Monomial.apply_substitution` and `Monomial.simplify`. */
module Substitution {
  import opened Options
  import opened Operators
  import opened Monomials

  /** A rewrite rule `pattern -> replacement`; a scalar replacement c is `Monomial([], c)`. */
  type Rule = (Monomial, Monomial)

  /** The substitution mapping, in its insertion order. */
  type Rules = seq<Rule>

  /** The window of `w` starting at `k` has the length of `pat` and matches it structurally. */
  predicate MatchesAt(w: seq<Operator>, pat: seq<Operator>, k: nat)
  {
    k + |pat| <= |w| && WordMatches(w[k..k + |pat|], pat)
  }

  /** `pat` occurs as a contiguous sub-word of `w`. */
  predicate Occurs(w: seq<Operator>, pat: seq<Operator>)
  {
    exists k: nat | k <= |w| :: MatchesAt(w, pat, k)
  }

  /** No rule pattern occurs anywhere in `w`. */
  predicate NoRuleApplies(w: seq<Operator>, rules: Rules)
  {
    forall j :: 0 <= j < |rules| ==> !Occurs(w, rules[j].0.terms)
  }

  /** The window scan of `apply_substitution`, from index `k` upwards. */
  function FindFrom(w: seq<Operator>, pat: seq<Operator>, k: nat): (r: Option<nat>)
    ensures r.Some? ==> k <= r.value && MatchesAt(w, pat, r.value)
    ensures r.Some? ==> forall j :: k <= j < r.value ==> !MatchesAt(w, pat, j)
    ensures r.None? ==> forall j :: k <= j ==> !MatchesAt(w, pat, j)
    decreases |w| - k
  {
    if k + |pat| > |w| then None
    else if WordMatches(w[k..k + |pat|], pat) then Some(k)
    else FindFrom(w, pat, k + 1)
  }

  /** The leftmost window of `w` that matches `pat`, if any. */
  function FirstMatch(w: seq<Operator>, pat: seq<Operator>): (r: Option<nat>)
    ensures r.None? <==> !Occurs(w, pat)
    ensures r.Some? ==> MatchesAt(w, pat, r.value)
    ensures r.Some? ==> forall j :: 0 <= j < r.value ==> !MatchesAt(w, pat, j)
  {
    FindFrom(w, pat, 0)
  }

  /** `m.apply_substitution(pattern, replacement)` on values: None when the pattern does not
      occur (the source returns False and leaves `m` alone), otherwise the spliced monomial. */
  function Substitute(m: Monomial, pattern: Monomial, replacement: Monomial): (r: Option<Monomial>)
    requires pattern.coef != 0.0
    ensures r.None? <==> !Occurs(m.terms, pattern.terms)
    ensures r.Some? ==> |r.value.terms| == |m.terms| - |pattern.terms| + |replacement.terms|
    ensures r.Some? ==> r.value.coef == m.coef * replacement.coef / pattern.coef
  {
    match FirstMatch(m.terms, pattern.terms)
    case None => None
    case Some(k) =>
      var left := m.terms[0..k];
      var right := m.terms[k + |pattern.terms|..|m.terms|];
      Some(Monomial(left + replacement.terms + right, m.coef * replacement.coef / pattern.coef))
  }

  /** On success the word is the prefix before the leftmost matching window, then the
      replacement's word, then the suffix after the window. */
  lemma SubstituteSplice(m: Monomial, pattern: Monomial, replacement: Monomial)
    requires pattern.coef != 0.0 && Occurs(m.terms, pattern.terms)
    ensures FirstMatch(m.terms, pattern.terms).Some?
    ensures
      var k, r := FirstMatch(m.terms, pattern.terms).value, Substitute(m, pattern, replacement).value;
      && r.terms[..k] == m.terms[..k]
      && r.terms[k..k + |replacement.terms|] == replacement.terms
      && r.terms[k + |replacement.terms|..] == m.terms[k + |pattern.terms|..]
  {
    var k := FirstMatch(m.terms, pattern.terms).value;
    var left, right := m.terms[0..k], m.terms[k + |pattern.terms|..];
    var spliced := left + replacement.terms + right;
    assert spliced[..k] == left && spliced[k..k + |replacement.terms|] == replacement.terms;
    assert spliced[k + |replacement.terms|..] == right;
  }

  /** A matching window with no matching window before it is the leftmost match. */
  lemma FirstMatchAt(w: seq<Operator>, pat: seq<Operator>, k: nat)
    requires MatchesAt(w, pat, k)
    requires forall j :: 0 <= j < k ==> !MatchesAt(w, pat, j)
    ensures FirstMatch(w, pat) == Some(k)
  {
    var r := FirstMatch(w, pat);
    assert k <= |w|;
    assert r.Some? && r.value <= k;
  }

  /** Substitution at a window known to be the leftmost match. */
  lemma SubstituteAt(m: Monomial, pattern: Monomial, replacement: Monomial, k: nat)
    requires pattern.coef != 0.0 && MatchesAt(m.terms, pattern.terms, k)
    requires forall j :: 0 <= j < k ==> !MatchesAt(m.terms, pattern.terms, j)
    ensures Substitute(m, pattern, replacement) == Some(Monomial(
      m.terms[0..k] + replacement.terms + m.terms[k + |pattern.terms|..|m.terms|],
      m.coef * replacement.coef / pattern.coef))
  {
    FirstMatchAt(m.terms, pattern.terms, k);
    assert Substitute(m, pattern, replacement).value.coef == m.coef * replacement.coef / pattern.coef;
    assert Substitute(m, pattern, replacement).value.terms
        == m.terms[0..k] + replacement.terms + m.terms[k + |pattern.terms|..|m.terms|];
  }

  /** The first rule, from index `i` on, whose pattern occurs in `w`. */
  function FirstRuleFrom(w: seq<Operator>, rules: Rules, i: nat): (r: Option<nat>)
    ensures r.Some? ==> i <= r.value < |rules| && Occurs(w, rules[r.value].0.terms)
    ensures r.Some? ==> forall j :: i <= j < r.value ==> !Occurs(w, rules[j].0.terms)
    ensures r.None? ==> forall j :: i <= j < |rules| ==> !Occurs(w, rules[j].0.terms)
    decreases |rules| - i
  {
    if i >= |rules| then None
    else if FirstMatch(w, rules[i].0.terms).Some? then Some(i)
    else FirstRuleFrom(w, rules, i + 1)
  }

  /** The canonical zero: a monomial with coefficient 0 loses its word. */
  function ClearZero(m: Monomial): Monomial
  {
    if m.coef == 0.0 then Monomial([], m.coef) else m
  }

  /** What `Monomial.simplify` leaves behind: a zero monomial has an empty word, and no rule
      pattern occurs in the word. */
  predicate IsNormal(m: Monomial, rules: Rules)
  {
    (m.coef == 0.0 ==> m.terms == []) && NoRuleApplies(m.terms, rules)
  }

  /** The empty pattern occurs in every word. */
  lemma EmptyPatternOccurs(w: seq<Operator>, pat: seq<Operator>)
    requires pat == []
    ensures Occurs(w, pat)
  {
    assert MatchesAt(w, pat, 0);
  }

  /** Clearing the word of a zero monomial keeps it a fixed point. */
  lemma ClearZeroNormal(m: Monomial, rules: Rules)
    requires NoRuleApplies(m.terms, rules)
    ensures IsNormal(ClearZero(m), rules)
  {
    if m.coef == 0.0 {
      forall j | 0 <= j < |rules|
        ensures !Occurs([], rules[j].0.terms)
      {
        if Occurs([], rules[j].0.terms) {
          var k: nat :| MatchesAt([], rules[j].0.terms, k);
          EmptyPatternOccurs(m.terms, rules[j].0.terms);
          assert false;
        }
      }
    }
  }

  /** `Monomial.simplify(subs)` on values, with `fuel` bounding the number of substitutions:
      rewrite with the first rule that applies, restart from the first rule, and at the fixed
      point clear the word of a zero monomial. None when the fuel runs out, and None when the
      first rule that applies has a pattern with coefficient 0, where the source's rescaling
      `coef * new.coef / old.coef` raises ZeroDivisionError. */
  function Normalize(m: Monomial, rules: Rules, fuel: nat): (r: Option<Monomial>)
    ensures r.Some? ==> IsNormal(r.value, rules)
    decreases fuel
  {
    if fuel == 0 then None
    else match FirstRuleFrom(m.terms, rules, 0)
      case None => ClearZeroNormal(m, rules); Some(ClearZero(m))
      case Some(i) =>
        if rules[i].0.coef == 0.0 then None
        else Normalize(Substitute(m, rules[i].0, rules[i].1).value, rules, fuel - 1)
  }

  /** A monomial in normal form is returned unchanged. */
  lemma NormalFixedPoint(m: Monomial, rules: Rules, fuel: nat)
    requires IsNormal(m, rules) && fuel >= 1
    ensures Normalize(m, rules, fuel) == Some(m)
  {
  }

  /** Simplifying a simplified monomial changes nothing. */
  lemma NormalizeIdempotent(m: Monomial, rules: Rules, fuel: nat, fuel': nat)
    requires Normalize(m, rules, fuel).Some? && fuel' >= 1
    ensures Normalize(Normalize(m, rules, fuel).value, rules, fuel') == Normalize(m, rules, fuel)
  {
    NormalFixedPoint(Normalize(m, rules, fuel).value, rules, fuel');
  }

  /** More fuel never changes a result that was reached. */
  lemma {:induction false} NormalizeFuelMonotone(m: Monomial, rules: Rules, fuel: nat, more: nat)
    requires Normalize(m, rules, fuel).Some? && fuel <= more
    ensures Normalize(m, rules, more) == Normalize(m, rules, fuel)
    decreases fuel
  {
    match FirstRuleFrom(m.terms, rules, 0)
    case None =>
      NormalizeDone(m, rules, fuel);
      NormalizeDone(m, rules, more);
    case Some(i) =>
      NormalizeStep(m, rules, fuel, i);
      NormalizeStep(m, rules, more, i);
      var next := Substitute(m, rules[i].0, rules[i].1).value;
      NormalizeFuelMonotone(next, rules, fuel - 1, more - 1);
  }

  /** With fuel left and no rule applicable, simplifying clears a zero word and stops. */
  lemma NormalizeDone(m: Monomial, rules: Rules, fuel: nat)
    requires fuel > 0 && FirstRuleFrom(m.terms, rules, 0).None?
    ensures Normalize(m, rules, fuel) == Some(ClearZero(m))
  {
  }

  /** With fuel left, simplifying rewrites with the first applicable rule and goes on, unless
      that rule's pattern has coefficient 0. */
  lemma NormalizeStep(m: Monomial, rules: Rules, fuel: nat, i: nat)
    requires fuel > 0 && FirstRuleFrom(m.terms, rules, 0) == Some(i)
    ensures i < |rules|
    ensures rules[i].0.coef == 0.0 ==> Normalize(m, rules, fuel).None?
    ensures rules[i].0.coef != 0.0 ==> Substitute(m, rules[i].0, rules[i].1).Some?
    ensures rules[i].0.coef != 0.0 ==>
      Normalize(m, rules, fuel) == Normalize(Substitute(m, rules[i].0, rules[i].1).value, rules, fuel - 1)
  {
  }

  /** A zero monomial stays zero under rewriting and ends as the canonical zero `Monomial([], 0)`. */
  lemma {:induction false} NormalizeZero(m: Monomial, rules: Rules, fuel: nat)
    requires m.coef == 0.0 && Normalize(m, rules, fuel).Some?
    ensures Normalize(m, rules, fuel) == Some(Monomial([], 0.0))
    decreases fuel
  {
    match FirstRuleFrom(m.terms, rules, 0)
    case None =>
    case Some(i) =>
      var next := Substitute(m, rules[i].0, rules[i].1).value;
      assert m.coef * rules[i].1.coef == 0.0;
      assert next.coef == 0.0 / rules[i].0.coef == 0.0;
      NormalizeZero(next, rules, fuel - 1);
  }

  /** The mutable `Monomial` object: `apply_substitution` and `simplify` update its fields. */
  class MonomialObject {
    var terms: seq<Operator>
    var coef: real

    /** The monomial the object currently holds. */
    function Value(): Monomial
      reads this
    {
      Monomial(terms, coef)
    }

    /** `Monomial(m)`: a copy of `m`. */
    constructor (m: Monomial)
      ensures Value() == m
    {
      terms := m.terms;
      coef := m.coef;
    }

    /** The body of the `if` in `apply_substitution`: replace the window at `m`, the leftmost
        one matching `pattern`, by `replacement`, then rescale the coefficient. The rescaling
        divides by the pattern's coefficient: when that is 0 the source raises
        ZeroDivisionError after the new word is in place, and `ok` is false. */
    method Splice(pattern: Monomial, replacement: Monomial, m: nat) returns (ok: bool)
      requires MatchesAt(terms, pattern.terms, m)
      requires forall j :: 0 <= j < m ==> !MatchesAt(terms, pattern.terms, j)
      modifies this
      ensures ok <==> pattern.coef != 0.0
      ensures ok ==> Substitute(old(Value()), pattern, replacement) == Some(Value())
      ensures !ok ==> terms == old(terms)[0..m] + replacement.terms + old(terms)[m + |pattern.terms|..|old(terms)|]
      ensures !ok ==> coef == old(coef)
    {
      var left := terms[0..m];
      var right := terms[m + |pattern.terms|..|terms|];
      if pattern.coef == 0.0 {
        terms := left + replacement.terms + right;
        return false;
      }
      ghost var before := Value();
      ghost var expected := Monomial(left + replacement.terms + right, coef * replacement.coef / pattern.coef);
      SubstituteAt(before, pattern, replacement, m);
      assert Substitute(before, pattern, replacement).value.terms == expected.terms;
      assert Substitute(before, pattern, replacement).value.coef == expected.coef;
      assert Substitute(before, pattern, replacement) == Some(expected);
      terms := left + replacement.terms + right;
      coef := coef * replacement.coef / pattern.coef;
      assert Value() == expected;
      ok := true;
    }

    /** `apply_substitution`: splice `replacement` into the leftmost window matching `pattern`
        and rescale the coefficient. Some(success) reports whether a window matched; None is
        the ZeroDivisionError raised when a window matched a pattern with coefficient 0, which
        leaves the new word and the old coefficient behind. */
    method ApplySubstitution(pattern: Monomial, replacement: Monomial) returns (r: Option<bool>)
      modifies this
      ensures r == Some(true) <==> pattern.coef != 0.0 && Occurs(old(terms), pattern.terms)
      ensures r.None? <==> pattern.coef == 0.0 && Occurs(old(terms), pattern.terms)
      ensures r == Some(true) ==> Substitute(old(Value()), pattern, replacement) == Some(Value())
      ensures r == Some(false) ==> Value() == old(Value())
      ensures r.None? ==>
        var k := FirstMatch(old(terms), pattern.terms).value;
        terms == old(terms)[0..k] + replacement.terms + old(terms)[k + |pattern.terms|..|old(terms)|] && coef == old(coef)
    {
      r := Some(false);
      var n := |pattern.terms|;
      if n <= |terms| {
        var found := false;
        var m := 0;
        while m < |terms| - n + 1
          invariant 0 <= m <= |terms| - n + 1
          invariant !found && r == Some(false) && Value() == old(Value())
          invariant forall j :: 0 <= j < m ==> !MatchesAt(terms, pattern.terms, j)
        {
          if WordMatches(terms[m..m + n], pattern.terms) {
            FirstMatchAt(terms, pattern.terms, m);
            var ok := Splice(pattern, replacement, m);
            r := if ok then Some(true) else None;
            found := true;
            break;
          }
          m := m + 1;
        }
        if !found {
          assert !Occurs(terms, pattern.terms);
        }
      } else {
        assert !Occurs(terms, pattern.terms);
      }
    }

    /** `simplify(subs)`: try the rules in order; after the first substitution start again
        (the source's recursive call), and at the fixed point clear the word of a zero
        monomial. Returns the value now held; None if the fuel ran out or a rescaling divided by 0. */
    method Simplify(rules: Rules, fuel: nat) returns (r: Option<Monomial>)
      modifies this
      ensures r == Normalize(old(Value()), rules, fuel)
      ensures r.Some? ==> Value() == r.value
      decreases fuel
    {
      if fuel == 0 {
        return None;
      }
      var success := false;
      var i := 0;
      while i < |rules|
        invariant 0 <= i <= |rules|
        invariant Value() == old(Value()) && !success
        invariant forall j :: 0 <= j < i ==> !Occurs(old(Value()).terms, rules[j].0.terms)
      {
        var applied := ApplySubstitution(rules[i].0, rules[i].1);
        if applied.None? {
          // the ZeroDivisionError propagates out of every enclosing call
          assert FirstRuleFrom(old(Value()).terms, rules, 0) == Some(i);
          return None;
        }
        success := applied.value;
        if success {
          break;
        }
        i := i + 1;
      }
      if success {
        // the source makes the recursive call inside the loop, just before its `break`
        assert FirstRuleFrom(old(Value()).terms, rules, 0) == Some(i);
        var inner := Simplify(rules, fuel - 1);
        if inner.None? {
          return None;
        }
      } else {
        assert FirstRuleFrom(old(Value()).terms, rules, 0).None?;
      }
      if coef == 0.0 {
        terms := [];
      }
      r := Some(Value());
    }
  }
}
