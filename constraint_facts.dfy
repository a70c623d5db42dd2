/** What the rules of `projective_measurement_constraints` say: every projector is
    idempotent, projectors of one measurement are orthogonal, and a product with the later
    party first is reordered; the first-nest rules come before all commutation rules. */
module ProjectiveFacts {
  import opened Options
  import opened Monomials
  import opened Substitution
  import opened RuleDict
  import opened Projective
  import opened Operators
  import opened Basis
  import opened Measurements

  // ---------------------------------------------------------------------------------------
  // Which assignments the loops make.

  /** A rule of a concatenation of cells is a rule of one of the cells. */
  lemma {:induction false} FlatMember(ss: seq<Rules>, r: Rule)
    ensures r in Flat(ss) <==> exists k :: 0 <= k < |ss| && r in ss[k]
  {
    if |ss| > 0 {
      var n := |ss| - 1;
      FlatMember(ss[..n], r);
      assert forall k :: 0 <= k < n ==> ss[..n][k] == ss[k];
    }
  }

  /** Projector `i` of measurement `b` of party `a` exists. */
  predicate At(parties: seq<Party>, a: int, b: int, i: int)
  {
    0 <= a < |parties| && 0 <= b < |parties[a]| && 0 <= i < |parties[a][b]|
  }

  /** The first-nest rules of one measurement come from its pairs of projectors. */
  lemma MeasurementMember(measurement: seq<Monomial>, r: Rule)
    ensures r in MeasurementRules(measurement) <==>
      exists i, j :: 0 <= i < |measurement| && 0 <= j < |measurement| && r in PairRules(measurement[i], measurement[j])
  {
    var mc := MeasurementCells(measurement);
    FlatMember(mc, r);
    forall i | 0 <= i < |measurement|
      ensures r in mc[i] <==> exists j :: 0 <= j < |measurement| && r in PairRules(measurement[i], measurement[j])
    {
      var row := RowCells(measurement[i], measurement);
      FlatMember(row, r);
      assert mc[i] == Flat(row);
      assert forall j :: 0 <= j < |measurement| ==> row[j] == PairRules(measurement[i], measurement[j]);
    }
  }

  /** The first-nest rules come from the pairs of projectors of each measurement. */
  lemma WithinMember(parties: seq<Party>, r: Rule)
    ensures r in WithinRules(parties) <==>
      exists a, b, i, j :: At(parties, a, b, i) && At(parties, a, b, j) &&
        r in PairRules(parties[a][b][i], parties[a][b][j])
  {
    var wc := WithinCells(parties);
    FlatMember(wc, r);
    forall a | 0 <= a < |parties|
      ensures r in wc[a] <==>
        exists b, i, j :: At(parties, a, b, i) && At(parties, a, b, j) &&
          r in PairRules(parties[a][b][i], parties[a][b][j])
    {
      FlatMember(PartyCells(parties[a]), r);
      forall b | 0 <= b < |parties[a]|
        ensures r in PartyCells(parties[a])[b] <==>
          exists i, j :: At(parties, a, b, i) && At(parties, a, b, j) &&
            r in PairRules(parties[a][b][i], parties[a][b][j])
      {
        MeasurementMember(parties[a][b], r);
      }
    }
  }

  /** The commutation rules of two measurements come from their pairs of projectors. */
  lemma CommuteMember(m1: seq<Monomial>, m2: seq<Monomial>, r: Rule)
    ensures r in CommuteRules(m1, m2) <==>
      exists i, j :: 0 <= i < |m1| && 0 <= j < |m2| && r == CommuteRule(m1[i], m2[j])
  {
    var cc := CommuteCells(m1, m2);
    FlatMember(cc, r);
    forall i | 0 <= i < |m1|
      ensures r in cc[i] <==> exists j :: 0 <= j < |m2| && r == CommuteRule(m1[i], m2[j])
    {
      assert forall j :: 0 <= j < |m2| ==> cc[i][j] == CommuteRule(m1[i], m2[j]);
    }
  }

  /** The commutation rules of two parties come from their pairs of projectors. */
  lemma PartyPairMember(party1: Party, party2: Party, r: Rule)
    ensures r in PartyPairRules(party1, party2) <==>
      exists b1, b2, i, j :: 0 <= b1 < |party1| && 0 <= b2 < |party2| && 0 <= i < |party1[b1]| &&
        0 <= j < |party2[b2]| && r == CommuteRule(party1[b1][i], party2[b2][j])
  {
    var pc := PartyPairCells(party1, party2);
    FlatMember(pc, r);
    forall b1 | 0 <= b1 < |party1|
      ensures r in pc[b1] <==>
        exists b2, i, j :: 0 <= b2 < |party2| && 0 <= i < |party1[b1]| &&
          0 <= j < |party2[b2]| && r == CommuteRule(party1[b1][i], party2[b2][j])
    {
      FlatMember(VersusCells(party1[b1], party2), r);
      forall b2 | 0 <= b2 < |party2|
        ensures r in VersusCells(party1[b1], party2)[b2] <==>
          exists i, j :: 0 <= i < |party1[b1]| &&
            0 <= j < |party2[b2]| && r == CommuteRule(party1[b1][i], party2[b2][j])
      {
        CommuteMember(party1[b1], party2[b2], r);
      }
    }
  }

  /** `r` is the rule moving projector `j` of measurement `b2` of party `a2` behind projector
      `i` of measurement `b1` of the earlier party `a1`. */
  ghost predicate CommutesAt(parties: seq<Party>, r: Rule, a1: int, b1: int, i: int, a2: int, b2: int, j: int)
  {
    a1 < a2 && At(parties, a1, b1, i) && At(parties, a2, b2, j) &&
    r == CommuteRule(parties[a1][b1][i], parties[a2][b2][j])
  }

  /** The second-nest rules for party `a1` pair its projectors with those of later parties. */
  lemma LaterMember(parties: seq<Party>, a1: nat, r: Rule)
    requires a1 < |parties|
    ensures r in Flat(LaterCells(parties, a1)) <==>
      exists b1, i, a2, b2, j :: CommutesAt(parties, r, a1, b1, i, a2, b2, j)
  {
    var lc := LaterCells(parties, a1);
    FlatMember(lc, r);
    forall t | 0 <= t < |lc| && r in lc[t]
      ensures exists b1, i, a2, b2, j :: CommutesAt(parties, r, a1, b1, i, a2, b2, j)
    {
      var a2 := a1 + 1 + t;
      PartyPairMember(parties[a1], parties[a2], r);
      var b1, b2, i, j :| 0 <= b1 < |parties[a1]| && 0 <= b2 < |parties[a2]| && 0 <= i < |parties[a1][b1]| &&
        0 <= j < |parties[a2][b2]| && r == CommuteRule(parties[a1][b1][i], parties[a2][b2][j]);
      assert CommutesAt(parties, r, a1, b1, i, a2, b2, j);
    }
    if exists b1, i, a2, b2, j :: CommutesAt(parties, r, a1, b1, i, a2, b2, j) {
      var b1, i, a2, b2, j :| CommutesAt(parties, r, a1, b1, i, a2, b2, j);
      PartyPairMember(parties[a1], parties[a2], r);
      assert r in lc[a2 - a1 - 1];
    }
  }

  /** The second-nest rules pair a projector of a party with one of a later party. */
  lemma CrossMember(parties: seq<Party>, r: Rule)
    ensures r in CrossRules(parties) <==>
      exists a1, b1, i, a2, b2, j :: CommutesAt(parties, r, a1, b1, i, a2, b2, j)
  {
    var cc := CrossCells(parties);
    FlatMember(cc, r);
    forall a1 | 0 <= a1 < |parties|
      ensures r in cc[a1] <==> exists b1, i, a2, b2, j :: CommutesAt(parties, r, a1, b1, i, a2, b2, j)
    {
      LaterMember(parties, a1, r);
      assert cc[a1] == Flat(LaterCells(parties, a1));
    }
    if exists a1, b1, i, a2, b2, j :: CommutesAt(parties, r, a1, b1, i, a2, b2, j) {
      var a1, b1, i, a2, b2, j :| CommutesAt(parties, r, a1, b1, i, a2, b2, j);
      assert r in cc[a1];
    }
  }

  // ---------------------------------------------------------------------------------------
  // Keys.

  /** A projector is a one-letter word with coefficient 1, as `generate_operators` makes them. */
  predicate UnitLetter(p: Monomial)
  {
    |p.terms| == 1 && p.coef == 1.0
  }

  /** Every projector is a unit letter, and projectors at different places do not match. */
  ghost predicate WellFormed(parties: seq<Party>)
  {
    && (forall a, b, i :: At(parties, a, b, i) ==> UnitLetter(parties[a][b][i]))
    && (forall a, b, i, a', b', i' ::
          At(parties, a, b, i) && At(parties, a', b', i') && Matches(parties[a][b][i], parties[a'][b'][i']) ==>
          a == a' && b == b' && i == i')
  }

  /** Products of two unit letters are `==` exactly when the letters match in order. */
  lemma KeyEqual(x: Monomial, y: Monomial, p: Monomial, q: Monomial)
    requires UnitLetter(x) && UnitLetter(y) && UnitLetter(p) && UnitLetter(q)
    ensures Equal(Mul(x, y), Mul(p, q)) <==> Matches(x, p) && Matches(y, q)
  {
    WordMatchesPointwise(x.terms + y.terms, p.terms + q.terms);
    WordMatchesPointwise(x.terms, p.terms);
    WordMatchesPointwise(y.terms, q.terms);
  }

  /** A first-nest rule with key `u*v`, for projectors u and v, comes from their measurement,
      and stores `u` when u and v are the same projector and 0 otherwise. */
  lemma WithinKey(parties: seq<Party>, r: Rule, a: nat, b: nat, i: nat, a': nat, b': nat, i': nat)
    requires WellFormed(parties) && At(parties, a, b, i) && At(parties, a', b', i')
    ensures r in WithinRules(parties) && Equal(r.0, Mul(parties[a][b][i], parties[a'][b'][i'])) ==>
      a == a' && b == b' && r.1 == (if i == i' then parties[a][b][i] else ZeroScalar())
  {
    if r in WithinRules(parties) {
      WithinMember(parties, r);
      var c, d, k, l :| At(parties, c, d, k) && At(parties, c, d, l) && r in PairRules(parties[c][d][k], parties[c][d][l]);
      var x, y := parties[c][d][k], parties[c][d][l];
      var u, v := parties[a][b][i], parties[a'][b'][i'];
      KeyEqual(x, x, u, v);
      KeyEqual(x, y, u, v);
      KeyEqual(y, x, u, v);
      EqualEquivalence(x, x, x);
    }
  }

  /** A second-nest rule with key `u*v` has `u` in a later party than `v` and stores `v*u`. */
  lemma CrossKey(parties: seq<Party>, r: Rule, a: nat, b: nat, i: nat, a': nat, b': nat, i': nat)
    requires WellFormed(parties) && At(parties, a, b, i) && At(parties, a', b', i')
    ensures r in CrossRules(parties) && Equal(r.0, Mul(parties[a][b][i], parties[a'][b'][i'])) ==>
      a' < a && r.1 == Mul(parties[a'][b'][i'], parties[a][b][i])
  {
    if r in CrossRules(parties) {
      CrossMember(parties, r);
      var a1, b1, k, a2, b2, l :| CommutesAt(parties, r, a1, b1, k, a2, b2, l);
      KeyEqual(parties[a2][b2][l], parties[a1][b1][k], parties[a][b][i], parties[a'][b'][i']);
    }
  }

  // ---------------------------------------------------------------------------------------
  // The rules in the dictionary.

  /** Idempotency: `p*p -> p` for every projector p. */
  lemma Idempotency(parties: seq<Party>, a: nat, b: nat, i: nat)
    requires WellFormed(parties) && At(parties, a, b, i)
    ensures Lookup(Constraints(parties), Mul(parties[a][b][i], parties[a][b][i])) == Some(parties[a][b][i])
  {
    var p := parties[a][b][i];
    var k := Mul(p, p);
    var xs := WithinRules(parties) + CrossRules(parties);
    EqualEquivalence(p, p, p);
    EqualEquivalence(k, k, k);
    assert (k, p) in PairRules(p, p);
    WithinMember(parties, (k, p));
    assert (k, p) in xs;
    forall t | 0 <= t < |xs| && Equal(xs[t].0, k)
      ensures xs[t].1 == p
    {
      assert xs[t] in WithinRules(parties) || xs[t] in CrossRules(parties);
      WithinKey(parties, xs[t], a, b, i, a, b, i);
      CrossKey(parties, xs[t], a, b, i, a, b, i);
    }
    InsertAllLookup([], xs, k, p);
  }

  /** Orthogonality: `p*q -> 0` for different projectors p, q of one measurement. */
  lemma Orthogonality(parties: seq<Party>, a: nat, b: nat, i: nat, j: nat)
    requires WellFormed(parties) && At(parties, a, b, i) && At(parties, a, b, j) && i != j
    ensures Lookup(Constraints(parties), Mul(parties[a][b][i], parties[a][b][j])) == Some(ZeroScalar())
  {
    var p, q := parties[a][b][i], parties[a][b][j];
    var k := Mul(p, q);
    var xs := WithinRules(parties) + CrossRules(parties);
    assert !Matches(p, q);
    EqualEquivalence(k, k, k);
    assert (k, ZeroScalar()) in PairRules(p, q);
    WithinMember(parties, (k, ZeroScalar()));
    assert (k, ZeroScalar()) in xs;
    forall t | 0 <= t < |xs| && Equal(xs[t].0, k)
      ensures xs[t].1 == ZeroScalar()
    {
      assert xs[t] in WithinRules(parties) || xs[t] in CrossRules(parties);
      WithinKey(parties, xs[t], a, b, i, a, b, j);
      CrossKey(parties, xs[t], a, b, i, a, b, j);
    }
    InsertAllLookup([], xs, k, ZeroScalar());
  }

  /** Commutation: for p of party `a1` and q of a later party `a2`, `q*p -> p*q`. */
  lemma Commutation(parties: seq<Party>, a1: nat, b1: nat, i: nat, a2: nat, b2: nat, j: nat)
    requires WellFormed(parties) && At(parties, a1, b1, i) && At(parties, a2, b2, j) && a1 < a2
    ensures Lookup(Constraints(parties), Mul(parties[a2][b2][j], parties[a1][b1][i])) ==
      Some(Mul(parties[a1][b1][i], parties[a2][b2][j]))
  {
    var p, q := parties[a1][b1][i], parties[a2][b2][j];
    var k := Mul(q, p);
    var xs := WithinRules(parties) + CrossRules(parties);
    EqualEquivalence(k, k, k);
    CrossMember(parties, CommuteRule(p, q));
    assert CommutesAt(parties, CommuteRule(p, q), a1, b1, i, a2, b2, j);
    assert CommuteRule(p, q) in xs;
    forall t | 0 <= t < |xs| && Equal(xs[t].0, k)
      ensures xs[t].1 == Mul(p, q)
    {
      assert xs[t] in WithinRules(parties) || xs[t] in CrossRules(parties);
      WithinKey(parties, xs[t], a2, b2, j, a1, b1, i);
      CrossKey(parties, xs[t], a2, b2, j, a1, b1, i);
    }
    InsertAllLookup([], xs, k, Mul(p, q));
  }

  /** The keys of the first nest are products of two projectors of one measurement. */
  lemma WithinKeyForm(parties: seq<Party>, r: Rule)
    requires r in WithinRules(parties)
    ensures exists a, b, i, j ::
      At(parties, a, b, i) && At(parties, a, b, j) && r.0 == Mul(parties[a][b][i], parties[a][b][j])
  {
    WithinMember(parties, r);
    var a, b, i, j :| At(parties, a, b, i) && At(parties, a, b, j) && r in PairRules(parties[a][b][i], parties[a][b][j]);
    if Equal(parties[a][b][i], parties[a][b][j]) {
      assert r.0 == Mul(parties[a][b][i], parties[a][b][i]);
    } else if r.0 == Mul(parties[a][b][i], parties[a][b][j]) {
    } else {
      assert r.0 == Mul(parties[a][b][j], parties[a][b][i]);
    }
  }

  /** Order: the dictionary lists all idempotency and orthogonality rules first and then all
      commutation rules, each part in the order of its first assignment. */
  lemma WithinBeforeCross(parties: seq<Party>)
    requires WellFormed(parties)
    ensures Constraints(parties) == InsertAll([], WithinRules(parties)) + InsertAll([], CrossRules(parties))
  {
    var W, X := WithinRules(parties), CrossRules(parties);
    var d := InsertAll([], W);
    InsertAllKeys([], W);
    forall s, t | 0 <= s < |d| && 0 <= t < |X|
      ensures !Equal(d[s].0, X[t].0)
    {
      assert d[s].0 in Keys(W);
      var w :| 0 <= w < |W| && Keys(W)[w] == d[s].0;
      WithinKeyForm(parties, W[w]);
      var a, b, i, j :| At(parties, a, b, i) && At(parties, a, b, j) && W[w].0 == Mul(parties[a][b][i], parties[a][b][j]);
      CrossKey(parties, X[t], a, b, i, a, b, j);
      EqualEquivalence(d[s].0, X[t].0, d[s].0);
    }
    InsertAllFresh(d, X);
    InsertAllConcat([], W, X);
  }

  /** Every key is the product of two of the given projectors. */
  lemma ConstraintKeys(parties: seq<Party>)
    ensures forall e :: e in Constraints(parties) ==>
      exists a, b, i, a', b', i' :: At(parties, a, b, i) && At(parties, a', b', i') &&
        e.0 == Mul(parties[a][b][i], parties[a'][b'][i'])
  {
    var xs := WithinRules(parties) + CrossRules(parties);
    var C := Constraints(parties);
    InsertAllKeys([], xs);
    forall e | e in C
      ensures exists a, b, i, a', b', i' ::
        At(parties, a, b, i) && At(parties, a', b', i') && e.0 == Mul(parties[a][b][i], parties[a'][b'][i'])
    {
      var s :| 0 <= s < |C| && C[s] == e;
      assert e.0 in Keys(xs);
      var w :| 0 <= w < |xs| && Keys(xs)[w] == e.0;
      if xs[w] in WithinRules(parties) {
        WithinKeyForm(parties, xs[w]);
        var a, b, i, j :| At(parties, a, b, i) && At(parties, a, b, j) && xs[w].0 == Mul(parties[a][b][i], parties[a][b][j]);
        assert At(parties, a, b, i) && At(parties, a, b, j) && e.0 == Mul(parties[a][b][i], parties[a][b][j]);
      } else {
        assert xs[w] in CrossRules(parties);
        CrossMember(parties, xs[w]);
        var a1, b1, i, a2, b2, j :| CommutesAt(parties, xs[w], a1, b1, i, a2, b2, j);
        assert At(parties, a2, b2, j) && At(parties, a1, b1, i) && e.0 == Mul(parties[a2][b2][j], parties[a1][b1][i]);
      }
    }
  }

  /** `MeasurementsDistinct` at one pair of places, for a one-letter label. */
  lemma LabelledDistinct(l: char, cfg: seq<int>, b: nat, i: nat, b': nat, i': nat)
    requires |cfg| <= 10 || forall k :: 0 <= k < |cfg| ==> cfg[k] <= 11
    requires var m := Measurements.Measurements([l], cfg);
      b < |m| && i < |m[b]| && b' < |m| && i' < |m[b']| && Matches(m[b][i], m[b'][i'])
    ensures b == b' && i == i'
  {
    MeasurementsDistinct([l], cfg);
  }

  /** The parties the system builds, one `generate_measurements` per party with different
      one-letter labels, are well formed within the bound of `MeasurementsDistinct`. */
  lemma GeneratedPartiesWellFormed(labels: string, ioConfigs: seq<seq<int>>)
    requires |labels| == |ioConfigs|
    requires forall a, a' :: 0 <= a < a' < |labels| ==> labels[a] != labels[a']
    requires forall a :: 0 <= a < |ioConfigs| ==>
      |ioConfigs[a]| <= 10 || forall i :: 0 <= i < |ioConfigs[a]| ==> ioConfigs[a][i] <= 11
    ensures WellFormed(seq(|labels|, a requires 0 <= a < |labels| => Measurements.Measurements([labels[a]], ioConfigs[a])))
  {
    var parties := seq(|labels|, a requires 0 <= a < |labels| => Measurements.Measurements([labels[a]], ioConfigs[a]));
    forall a | 0 <= a < |labels|
      ensures forall b, i :: At(parties, a, b, i) ==> parties[a][b][i] == Projector([labels[a]], b, i)
    {
      MeasurementsShape([labels[a]], ioConfigs[a]);
    }
    forall a, b, i, b', i' | At(parties, a, b, i) && At(parties, a, b', i') && Matches(parties[a][b][i], parties[a][b'][i'])
      ensures b == b' && i == i'
    {
      assert parties[a] == Measurements.Measurements([labels[a]], ioConfigs[a]);
      LabelledDistinct(labels[a], ioConfigs[a], b, i, b', i');
    }
    forall a, b, i, a', b', i' |
      At(parties, a, b, i) && At(parties, a', b', i') && Matches(parties[a][b][i], parties[a'][b'][i'])
      ensures a == a' && b == b' && i == i'
    {
      LetterMatches(Operator(ProjectorName([labels[a]], b, i), true, false), 1.0,
        Operator(ProjectorName([labels[a']], b', i'), true, false), 1.0);
      assert ProjectorName([labels[a]], b, i)[0] == labels[a];
      assert ProjectorName([labels[a']], b', i')[0] == labels[a'];
    }
  }
}
