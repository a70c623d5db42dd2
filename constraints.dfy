/** `projective_measurement_constraints` of quantum_utils.py: the rewrite rules that make the
    measurement operators orthogonal projectors and let the parties' operators commute. */
module Projective {
  import opened Options
  import opened Monomials
  import opened Substitution
  import opened RuleDict

  /** A party: its measurements, each a list of projectors. */
  type Party = seq<seq<Monomial>>

  /** `Monomial(0)`, the value the orthogonality rules store. */
  function ZeroScalar(): Monomial
  {
    FromScalar(0.0)
  }

  // ---------------------------------------------------------------------------------------
  // The assignments the loops make, in order.

  /** The rules of the cells, one cell after the other. */
  function Flat(ss: seq<Rules>): Rules
  {
    if |ss| == 0 then [] else Flat(ss[..|ss| - 1]) + ss[|ss| - 1]
  }

  /** Body of the innermost loop of the first nest: `p1*p1 -> p1` when `p1 == p2`, else
      `p1*p2 -> 0` and `p2*p1 -> 0`. */
  function PairRules(p1: Monomial, p2: Monomial): Rules
  {
    if Equal(p1, p2) then [(Mul(p1, p1), p1)] else [(Mul(p1, p2), ZeroScalar()), (Mul(p2, p1), ZeroScalar())]
  }

  function RowCells(p1: Monomial, measurement: seq<Monomial>): seq<Rules>
  {
    seq(|measurement|, j requires 0 <= j < |measurement| => PairRules(p1, measurement[j]))
  }

  function MeasurementCells(measurement: seq<Monomial>): seq<Rules>
  {
    seq(|measurement|, i requires 0 <= i < |measurement| => Flat(RowCells(measurement[i], measurement)))
  }

  /** The idempotency and orthogonality rules of one measurement. */
  function MeasurementRules(measurement: seq<Monomial>): Rules
  {
    Flat(MeasurementCells(measurement))
  }

  function PartyCells(party: Party): seq<Rules>
  {
    seq(|party|, b requires 0 <= b < |party| => MeasurementRules(party[b]))
  }

  function WithinCells(parties: seq<Party>): seq<Rules>
  {
    seq(|parties|, a requires 0 <= a < |parties| => Flat(PartyCells(parties[a])))
  }

  /** All assignments of the first loop nest. */
  function WithinRules(parties: seq<Party>): Rules
  {
    Flat(WithinCells(parties))
  }

  /** Body of the innermost loop of the second nest: `p2*p1 -> p1*p2`. */
  function CommuteRule(p1: Monomial, p2: Monomial): Rule
  {
    (Mul(p2, p1), Mul(p1, p2))
  }

  function CommuteCells(m1: seq<Monomial>, m2: seq<Monomial>): seq<Rules>
  {
    seq(|m1|, i requires 0 <= i < |m1| => seq(|m2|, j requires 0 <= j < |m2| => CommuteRule(m1[i], m2[j])))
  }

  /** The commutation rules between two measurements of different parties. */
  function CommuteRules(m1: seq<Monomial>, m2: seq<Monomial>): Rules
  {
    Flat(CommuteCells(m1, m2))
  }

  function VersusCells(m1: seq<Monomial>, party2: Party): seq<Rules>
  {
    seq(|party2|, b requires 0 <= b < |party2| => CommuteRules(m1, party2[b]))
  }

  function PartyPairCells(party1: Party, party2: Party): seq<Rules>
  {
    seq(|party1|, b requires 0 <= b < |party1| => Flat(VersusCells(party1[b], party2)))
  }

  /** The commutation rules between two parties. */
  function PartyPairRules(party1: Party, party2: Party): Rules
  {
    Flat(PartyPairCells(party1, party2))
  }

  /** `for n2 in range(n1+1, len(parties))`. */
  function LaterCells(parties: seq<Party>, n1: nat): seq<Rules>
    requires n1 < |parties|
  {
    seq(|parties| - n1 - 1, t requires 0 <= t < |parties| - n1 - 1 => PartyPairRules(parties[n1], parties[n1 + 1 + t]))
  }

  function CrossCells(parties: seq<Party>): seq<Rules>
  {
    seq(|parties|, n1 requires 0 <= n1 < |parties| => Flat(LaterCells(parties, n1)))
  }

  /** All assignments of the second loop nest. */
  function CrossRules(parties: seq<Party>): Rules
  {
    Flat(CrossCells(parties))
  }

  /** The dictionary `projective_measurement_constraints(*parties)` returns. */
  function Constraints(parties: seq<Party>): Rules
  {
    InsertAll([], WithinRules(parties) + CrossRules(parties))
  }

  // ---------------------------------------------------------------------------------------
  // The loops.

  lemma FlatSnoc(ss: seq<Rules>, i: nat)
    requires i < |ss|
    ensures Flat(ss[..i + 1]) == Flat(ss[..i]) + ss[i]
  {
    assert ss[..i + 1][..i] == ss[..i];
  }

  lemma FlatWhole(ss: seq<Rules>)
    ensures Flat(ss[..|ss|]) == Flat(ss)
  {
    assert ss[..|ss|] == ss;
  }

  /** One more cell of a loop: the assignments so far, then those of the cell. */
  lemma Advance(d: Rules, ss: seq<Rules>, i: nat)
    requires i < |ss|
    ensures InsertAll(d, Flat(ss[..i + 1])) == InsertAll(InsertAll(d, Flat(ss[..i])), ss[i])
  {
    FlatSnoc(ss, i);
    InsertAllConcat(d, Flat(ss[..i]), ss[i]);
  }

  /** The innermost loop of the first nest, for one projector against its measurement. */
  method AddRow(subs: Rules, projector1: Monomial, measurement: seq<Monomial>) returns (r: Rules)
    ensures r == InsertAll(subs, Flat(RowCells(projector1, measurement)))
  {
    ghost var row := RowCells(projector1, measurement);
    r := subs;
    var j := 0;
    while j < |measurement|
      invariant 0 <= j <= |measurement|
      invariant r == InsertAll(subs, Flat(row[..j]))
    {
      var projector2 := measurement[j];
      ghost var pair := PairRules(projector1, projector2);
      ghost var r0 := r;
      if Equal(projector1, projector2) {
        r := Insert(r, Mul(projector1, projector1), projector1);
      } else {
        r := Insert(r, Mul(projector1, projector2), ZeroScalar());
        r := Insert(r, Mul(projector2, projector1), ZeroScalar());
      }
      InsertAllShort(r0, pair[0], pair[|pair| - 1]);
      assert row[j] == pair;
      Advance(subs, row, j);
      j := j + 1;
    }
    FlatWhole(row);
  }

  /** The two innermost loops of the first nest, for one measurement. */
  method AddMeasurement(subs: Rules, measurement: seq<Monomial>) returns (r: Rules)
    ensures r == InsertAll(subs, MeasurementRules(measurement))
  {
    ghost var cells := MeasurementCells(measurement);
    r := subs;
    var i := 0;
    while i < |measurement|
      invariant 0 <= i <= |measurement|
      invariant r == InsertAll(subs, Flat(cells[..i]))
    {
      r := AddRow(r, measurement[i], measurement);
      Advance(subs, cells, i);
      i := i + 1;
    }
    FlatWhole(cells);
  }

  /** The two innermost loops of the second nest, for two measurements. */
  method AddCommute(subs: Rules, m1: seq<Monomial>, m2: seq<Monomial>) returns (r: Rules)
    ensures r == InsertAll(subs, CommuteRules(m1, m2))
  {
    r := subs;
    var i := 0;
    while i < |m1|
      invariant 0 <= i <= |m1|
      invariant r == InsertAll(subs, Flat(CommuteCells(m1, m2)[..i]))
    {
      var projector1 := m1[i];
      ghost var row := CommuteCells(m1, m2)[i];
      ghost var before := r;
      var j := 0;
      while j < |m2|
        invariant 0 <= j <= |m2|
        invariant r == InsertAll(before, row[..j])
      {
        var projector2 := m2[j];
        assert row[..j + 1] == row[..j] + [CommuteRule(projector1, projector2)];
        InsertAllConcat(before, row[..j], [CommuteRule(projector1, projector2)]);
        InsertAllShort(r, CommuteRule(projector1, projector2), CommuteRule(projector1, projector2));
        r := Insert(r, Mul(projector2, projector1), Mul(projector1, projector2));
        j := j + 1;
      }
      assert row[..j] == row;
      Advance(subs, CommuteCells(m1, m2), i);
      i := i + 1;
    }
    FlatWhole(CommuteCells(m1, m2));
  }

  /** The loops over the measurements of two parties. */
  method AddPartyPair(subs: Rules, party1: Party, party2: Party) returns (r: Rules)
    ensures r == InsertAll(subs, PartyPairRules(party1, party2))
  {
    r := subs;
    var b1 := 0;
    while b1 < |party1|
      invariant 0 <= b1 <= |party1|
      invariant r == InsertAll(subs, Flat(PartyPairCells(party1, party2)[..b1]))
    {
      ghost var before := r;
      var b2 := 0;
      while b2 < |party2|
        invariant 0 <= b2 <= |party2|
        invariant r == InsertAll(before, Flat(VersusCells(party1[b1], party2)[..b2]))
      {
        r := AddCommute(r, party1[b1], party2[b2]);
        Advance(before, VersusCells(party1[b1], party2), b2);
        b2 := b2 + 1;
      }
      FlatWhole(VersusCells(party1[b1], party2));
      Advance(subs, PartyPairCells(party1, party2), b1);
      b1 := b1 + 1;
    }
    FlatWhole(PartyPairCells(party1, party2));
  }

  /** The first loop nest: idempotency and orthogonality within every measurement. */
  method AddWithin(subs: Rules, parties: seq<Party>) returns (r: Rules)
    ensures r == InsertAll(subs, WithinRules(parties))
  {
    r := subs;
    var a := 0;
    while a < |parties|
      invariant 0 <= a <= |parties|
      invariant r == InsertAll(subs, Flat(WithinCells(parties)[..a]))
    {
      var party := parties[a];
      ghost var before := r;
      var b := 0;
      while b < |party|
        invariant 0 <= b <= |party|
        invariant r == InsertAll(before, Flat(PartyCells(party)[..b]))
      {
        r := AddMeasurement(r, party[b]);
        Advance(before, PartyCells(party), b);
        b := b + 1;
      }
      FlatWhole(PartyCells(party));
      Advance(subs, WithinCells(parties), a);
      a := a + 1;
    }
    FlatWhole(WithinCells(parties));
  }

  /** The second loop nest: for parties `n1 < n2`, projectors of the later party are moved
      behind those of the earlier one. */
  method AddCross(subs: Rules, parties: seq<Party>) returns (r: Rules)
    ensures r == InsertAll(subs, CrossRules(parties))
  {
    r := subs;
    var n1 := 0;
    while n1 < |parties|
      invariant 0 <= n1 <= |parties|
      invariant r == InsertAll(subs, Flat(CrossCells(parties)[..n1]))
    {
      ghost var before := r;
      ghost var later := LaterCells(parties, n1);
      var n2 := n1 + 1;
      while n2 < |parties|
        invariant n1 + 1 <= n2 <= |parties|
        invariant r == InsertAll(before, Flat(later[..n2 - n1 - 1]))
      {
        ghost var t := n2 - n1 - 1;
        assert later[t] == PartyPairRules(parties[n1], parties[n2]);
        r := AddPartyPair(r, parties[n1], parties[n2]);
        Advance(before, later, t);
        assert t + 1 == n2 + 1 - n1 - 1;
        n2 := n2 + 1;
      }
      FlatWhole(later);
      Advance(subs, CrossCells(parties), n1);
      n1 := n1 + 1;
    }
    FlatWhole(CrossCells(parties));
  }

  /** `projective_measurement_constraints(*parties)`: both loop nests fill one dictionary.
      The source first looks at `parties[0][0][0]`, so with no party, a first party without
      measurements or a first measurement without projectors it raises IndexError (None). */
  method ProjectiveMeasurementConstraints(parties: seq<Party>) returns (substitutions: Option<Rules>)
    ensures substitutions.None? <==> |parties| == 0 || |parties[0]| == 0 || |parties[0][0]| == 0
    ensures substitutions.Some? ==> substitutions.value == Constraints(parties)
  {
    if |parties| == 0 || |parties[0]| == 0 || |parties[0][0]| == 0 {
      return None;
    }
    var subs := AddWithin([], parties);
    subs := AddCross(subs, parties);
    InsertAllConcat([], WithinRules(parties), CrossRules(parties));
    substitutions := Some(subs);
  }
}
