/** `generate_measurements` of quantum_utils.py: the projectors of one party. */
module Measurements {
  import opened Operators
  import opened Monomials
  import opened Decimal
  import opened Grouping
  import opened Basis

  /** The name `label + str(i) + str(k)` of output `k` of input `i`. */
  function ProjectorName(partyLabel: string, i: nat, k: nat): string
  {
    partyLabel + NatToString(i) + NatToString(k)
  }

  /** The projector for output `k` of input `i`: a hermitian one-letter monomial. */
  function Projector(partyLabel: string, i: nat, k: nat): Monomial
  {
    Monomial([Operator(ProjectorName(partyLabel, i, k), true, false)], 1.0)
  }

  /** The list the loop builds, one `generate_operators(label + str(i), io_config[i] - 1,
      hermitian=True)` per input. */
  function Measurements(partyLabel: string, ioConfig: seq<int>): (r: seq<seq<Monomial>>)
    ensures |r| == |ioConfig|
    ensures forall i :: 0 <= i < |r| ==> |r[i]| == RangeLength(ioConfig[i] - 1)
  {
    if |ioConfig| == 0 then []
    else
      var n := |ioConfig| - 1;
      Measurements(partyLabel, ioConfig[..n]) + [GenerateOperators(partyLabel + NatToString(n), ioConfig[n] - 1, true)]
  }

  /** `generate_measurements(label, io_config)`. */
  method GenerateMeasurements(partyLabel: string, ioConfig: seq<int>) returns (measurements: seq<seq<Monomial>>)
    ensures measurements == Measurements(partyLabel, ioConfig)
  {
    measurements := [];
    var i := 0;
    while i < |ioConfig|
      invariant 0 <= i <= |ioConfig|
      invariant measurements == Measurements(partyLabel, ioConfig[..i])
    {
      assert ioConfig[..i + 1][..i] == ioConfig[..i];
      measurements := measurements + [GenerateOperators(partyLabel + NatToString(i), ioConfig[i] - 1, true)];
      i := i + 1;
    }
    assert ioConfig[..i] == ioConfig;
  }

  /** Input `i` has `io_config[i] - 1` projectors (none when that is not positive), and
      output `k` of it is the hermitian letter named `label + str(i) + str(k)`. */
  lemma {:induction false} MeasurementsShape(partyLabel: string, ioConfig: seq<int>)
    ensures forall i, k :: 0 <= i < |ioConfig| && 0 <= k < |Measurements(partyLabel, ioConfig)[i]| ==>
      Measurements(partyLabel, ioConfig)[i][k] == Projector(partyLabel, i, k)
  {
    if |ioConfig| > 0 {
      var n := |ioConfig| - 1;
      MeasurementsShape(partyLabel, ioConfig[..n]);
      var r := Measurements(partyLabel, ioConfig);
      assert forall i :: 0 <= i < n ==> r[i] == Measurements(partyLabel, ioConfig[..n])[i] && ioConfig[..n][i] == ioConfig[i];
    }
  }

  /** A split of a concatenation at a known length. */
  lemma ConcatSplit(a: string, b: string, a': string, b': string)
    requires a + b == a' + b' && |a| == |a'|
    ensures a == a' && b == b'
  {
    assert a == (a + b)[..|a|] && a' == (a' + b')[..|a'|];
    assert b == (a + b)[|a|..] && b' == (a' + b')[|a'|..];
  }

  /** Names of different projectors differ when there are at most ten inputs, or when no input
      has more than ten projectors. */
  lemma ProjectorNamesDistinct(partyLabel: string, i: nat, k: nat, i': nat, k': nat)
    requires (i < 10 && i' < 10) || (k < 10 && k' < 10)
    requires ProjectorName(partyLabel, i, k) == ProjectorName(partyLabel, i', k')
    ensures i == i' && k == k'
  {
    var si, sk, si', sk' := NatToString(i), NatToString(k), NatToString(i'), NatToString(k');
    assert partyLabel + si + sk == partyLabel + (si + sk);
    assert partyLabel + si' + sk' == partyLabel + (si' + sk');
    assert (partyLabel + (si + sk))[|partyLabel|..] == si + sk;
    assert (partyLabel + (si' + sk'))[|partyLabel|..] == si' + sk';
    NatToStringLength(i);
    NatToStringLength(i');
    NatToStringLength(k);
    NatToStringLength(k');
    if i < 10 && i' < 10 {
      ConcatSplit(si, sk, si', sk');
    } else {
      assert |si| == |si| + |sk| - 1 && |si'| == |si'| + |sk'| - 1;
      assert |si| == |si'|;
      ConcatSplit(si, sk, si', sk');
    }
    NatToStringInjective(i, i');
    NatToStringInjective(k, k');
  }

  /** The projectors of a party pairwise do not match, as long as the party has at most ten
      inputs or at most ten projectors per input. */
  lemma MeasurementsDistinct(partyLabel: string, ioConfig: seq<int>)
    requires |ioConfig| <= 10 || forall i :: 0 <= i < |ioConfig| ==> ioConfig[i] <= 11
    ensures var m := Measurements(partyLabel, ioConfig);
      forall i, k, i', k' ::
        (0 <= i < |m| && 0 <= k < |m[i]| && 0 <= i' < |m| && 0 <= k' < |m[i']| && Matches(m[i][k], m[i'][k'])) ==>
        i == i' && k == k'
  {
    var m := Measurements(partyLabel, ioConfig);
    MeasurementsShape(partyLabel, ioConfig);
    forall i, k, i', k' | 0 <= i < |m| && 0 <= k < |m[i]| && 0 <= i' < |m| && 0 <= k' < |m[i']| &&
      Matches(m[i][k], m[i'][k'])
      ensures i == i' && k == k'
    {
      LetterMatches(Operator(ProjectorName(partyLabel, i, k), true, false), 1.0,
        Operator(ProjectorName(partyLabel, i', k'), true, false), 1.0);
      ProjectorNamesDistinct(partyLabel, i, k, i', k');
    }
  }

  /** Without that bound names collide: output 11 of input 1 and output 1 of input 11 are both
      called `label + "111"`. */
  lemma ProjectorNameCollision(partyLabel: string)
    ensures ProjectorName(partyLabel, 1, 11) == ProjectorName(partyLabel, 11, 1) == partyLabel + "111"
  {
    assert NatToString(11) == NatToString(1) + [DigitChar(1)];
  }

  /** So a party with twelve inputs of thirteen outputs has two matching projectors. */
  lemma MeasurementsCollide(partyLabel: string, ioConfig: seq<int>)
    requires |ioConfig| >= 12 && ioConfig[1] >= 13 && ioConfig[11] >= 3
    ensures Matches(Measurements(partyLabel, ioConfig)[1][11], Measurements(partyLabel, ioConfig)[11][1])
  {
    MeasurementsShape(partyLabel, ioConfig);
    ProjectorNameCollision(partyLabel);
    LetterMatches(Operator(ProjectorName(partyLabel, 1, 11), true, false), 1.0,
      Operator(ProjectorName(partyLabel, 11, 1), true, false), 1.0);
  }
}
