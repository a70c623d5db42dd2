/** The `substitutions` dictionary built in quantum_utils.py, as an ordered list of
    `(key, value)` rules. Keys are compared with monomial `==`, which `Monomial.__hash__`
    agrees with; assigning to a key that is already present replaces its value where it
    stands, and a new key goes at the end (Python dictionaries keep insertion order). */
module RuleDict {
  import opened Options
  import opened Monomials
  import opened Substitution

  /** Monomial `==` is an equivalence relation. */
  lemma EqualEquivalence(a: Monomial, b: Monomial, c: Monomial)
    ensures Equal(a, a)
    ensures Equal(a, b) ==> Equal(b, a)
    ensures Equal(a, b) && Equal(b, c) ==> Equal(a, c)
  {
    MatchesEquivalence(a, b, c);
  }

  /** The position of the key equal to `k`, if there is one. */
  function FindKey(d: Rules, k: Monomial): (r: Option<nat>)
    ensures r.Some? ==> r.value < |d| && Equal(d[r.value].0, k)
    ensures r.Some? ==> forall j :: 0 <= j < r.value ==> !Equal(d[j].0, k)
    ensures r.None? ==> forall j :: 0 <= j < |d| ==> !Equal(d[j].0, k)
  {
    if |d| == 0 then None
    else if Equal(d[0].0, k) then Some(0)
    else match FindKey(d[1..], k)
      case None => None
      case Some(i) => Some(i + 1)
  }

  /** `d[k]`, or None when `k` is not a key. */
  function Lookup(d: Rules, k: Monomial): Option<Monomial>
  {
    match FindKey(d, k)
    case None => None
    case Some(i) => Some(d[i].1)
  }

  /** `d[k] = v`. */
  function Insert(d: Rules, k: Monomial, v: Monomial): (r: Rules)
    ensures |d| <= |r| <= |d| + 1
    ensures forall i :: 0 <= i < |d| ==> r[i].0 == d[i].0
    ensures |r| == |d| + 1 ==> r[|d|].0 == k
  {
    match FindKey(d, k)
    case Some(i) => d[i := (d[i].0, v)]
    case None => d + [(k, v)]
  }

  /** The assignments `d[k] = v` in order. */
  function InsertAll(d: Rules, xs: Rules): Rules
  {
    if |xs| == 0 then d
    else
      var x := xs[|xs| - 1];
      Insert(InsertAll(d, xs[..|xs| - 1]), x.0, x.1)
  }

  /** After `d[k] = v`, looking up anything equal to `k` gives `v`, and every other lookup
      is as before. */
  lemma InsertLookup(d: Rules, k: Monomial, v: Monomial, k': Monomial)
    ensures Lookup(Insert(d, k, v), k') == if Equal(k, k') then Some(v) else Lookup(d, k')
  {
    var r := Insert(d, k, v);
    match FindKey(d, k)
    case None =>
      if Equal(k, k') {
        forall j | 0 <= j < |d|
          ensures !Equal(d[j].0, k')
        {
          EqualEquivalence(d[j].0, k', k);
          EqualEquivalence(k, k', d[j].0);
        }
        assert FindKey(r, k') == Some(|d|);
      } else {
        match FindKey(d, k')
        case None =>
          assert FindKey(r, k') == None;
        case Some(i) =>
          assert FindKey(r, k') == Some(i);
      }
    case Some(i) =>
      if Equal(k, k') {
        forall j | 0 <= j < i
          ensures !Equal(d[j].0, k')
        {
          EqualEquivalence(d[j].0, k', k);
          EqualEquivalence(k, k', d[j].0);
        }
        EqualEquivalence(d[i].0, k, k');
        assert FindKey(r, k') == Some(i);
      } else {
        match FindKey(d, k')
        case None =>
          assert FindKey(r, k') == None;
        case Some(i') =>
          assert FindKey(r, k') == Some(i');
          if i' == i {
            EqualEquivalence(k, d[i].0, k');
            EqualEquivalence(d[i].0, k, k');
          }
      }
  }

  /** Assigning `xs` then `ys` is assigning `xs + ys`. */
  lemma {:induction false} InsertAllConcat(d: Rules, xs: Rules, ys: Rules)
    ensures InsertAll(d, xs + ys) == InsertAll(InsertAll(d, xs), ys)
    decreases |ys|
  {
    if |ys| == 0 {
      assert xs + ys == xs;
    } else {
      var n := |ys| - 1;
      assert (xs + ys)[..|xs + ys| - 1] == xs + ys[..n];
      InsertAllConcat(d, xs, ys[..n]);
    }
  }

  /** One assignment, and two in a row. */
  lemma InsertAllShort(d: Rules, x: Rule, y: Rule)
    ensures InsertAll(d, [x]) == Insert(d, x.0, x.1)
    ensures InsertAll(d, [x, y]) == Insert(Insert(d, x.0, x.1), y.0, y.1)
  {
    assert [x][..0] == [];
    assert [x, y][..1] == [x];
  }

  /** When every assignment to a key equal to `k` stores `v`, and there is one, the
      dictionary maps `k` to `v` at the end, whatever it held before. */
  lemma {:induction false} InsertAllLookup(d: Rules, xs: Rules, k: Monomial, v: Monomial)
    requires exists t :: 0 <= t < |xs| && Equal(xs[t].0, k)
    requires forall t :: 0 <= t < |xs| && Equal(xs[t].0, k) ==> xs[t].1 == v
    ensures Lookup(InsertAll(d, xs), k) == Some(v)
  {
    var n := |xs| - 1;
    var x := xs[n];
    InsertLookup(InsertAll(d, xs[..n]), x.0, x.1, k);
    if !Equal(x.0, k) {
      var t :| 0 <= t < |xs| && Equal(xs[t].0, k);
      assert t < n && xs[..n][t] == xs[t];
      InsertAllLookup(d, xs[..n], k, v);
    }
  }

  /** The keys, in dictionary order. */
  function Keys(d: Rules): (r: seq<Monomial>)
    ensures |r| == |d| && forall i :: 0 <= i < |d| ==> r[i] == d[i].0
  {
    seq(|d|, i requires 0 <= i < |d| => d[i].0)
  }

  /** Every key of the dictionary was a key before or was assigned. */
  lemma {:induction false} InsertAllKeys(d: Rules, xs: Rules)
    ensures forall i :: 0 <= i < |InsertAll(d, xs)| ==> InsertAll(d, xs)[i].0 in Keys(d) + Keys(xs)
  {
    if |xs| > 0 {
      var n := |xs| - 1;
      InsertAllKeys(d, xs[..n]);
      var before := InsertAll(d, xs[..n]);
      var after := InsertAll(d, xs);
      assert Keys(xs) == Keys(xs[..n]) + [xs[n].0];
      forall i | 0 <= i < |after|
        ensures after[i].0 in Keys(d) + Keys(xs)
      {
        if i < |before| {
          assert after[i].0 == before[i].0;
          assert before[i].0 in Keys(d) + Keys(xs[..n]);
        } else {
          assert after[i].0 == xs[n].0;
        }
      }
    }
  }

  /** `FindKey` finds the first equal key. */
  lemma FindKeyFirst(d: Rules, k: Monomial, i: nat)
    requires i < |d| && Equal(d[i].0, k)
    requires forall j :: 0 <= j < i ==> !Equal(d[j].0, k)
    ensures FindKey(d, k) == Some(i)
  {
  }

  /** A key equal to none in `d` is looked up past `d`. */
  lemma InsertFresh(d: Rules, e: Rules, k: Monomial, v: Monomial)
    requires forall i :: 0 <= i < |d| ==> !Equal(d[i].0, k)
    ensures Insert(d + e, k, v) == d + Insert(e, k, v)
  {
    match FindKey(e, k)
    case None =>
      assert FindKey(d + e, k) == None;
      assert (d + e) + [(k, v)] == d + (e + [(k, v)]);
    case Some(i) =>
      FindKeyFirst(d + e, k, |d| + i);
      assert (d + e)[|d| + i := ((d + e)[|d| + i].0, v)] == d + e[i := (e[i].0, v)];
  }

  /** Keys equal to none already present are appended in order: the old entries stay first. */
  lemma {:induction false} InsertAllFresh(d: Rules, xs: Rules)
    requires forall i, t :: 0 <= i < |d| && 0 <= t < |xs| ==> !Equal(d[i].0, xs[t].0)
    ensures InsertAll(d, xs) == d + InsertAll([], xs)
  {
    if |xs| == 0 {
      assert d + [] == d;
    } else {
      var n := |xs| - 1;
      InsertAllFresh(d, xs[..n]);
      InsertFresh(d, InsertAll([], xs[..n]), xs[n].0, xs[n].1);
    }
  }
}
