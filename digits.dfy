/** Base-b digit strings (`num2base` and `gen_indexing` of simplification_utils.py). */
module Digits {
  import opened Lists

  function Pow(b: nat, d: nat): nat
  {
    if d == 0 then 1 else b * Pow(b, d - 1)
  }

  /** The big-endian value of a digit string in base `b`. */
  function Value(ds: seq<nat>, b: nat): nat
  {
    if |ds| == 0 then 0 else Value(ds[..|ds| - 1], b) * b + ds[|ds| - 1]
  }

  /** `[0 for _ in range(k)]`. */
  function Zeros(k: nat): (r: seq<nat>)
    ensures |r| == k && forall i :: 0 <= i < k ==> r[i] == 0
  {
    seq(k, _ => 0)
  }

  /** Every digit is below the base. */
  predicate DigitsBelow(ds: seq<nat>, b: nat)
  {
    forall i :: 0 <= i < |ds| ==> ds[i] < b
  }

  /** The digits the `while n` loop appends, least significant first. The loop stops only
      for `b >= 2` (for `b == 1` it never ends, for `b == 0` it divides by zero). */
  function LoopDigits(n: nat, b: nat): seq<nat>
    requires n == 0 || b >= 2
    decreases n
  {
    if n == 0 then [] else [n % b] + LoopDigits(n / b, b)
  }

  /** One turn of the loop: the lowest digit, then the digits of `n / b`. */
  lemma LoopDigitsStep(n: nat, b: nat)
    requires n > 0 && b >= 2
    ensures n / b < n
    ensures LoopDigits(n, b) == [n % b] + LoopDigits(n / b, b)
    ensures |LoopDigits(n, b)| == 1 + |LoopDigits(n / b, b)|
  {
    DivDecreases(n, b);
  }

  /** `num2base(n, b, d)` on values: `d` zeros for `n == 0`; otherwise the loop's digits,
      reversed and padded with zeros on the left up to length `d`. */
  function ToBase(n: nat, b: nat, d: nat): seq<nat>
    requires n == 0 || b >= 2
  {
    if n == 0 then Zeros(d)
    else
      var ds := Reverse(LoopDigits(n, b));
      if |ds| < d then Zeros(d - |ds|) + ds else ds
  }

  /** The loop invariant survives one turn. */
  lemma CollectStep(digits: seq<nat>, m: nat, b: nat, all: seq<nat>)
    requires m > 0 && b >= 2 && digits + LoopDigits(m, b) == all
    ensures 0 <= m / b < m && 0 <= m % b
    ensures (digits + [m % b]) + LoopDigits(m / b, b) == all
  {
    LoopDigitsStep(m, b);
    assert (digits + [m % b]) + LoopDigits(m / b, b) == digits + ([m % b] + LoopDigits(m / b, b));
  }

  /** The `while n` loop of `num2base`: the digits of `n`, least significant first. */
  method CollectDigits(n: nat, b: nat) returns (digits: seq<nat>)
    requires n == 0 || b >= 2
    ensures digits == LoopDigits(n, b)
  {
    ghost var all := LoopDigits(n, b);
    digits := [];
    var m: nat := n;
    while m != 0
      invariant digits + LoopDigits(m, b) == all
      decreases m
    {
      CollectStep(digits, m, b, all);
      var low: nat, high: nat := m % b, m / b;
      digits := digits + [low];
      m := high;
    }
    assert digits + [] == digits;
  }

  /** `num2base`: the `while` loop, the reversal and the padding. */
  method Num2Base(n: nat, b: nat, d: nat) returns (digits: seq<nat>)
    requires n == 0 || b >= 2
    ensures digits == ToBase(n, b, d)
  {
    if n == 0 {
      digits := Zeros(d);
    } else {
      digits := CollectDigits(n, b);
      digits := Reverse(digits);
      if |digits| < d {
        digits := Zeros(d - |digits|) + digits;
      }
    }
  }

  /** `gen_indexing(b, d)`: `num2base(n, b, d)` for every `n < b^d`. For `b <= 1` there is at
      most the single index `n == 0`, so the loop's requirement always holds. */
  function GenIndexing(b: nat, d: nat): (r: seq<seq<nat>>)
    ensures |r| == Pow(b, d)
  {
    PowSmallBase(b, d);
    seq(Pow(b, d), n requires 0 <= n < Pow(b, d) => ToBase(n, b, d))
  }

  // ---------------------------------------------------------------------------------------
  // Arithmetic facts.

  lemma {:induction false} PowSmallBase(b: nat, d: nat)
    ensures b <= 1 ==> Pow(b, d) <= 1
    ensures b >= 1 ==> Pow(b, d) >= 1
  {
    if d > 0 {
      PowSmallBase(b, d - 1);
    }
  }

  /** Leading zeros do not change the value. */
  lemma {:induction false} ValueZeros(k: nat, ds: seq<nat>, b: nat)
    ensures Value(Zeros(k) + ds, b) == Value(ds, b)
    decreases |ds|, k
  {
    if |ds| == 0 {
      assert Zeros(k) + ds == Zeros(k);
      if k > 0 {
        assert Zeros(k)[..k - 1] == Zeros(k - 1) + [];
        ValueZeros(k - 1, [], b);
      }
    } else {
      var n := |ds| - 1;
      assert (Zeros(k) + ds)[..|Zeros(k) + ds| - 1] == Zeros(k) + ds[..n];
      ValueZeros(k, ds[..n], b);
    }
  }

  /** Appending a digit shifts the value by one place. */
  lemma ValueSnoc(s: seq<nat>, x: nat, b: nat)
    ensures Value(s + [x], b) == Value(s, b) * b + x
  {
    assert (s + [x])[..|s|] == s;
  }

  lemma DivMod(n: nat, b: nat)
    requires b >= 1
    ensures n == (n / b) * b + n % b
  {
  }

  /** The reversed loop digits are the base-b expansion of `n`. */
  lemma {:induction false} LoopDigitsValue(n: nat, b: nat)
    requires b >= 2
    ensures Value(Reverse(LoopDigits(n, b)), b) == n
    decreases n
  {
    if n > 0 {
      LoopDigitsStep(n, b);
      LoopDigitsValue(n / b, b);
      var rest := Reverse(LoopDigits(n / b, b));
      assert Reverse(LoopDigits(n, b)) == rest + [n % b];
      ValueSnoc(rest, n % b, b);
      DivMod(n, b);
    }
  }

  /** The loop only produces digits below `b`. */
  lemma {:induction false} LoopDigitsBelow(n: nat, b: nat)
    requires b >= 2
    ensures DigitsBelow(LoopDigits(n, b), b)
    decreases n
  {
    if n > 0 {
      LoopDigitsStep(n, b);
      LoopDigitsBelow(n / b, b);
    }
  }

  /** Fewer than `d` loop digits are needed for `n < b^d`. */
  lemma {:induction false} LoopDigitsLength(n: nat, b: nat, d: nat)
    requires b >= 2 && n < Pow(b, d)
    ensures |LoopDigits(n, b)| <= d
    decreases n
  {
    if n > 0 {
      LoopDigitsStep(n, b);
      StepBelow(n, b, d);
      LoopDigitsLength(n / b, b, d - 1);
    }
  }

  /** For `b >= 2` and `n < b^d`, `num2base(n, b, d)` is a string of exactly `d` digits below
      `b` whose big-endian value is `n`. */
  lemma ToBaseCorrect(n: nat, b: nat, d: nat)
    requires b >= 2 && n < Pow(b, d)
    ensures |ToBase(n, b, d)| == d
    ensures DigitsBelow(ToBase(n, b, d), b)
    ensures Value(ToBase(n, b, d), b) == n
  {
    if n == 0 {
      ValueZeros(d, [], b);
      assert Zeros(d) + [] == Zeros(d);
    } else {
      var ds := Reverse(LoopDigits(n, b));
      LoopDigitsValue(n, b);
      LoopDigitsBelow(n, b);
      LoopDigitsLength(n, b, d);
      assert DigitsBelow(ds, b);
      PadDigits(ds, b, d);
      ValueZeros(d - |ds|, ds, b);
    }
  }

  /** Left padding with zeros keeps the digits below `b`. */
  lemma PadDigits(ds: seq<nat>, b: nat, d: nat)
    requires b >= 1 && |ds| <= d && DigitsBelow(ds, b)
    ensures (if |ds| < d then Zeros(d - |ds|) + ds else ds) == Zeros(d - |ds|) + ds
    ensures DigitsBelow(Zeros(d - |ds|) + ds, b)
    ensures |Zeros(d - |ds|) + ds| == d
  {
    if |ds| == d {
      assert Zeros(0) + ds == ds;
    }
  }

  /** A digit string below `b` has value below `b^|ds|`, and its digits are recovered from its
      value: equal-length digit strings with equal values are equal. */
  lemma {:induction false} ValueInjective(s: seq<nat>, t: seq<nat>, b: nat)
    requires b >= 2 && |s| == |t| && DigitsBelow(s, b) && DigitsBelow(t, b)
    requires Value(s, b) == Value(t, b)
    ensures s == t
    decreases |s|
  {
    if |s| > 0 {
      var n := |s| - 1;
      var vs, vt := Value(s[..n], b), Value(t[..n], b);
      assert (vs * b + s[n]) % b == s[n] && (vs * b + s[n]) / b == vs by {
        DivModStep(vs, s[n], b);
      }
      assert (vt * b + t[n]) % b == t[n] && (vt * b + t[n]) / b == vt by {
        DivModStep(vt, t[n], b);
      }
      ValueInjective(s[..n], t[..n], b);
      assert s == s[..n] + [s[n]] && t == t[..n] + [t[n]];
    }
  }

  /** Multiplication by a natural number is monotone. */
  lemma {:induction false} MulMonotone(a: nat, x: nat, y: nat)
    requires x <= y
    ensures a * x <= a * y
  {
    if a > 0 {
      MulMonotone(a - 1, x, y);
      assert a * x == (a - 1) * x + x && a * y == (a - 1) * y + y;
    }
  }

  /** One digit fewer suffices for `n / b`. */
  lemma StepBelow(n: nat, b: nat, d: nat)
    requires b >= 2 && 0 < n < Pow(b, d)
    ensures d > 0 && n / b < Pow(b, d - 1)
  {
    if d > 0 {
      DivBelow(n, b, Pow(b, d - 1));
    }
  }

  /** Dividing by `b` what is below `b * p` leaves less than `p`. */
  lemma DivBelow(n: nat, b: nat, p: nat)
    requires b >= 1 && n < b * p
    ensures n / b < p
  {
    var q := n / b;
    assert n == b * q + n % b;
    if q >= p {
      MulMonotone(b, p, q);
      assert false;
    }
  }

  /** The loop variable shrinks. */
  lemma DivDecreases(m: nat, b: nat)
    requires m > 0 && b >= 2
    ensures m / b < m
  {
    var q := m / b;
    assert m == b * q + m % b;
    if q >= m {
      MulMonotone(b, m, q);
      MulMonotone(m, 2, b);
      assert false;
    }
  }

  /** Euclidean division of `q * b + r` by `b` with `r < b` gives back `q` and `r`. */
  lemma DivModStep(q: nat, r: nat, b: nat)
    requires r < b
    ensures (q * b + r) % b == r && (q * b + r) / b == q
  {
    var x := q * b + r;
    var q', r' := x / b, x % b;
    assert x == b * q' + r' && 0 <= r' < b;
    if q' > q {
      MulMonotone(b, q + 1, q');
      assert false;
    } else if q' < q {
      MulMonotone(b, q' + 1, q);
      assert false;
    }
  }

  /** The value of a digit string below `b` is below `b^|ds|`. */
  lemma {:induction false} ValueBound(ds: seq<nat>, b: nat)
    requires b >= 2 && DigitsBelow(ds, b)
    ensures Value(ds, b) < Pow(b, |ds|)
    decreases |ds|
  {
    if |ds| > 0 {
      var n := |ds| - 1;
      ValueBound(ds[..n], b);
      BoundStep(Value(ds[..n], b), ds[n], b, Pow(b, n));
    }
  }

  /** One more digit below `b` stays below the next power. */
  lemma BoundStep(v: nat, x: nat, b: nat, p: nat)
    requires v < p && x < b
    ensures v * b + x < b * p
  {
    MulMonotone(b, v + 1, p);
    assert b * (v + 1) == b * v + b;
  }

  /** Each entry of `gen_indexing(b, d)` is a string of `d` digits below `b`, and entries at
      different positions differ; from base 2 on, entry `n` spells the number `n`. */
  lemma GenIndexingEntries(b: nat, d: nat)
    ensures forall n :: 0 <= n < |GenIndexing(b, d)| ==>
      |GenIndexing(b, d)[n]| == d && DigitsBelow(GenIndexing(b, d)[n], b)
    ensures b >= 2 ==> forall n :: 0 <= n < |GenIndexing(b, d)| ==> Value(GenIndexing(b, d)[n], b) == n
    ensures forall n, m :: 0 <= n < m < |GenIndexing(b, d)| ==> GenIndexing(b, d)[n] != GenIndexing(b, d)[m]
  {
    var g := GenIndexing(b, d);
    PowSmallBase(b, d);
    if b >= 2 {
      forall n | 0 <= n < |g|
        ensures |g[n]| == d && DigitsBelow(g[n], b) && Value(g[n], b) == n
      {
        ToBaseCorrect(n, b, d);
      }
    } else if |g| == 1 {
      assert g[0] == Zeros(d);
    }
  }

  /** Every string of `d` digits below `b >= 2` occurs in `gen_indexing(b, d)`, at the position
      given by its value. */
  lemma GenIndexingComplete(b: nat, s: seq<nat>)
    requires b >= 2 && DigitsBelow(s, b)
    ensures Value(s, b) < |GenIndexing(b, |s|)| && GenIndexing(b, |s|)[Value(s, b)] == s
  {
    var d, n := |s|, Value(s, b);
    ValueBound(s, b);
    ToBaseCorrect(n, b, d);
    ValueInjective(ToBase(n, b, d), s, b);
  }
}
