/** `flatten` from simplification_utils.py: the leaves of an arbitrarily nested list. */
module Flatten {

  /** An element of a nested list: a leaf, Python's `None`, or a list (or tuple) of elements. */
  datatype Nested<T> = Leaf(value: T) | Nothing | List(items: seq<Nested<T>>)

  /** The leaves of `xs` from left to right, built in the order the loop of `flatten`
      appends them. */
  function Leaves<T>(xs: seq<Nested<T>>): seq<T>
    decreases xs
  {
    if |xs| == 0 then []
    else
      assert xs[|xs| - 1] in xs;
      Leaves(xs[..|xs| - 1]) + LeavesOf(xs[|xs| - 1])
  }

  /** The contribution of one element: a leaf itself, nothing for `None`, and the
      leaves of a list. */
  function LeavesOf<T>(x: Nested<T>): seq<T>
    decreases x
  {
    match x
    case Leaf(v) => [v]
    case Nothing => []
    case List(items) => Leaves(items)
  }

  /** An independent description of the same list: the leaves of the first element,
      then those of the rest. */
  function PreOrder<T>(xs: seq<Nested<T>>): seq<T>
    decreases xs
  {
    if |xs| == 0 then []
    else
      var first := xs[0];
      assert first in xs;
      (match first
       case Leaf(v) => [v]
       case Nothing => []
       case List(items) => PreOrder(items)) + PreOrder(xs[1..])
  }

  /** `flatten(lol)`: skip `None`, append a leaf, and extend by the flattening of a
      non-empty list. */
  method FlattenList<T>(lol: seq<Nested<T>>) returns (newList: seq<T>)
    ensures newList == Leaves(lol)
    decreases lol
  {
    newList := [];
    var i := 0;
    while i < |lol|
      invariant 0 <= i <= |lol|
      invariant newList == Leaves(lol[..i])
    {
      var element := lol[i];
      assert lol[..i + 1][..i] == lol[..i];
      match element {
        case Nothing =>
        case Leaf(v) =>
          newList := newList + [v];
        case List(items) =>
          assert element in lol;
          if |items| > 0 {
            var sub := FlattenList(items);
            newList := newList + sub;
          }
      }
      i := i + 1;
    }
    assert lol[..i] == lol;
  }

  /** Appending one element appends its contribution. */
  lemma LeavesSnoc<T>(xs: seq<Nested<T>>, x: Nested<T>)
    ensures Leaves(xs + [x]) == Leaves(xs) + LeavesOf(x)
  {
    assert (xs + [x])[..|xs|] == xs;
  }

  /** Flattening distributes over concatenation, so the leaves keep their left-to-right
      order. */
  lemma {:induction false} LeavesConcat<T>(xs: seq<Nested<T>>, ys: seq<Nested<T>>)
    ensures Leaves(xs + ys) == Leaves(xs) + Leaves(ys)
    decreases |ys|
  {
    if |ys| > 0 {
      var n := |ys| - 1;
      assert xs + ys == (xs + ys[..n]) + [ys[n]];
      assert ys == ys[..n] + [ys[n]];
      LeavesSnoc(xs + ys[..n], ys[n]);
      LeavesSnoc(ys[..n], ys[n]);
      LeavesConcat(xs, ys[..n]);
    } else {
      assert xs + ys == xs;
    }
  }

  /** Each element contributes its own leaves. */
  lemma LeavesCons<T>(x: Nested<T>, xs: seq<Nested<T>>)
    ensures Leaves([x] + xs) == LeavesOf(x) + Leaves(xs)
  {
    LeavesConcat([x], xs);
  }

  /** The loop's left fold equals the head-first recursion: flattening lists the leaves
      in pre-order. */
  lemma {:induction false} LeavesPreOrder<T>(xs: seq<Nested<T>>)
    ensures Leaves(xs) == PreOrder(xs)
    decreases xs
  {
    if |xs| > 0 {
      var first := xs[0];
      assert first in xs;
      assert xs == [first] + xs[1..];
      LeavesCons(first, xs[1..]);
      LeavesPreOrder(xs[1..]);
      match first {
        case Leaf(v) =>
        case Nothing =>
        case List(items) =>
          LeavesPreOrder(items);
      }
    }
  }

  /** A list of leaves only. */
  function Wrap<T>(vs: seq<T>): (r: seq<Nested<T>>)
    ensures |r| == |vs| && forall i :: 0 <= i < |vs| ==> r[i] == Leaf(vs[i])
  {
    seq(|vs|, i requires 0 <= i < |vs| => Leaf(vs[i]))
  }

  /** A list that is already flat comes back unchanged. */
  lemma {:induction false} FlatUnchanged<T>(vs: seq<T>)
    ensures Leaves(Wrap(vs)) == vs
  {
    if |vs| > 0 {
      var n := |vs| - 1;
      assert Wrap(vs)[..n] == Wrap(vs[..n]);
      FlatUnchanged(vs[..n]);
      assert vs[..n] + [vs[n]] == vs;
    }
  }

  /** Flattening twice is the same as flattening once. */
  lemma FlattenIdempotent<T>(xs: seq<Nested<T>>)
    ensures Leaves(Wrap(Leaves(xs))) == Leaves(xs)
  {
    FlatUnchanged(Leaves(xs));
  }
}
