/** Shared vocabulary of the leaderboard model: nullable values, results of
    operations that can throw, Java doubles as far as their finiteness is
    checked, and subsequences (an order-preserving selection of elements). */
module Common {

  /** A Java reference that may be null. */
  datatype Option<+T> = None | Some(value: T)

  /** The outcome of an operation that either returns a value or throws. */
  datatype Result<+T, +E> = Success(value: T) | Failure(error: E)

  /** A Java `double`, reduced to what `Double.isFinite` can tell apart.
      Rounding is not modelled: a finite double is a real number. */
  datatype Double = Finite(value: real) | NaN | PositiveInfinity | NegativeInfinity

  function Min(a: int, b: int): int
  {
    if a <= b then a else b
  }

  /** `Math.abs` on finite doubles. */
  function Abs(x: real): real
  {
    if x < 0.0 then -x else x
  }

  /** `idx` lists, in strictly increasing order, positions of `ys` whose
      elements spell out `xs`. */
  ghost predicate Embeds<T>(xs: seq<T>, ys: seq<T>, idx: seq<nat>)
  {
    && |idx| == |xs|
    && (forall i :: 0 <= i < |idx| ==> idx[i] < |ys| && xs[i] == ys[idx[i]])
    && (forall i, j :: 0 <= i < j < |idx| ==> idx[i] < idx[j])
  }

  /** `xs` is obtained from `ys` by dropping elements and keeping the order. */
  ghost predicate IsSubsequence<T>(xs: seq<T>, ys: seq<T>)
  {
    exists idx :: Embeds(xs, ys, idx)
  }

  lemma EmptyIsSubsequence<T>(ys: seq<T>)
    ensures IsSubsequence([], ys)
  {
    assert Embeds([], ys, []);
  }

  /** Appending an element to the longer sequence keeps a subsequence one. */
  lemma SubsequenceSkip<T>(xs: seq<T>, ys: seq<T>, y: T)
    requires IsSubsequence(xs, ys)
    ensures IsSubsequence(xs, ys + [y])
  {
    var idx: seq<nat> :| Embeds(xs, ys, idx);
    assert Embeds(xs, ys + [y], idx);
  }

  /** Appending the same element to both sequences keeps a subsequence one. */
  lemma SubsequenceKeep<T>(xs: seq<T>, ys: seq<T>, y: T)
    requires IsSubsequence(xs, ys)
    ensures IsSubsequence(xs + [y], ys + [y])
  {
    var idx: seq<nat> :| Embeds(xs, ys, idx);
    var idx': seq<nat> := idx + [|ys|];
    assert Embeds(xs + [y], ys + [y], idx');
  }

  /** A subsequence of a sequence without repetitions has none either. */
  lemma SubsequenceDistinct<T>(xs: seq<T>, ys: seq<T>)
    requires IsSubsequence(xs, ys)
    requires forall i, j :: 0 <= i < j < |ys| ==> ys[i] != ys[j]
    ensures forall i, j :: 0 <= i < j < |xs| ==> xs[i] != xs[j]
  {
    var idx: seq<nat> :| Embeds(xs, ys, idx);
    forall i, j | 0 <= i < j < |xs|
      ensures xs[i] != xs[j]
    {
      assert idx[i] < idx[j];
    }
  }
}
