/** The averaging helpers of Algorithms.h over exact reals. Each loop adds
 *  into a caller-supplied accumulator and divides by a count of elements; a
 *  division by a zero count (infinite or NaN in floating point) is None. */
module Averaging {
  import opened Wrappers

  /** The sum of a sequence, accumulated from the front as the loops do. */
  function Sum(xs: seq<real>): real
  {
    if xs == [] then 0.0 else Sum(xs[..|xs| - 1]) + xs[|xs| - 1]
  }

  /** A sequence of n copies of c sums to n·c. */
  lemma {:induction false} SumConstant(xs: seq<real>, c: real)
    requires forall i :: 0 <= i < |xs| ==> xs[i] == c
    ensures Sum(xs) == |xs| as real * c
  {
    if xs != [] {
      SumConstant(xs[..|xs| - 1], c);
    }
  }

  /** What `average` leaves in `output`: the first element, then every later
   *  one added, divided by the number of LATER elements, n − 1. With one
   *  element that count is zero. */
  function AverageAsWritten(xs: seq<real>): (r: Option<real>)
    requires |xs| > 0
    ensures r.None? <==> |xs| == 1
  {
    if |xs| == 1 then None else Some(Sum(xs) / (|xs| - 1) as real)
  }

  /** average: `output` starts at the first element (the range must not be
   *  empty, since the first element is read before the emptiness test) and
   *  `elems` counts only the elements after it. */
  method Average(xs: seq<real>) returns (r: Option<real>)
    requires |xs| > 0
    ensures r == AverageAsWritten(xs)
  {
    var output := xs[0];
    var elems := 0;
    var i := 1;
    assert xs[..1] == [xs[0]];
    while i < |xs|
      invariant 1 <= i <= |xs| && elems == i - 1
      invariant output == Sum(xs[..i])
    {
      assert xs[..i + 1][..i] == xs[..i];
      output := output + xs[i];
      elems := elems + 1;
      i := i + 1;
    }
    assert xs[..i] == xs;
    if elems == 0 {
      return None;
    }
    r := Some(output / elems as real);
  }

  /** The arithmetic mean, the value `average` is named for. */
  function Mean(xs: seq<real>): real
    requires |xs| > 0
  {
    Sum(xs) / |xs| as real
  }

  /** The mean of n copies of c is c. */
  lemma MeanOfConstant(xs: seq<real>, c: real)
    requires |xs| > 0 && forall i :: 0 <= i < |xs| ==> xs[i] == c
    ensures Mean(xs) == c
  {
    SumConstant(xs, c);
  }

  /** As written, n ≥ 2 copies of c average to n·c/(n − 1), which is not c
   *  unless c is zero. */
  lemma AverageOfConstantOvershoots(xs: seq<real>, c: real)
    requires |xs| >= 2 && forall i :: 0 <= i < |xs| ==> xs[i] == c
    ensures AverageAsWritten(xs).value * (|xs| - 1) as real == |xs| as real * c
    ensures c != 0.0 ==> AverageAsWritten(xs).value != c
  {
    SumConstant(xs, c);
    var n := |xs| as real;
    var v := AverageAsWritten(xs).value;
    assert v * (n - 1.0) == n * c;
    assert v * n - v == n * c;
  }

  /** average with every element counted: the loop of Average with `elems`
   *  starting at one for the first element. */
  method AverageCorrected(xs: seq<real>) returns (r: real)
    requires |xs| > 0
    ensures r == Mean(xs)
  {
    var output := xs[0];
    var elems := 1;
    var i := 1;
    assert xs[..1] == [xs[0]];
    while i < |xs|
      invariant 1 <= i <= |xs| && elems == i
      invariant output == Sum(xs[..i])
    {
      assert xs[..i + 1][..i] == xs[..i];
      output := output + xs[i];
      elems := elems + 1;
      i := i + 1;
    }
    assert xs[..i] == xs;
    r := output / elems as real;
  }

  /** The sum of a measure over a sequence. */
  function SumOf<X>(xs: seq<X>, m: X -> real): real
  {
    if xs == [] then 0.0 else SumOf(xs[..|xs| - 1], m) + m(xs[|xs| - 1])
  }

  /** What averageUnaryMeasure leaves in `value`. */
  function AverageUnaryValue<X>(xs: seq<X>, m: X -> real, value: real): (r: Option<real>)
    ensures r.None? <==> |xs| == 0
  {
    if |xs| == 0 then None else Some((value + SumOf(xs, m)) / |xs| as real)
  }

  /** averageUnaryMeasure: m of every element is added to the caller's
   *  `value`, which is then divided by the element count. */
  method AverageUnaryMeasure<X>(xs: seq<X>, m: X -> real, value: real) returns (r: Option<real>)
    ensures r == AverageUnaryValue(xs, m, value)
  {
    var acc := value;
    var elems := 0;
    while elems < |xs|
      invariant 0 <= elems <= |xs| && acc == value + SumOf(xs[..elems], m)
    {
      assert xs[..elems + 1][..elems] == xs[..elems];
      acc := acc + m(xs[elems]);
      elems := elems + 1;
    }
    assert xs[..elems] == xs;
    if elems == 0 {
      return None;
    }
    r := Some(acc / elems as real);
  }

  /** The pairs the binary loop visits: both ranges in lockstep, up to the
   *  end of the shorter one. */
  function Pairs<X, Y>(xs: seq<X>, ys: seq<Y>): (r: seq<(X, Y)>)
    ensures |r| == if |xs| < |ys| then |xs| else |ys|
    ensures forall i :: 0 <= i < |r| ==> r[i] == (xs[i], ys[i])
  {
    var k := if |xs| < |ys| then |xs| else |ys|;
    seq(k, i requires 0 <= i < k => (xs[i], ys[i]))
  }

  /** What averageBinaryMeasure leaves in `value`. */
  function AverageBinaryValue<X, Y>(xs: seq<X>, ys: seq<Y>, m: (X, Y) -> real, value: real): (r: Option<real>)
  {
    var k := if |xs| < |ys| then |xs| else |ys|;
    if k == 0 then None
    else Some((value + SumOf(Pairs(xs, ys), (p: (X, Y)) => m(p.0, p.1))) / k as real)
  }

  /** averageBinaryMeasure: m of each pair is added to `value`, stopping at
   *  the end of the shorter range, and the sum is divided by the number of
   *  pairs. */
  method AverageBinaryMeasure<X, Y>(xs: seq<X>, ys: seq<Y>, m: (X, Y) -> real, value: real)
    returns (r: Option<real>)
    ensures r == AverageBinaryValue(xs, ys, m, value)
  {
    var acc := value;
    var elems := 0;
    ghost var pairs := Pairs(xs, ys);
    ghost var pm := (p: (X, Y)) => m(p.0, p.1);
    while elems < |xs| && elems < |ys|
      invariant 0 <= elems <= |pairs| && acc == value + SumOf(pairs[..elems], pm)
    {
      assert pairs[..elems + 1][..elems] == pairs[..elems];
      acc := acc + m(xs[elems], ys[elems]);
      elems := elems + 1;
    }
    assert pairs[..elems] == pairs;
    if elems == 0 {
      return None;
    }
    r := Some(acc / elems as real);
  }

  /** The binary average is the unary average over the visited pairs. */
  lemma BinaryIsUnaryOverPairs<X, Y>(xs: seq<X>, ys: seq<Y>, m: (X, Y) -> real, value: real)
    ensures AverageBinaryValue(xs, ys, m, value) ==
      AverageUnaryValue(Pairs(xs, ys), (p: (X, Y)) => m(p.0, p.1), value)
  {
  }

  /** Averaging a constant measure from a zero start gives that constant. */
  lemma UnaryOfConstant<X>(xs: seq<X>, m: X -> real, c: real)
    requires |xs| > 0 && forall i :: 0 <= i < |xs| ==> m(xs[i]) == c
    ensures AverageUnaryValue(xs, m, 0.0) == Some(c)
  {
    SumOfConstant(xs, m, c);
    var n := |xs| as real;
    assert (0.0 + SumOf(xs, m)) / n * n == n * c;
  }

  lemma {:induction false} SumOfConstant<X>(xs: seq<X>, m: X -> real, c: real)
    requires forall i :: 0 <= i < |xs| ==> m(xs[i]) == c
    ensures SumOf(xs, m) == |xs| as real * c
  {
    if xs != [] {
      SumOfConstant(xs[..|xs| - 1], m, c);
    }
  }

  /** NullFunctor: the identity. */
  function NullFunctor<T>(t: T): (r: T)
    ensures r == t
  {
    t
  }
}
