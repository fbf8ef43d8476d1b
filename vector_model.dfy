/** VectorModel: a region described by the subnode-weighted mean of its
 *  leaves' value vectors and coordinates, with the squared norm and squared
 *  distance used by the homogeneity decorator. Doubles are exact reals. */
module VectorModels {
  import opened Wrappers
  import opened CheckingPolicy
  import opened RegionModel

  datatype VectorModel = VectorModel(vector: seq<real>, position: seq<real>, subnodes: nat)

  /** The pixel constructor: one subnode, the pixel's coordinates in
   *  dimension order, and a copy of its value vector. */
  function FromPixel(coords: seq<real>, value: seq<real>): (r: VectorModel)
    ensures r.subnodes == 1 && r.position == coords && r.vector == value
    ensures NumElems(r) == |value|
  {
    VectorModel(value, coords, 1)
  }

  /** getNumElems. */
  function NumElems(m: VectorModel): nat
  {
    |m.vector|
  }

  /** operator()(i) and getDim(n) read through `at`, which throws
   *  out_of_range past the end. */
  function Elem(m: VectorModel, i: nat): (r: Result<real, Failure>)
    ensures r.Ok? <==> i < |m.vector|
    ensures r.Ok? ==> r.value == m.vector[i]
    ensures r.Err? ==> r.error == OutOfRange
  {
    if i < |m.vector| then Ok(m.vector[i]) else Err(OutOfRange)
  }

  function Dim(m: VectorModel, n: nat): (r: Result<real, Failure>)
    ensures r.Ok? <==> n < |m.position|
    ensures r.Ok? ==> r.value == m.position[n]
    ensures r.Err? ==> r.error == OutOfRange
  {
    if n < |m.position| then Ok(m.position[n]) else Err(OutOfRange)
  }

  /** operator*=: every element scaled in place; nothing else changes. */
  method Scale(m: VectorModel, b: real) returns (r: VectorModel)
    ensures r.position == m.position && r.subnodes == m.subnodes
    ensures |r.vector| == |m.vector|
    ensures forall i :: 0 <= i < |r.vector| ==> r.vector[i] == m.vector[i] * b
  {
    var v := m.vector;
    var i := 0;
    while i < |v|
      invariant 0 <= i <= |v| == |m.vector|
      invariant forall k :: 0 <= k < i ==> v[k] == m.vector[k] * b
      invariant forall k :: i <= k < |v| ==> v[k] == m.vector[k]
    {
      v := v[i := v[i] * b];
      i := i + 1;
    }
    r := m.(vector := v);
  }

  /** operator+=: b's elements added in place, over this model's length
   *  (b is read without a bounds check, so it must be at least as long). */
  method Add(m: VectorModel, b: VectorModel) returns (r: VectorModel)
    requires |b.vector| >= |m.vector|
    ensures r.position == m.position && r.subnodes == m.subnodes
    ensures |r.vector| == |m.vector|
    ensures forall i :: 0 <= i < |r.vector| ==> r.vector[i] == m.vector[i] + b.vector[i]
  {
    var v := m.vector;
    var i := 0;
    while i < |v|
      invariant 0 <= i <= |v| == |m.vector|
      invariant forall k :: 0 <= k < i ==> v[k] == m.vector[k] + b.vector[k]
      invariant forall k :: i <= k < |v| ==> v[k] == m.vector[k]
    {
      v := v[i := v[i] + b.vector[i]];
      i := i + 1;
    }
    r := m.(vector := v);
  }

  /** The elementwise weighted mean of two equally long prefixes. */
  function MeanOf(x: seq<real>, na: nat, y: seq<real>, nb: nat): (r: seq<real>)
    requires |y| >= |x| && na + nb > 0
    ensures |r| == |x|
    ensures forall i :: 0 <= i < |r| ==> r[i] == WeightedMean(x[i], na, y[i], nb)
  {
    seq(|x|, i requires 0 <= i < |x| => WeightedMean(x[i], na, y[i], nb))
  }

  /** merge: a copy of this model with the counts added and every element
   *  and coordinate replaced by the subnode-weighted mean. b is read without
   *  a bounds check. */
  function Merge(a: VectorModel, b: VectorModel): (r: VectorModel)
    requires |b.vector| >= |a.vector| && |b.position| >= |a.position|
    requires a.subnodes + b.subnodes > 0
    ensures r.subnodes == a.subnodes + b.subnodes
    ensures |r.vector| == |a.vector| && |r.position| == |a.position|
    ensures forall i :: 0 <= i < |r.vector| ==>
      r.vector[i] * r.subnodes as real == a.vector[i] * a.subnodes as real + b.vector[i] * b.subnodes as real
    ensures forall i :: 0 <= i < |r.position| ==>
      r.position[i] * r.subnodes as real == a.position[i] * a.subnodes as real + b.position[i] * b.subnodes as real
  {
    VectorModel(MeanOf(a.vector, a.subnodes, b.vector, b.subnodes),
                MeanOf(a.position, a.subnodes, b.position, b.subnodes),
                a.subnodes + b.subnodes)
  }

  /** The elementwise inverse of MeanOf: (m·n − y·nb)/(n − nb). */
  function UnmeanOf(m: seq<real>, n: nat, y: seq<real>, nb: nat): (r: seq<real>)
    requires |y| >= |m| && n > nb
    ensures |r| == |m|
    ensures forall i :: 0 <= i < |r| ==> r[i] == (m[i] * n as real - y[i] * nb as real) / (n - nb) as real
  {
    seq(|m|, i requires 0 <= i < |m| => (m[i] * n as real - y[i] * nb as real) / (n - nb) as real)
  }

  /** unmerge as written: the elements are recomputed in place, but each
   *  recomputed coordinate is pushed after the copied ones. The count is an
   *  unsigned difference, so b must cover fewer subnodes than this model. */
  function UnmergeAsWritten(m: VectorModel, b: VectorModel): (r: VectorModel)
    requires |b.vector| >= |m.vector| && |b.position| >= |m.position|
    requires m.subnodes > b.subnodes
    ensures r.subnodes == m.subnodes - b.subnodes
    ensures r.vector == UnmeanOf(m.vector, m.subnodes, b.vector, b.subnodes)
    ensures |r.position| == 2 * |m.position| && r.position[..|m.position|] == m.position
  {
    VectorModel(UnmeanOf(m.vector, m.subnodes, b.vector, b.subnodes),
                m.position + UnmeanOf(m.position, m.subnodes, b.position, b.subnodes),
                m.subnodes - b.subnodes)
  }

  /** unmerge with the recomputed coordinates stored in place, as the
   *  element loop does. */
  function Unmerge(m: VectorModel, b: VectorModel): (r: VectorModel)
    requires |b.vector| >= |m.vector| && |b.position| >= |m.position|
    requires m.subnodes > b.subnodes
    ensures r.subnodes == m.subnodes - b.subnodes
    ensures |r.vector| == |m.vector| && |r.position| == |m.position|
    ensures forall i :: 0 <= i < |r.vector| ==>
      r.vector[i] * r.subnodes as real + b.vector[i] * b.subnodes as real == m.vector[i] * m.subnodes as real
    ensures forall i :: 0 <= i < |r.position| ==>
      r.position[i] * r.subnodes as real + b.position[i] * b.subnodes as real == m.position[i] * m.subnodes as real
  {
    UnmeanTimes(m.vector, m.subnodes, b.vector, b.subnodes);
    UnmeanTimes(m.position, m.subnodes, b.position, b.subnodes);
    VectorModel(UnmeanOf(m.vector, m.subnodes, b.vector, b.subnodes),
                UnmeanOf(m.position, m.subnodes, b.position, b.subnodes),
                m.subnodes - b.subnodes)
  }

  /** Each inverse mean, weighted by the remaining count, adds back up to
   *  the merged total. */
  lemma UnmeanTimes(m: seq<real>, n: nat, y: seq<real>, nb: nat)
    requires |y| >= |m| && n > nb
    ensures forall i :: 0 <= i < |m| ==>
      UnmeanOf(m, n, y, nb)[i] * (n - nb) as real + y[i] * nb as real == m[i] * n as real
  {
    var r := UnmeanOf(m, n, y, nb);
    forall i | 0 <= i < |m|
      ensures r[i] * (n - nb) as real + y[i] * nb as real == m[i] * n as real
    {
      DivTimes(m[i] * n as real - y[i] * nb as real, (n - nb) as real);
    }
  }

  /** Over exact reals, removing b from the merge of a and b gives a back,
   *  whenever a covers at least one subnode. */
  lemma UnmergeMerge(a: VectorModel, b: VectorModel)
    requires |a.vector| == |b.vector| && |a.position| == |b.position| && a.subnodes > 0
    ensures Unmerge(Merge(a, b), b) == a
  {
    UnmeanOfMean(a.vector, a.subnodes, b.vector, b.subnodes);
    UnmeanOfMean(a.position, a.subnodes, b.position, b.subnodes);
  }

  /** Elementwise, the inverse mean recovers the first operand. */
  lemma UnmeanOfMean(x: seq<real>, na: nat, y: seq<real>, nb: nat)
    requires |y| >= |x| && na > 0
    ensures UnmeanOf(MeanOf(x, na, y, nb), na + nb, y, nb) == x
  {
    var r := UnmeanOf(MeanOf(x, na, y, nb), na + nb, y, nb);
    forall i | 0 <= i < |x|
      ensures r[i] == x[i]
    {
      WeightedMeanUndo(x[i], na, y[i], nb);
    }
  }


  /** As written, the round trip restores the count and the vector but
   *  doubles the coordinate list: it never gives a back when a has any
   *  coordinate. */
  lemma UnmergeAsWrittenDoublesPosition(a: VectorModel, b: VectorModel)
    requires |a.vector| == |b.vector| && |a.position| == |b.position| && a.subnodes > 0
    ensures var r := UnmergeAsWritten(Merge(a, b), b);
      r.subnodes == a.subnodes && r.vector == a.vector &&
      |r.position| == 2 * |a.position| &&
      (|a.position| > 0 ==> r != a)
  {
    var m := Merge(a, b);
    var r := UnmergeAsWritten(m, b);
    forall i | 0 <= i < |a.vector|
      ensures r.vector[i] == a.vector[i]
    {
      WeightedMeanUndo(a.vector[i], a.subnodes, b.vector[i], b.subnodes);
    }
  }

  /** The sum of squares of a sequence, accumulated from the front. */
  function SumSquares(v: seq<real>): real
  {
    if v == [] then 0.0 else SumSquares(v[..|v| - 1]) + v[|v| - 1] * v[|v| - 1]
  }

  /** The elementwise difference a − b over a's length. */
  function Diff(a: seq<real>, b: seq<real>): (r: seq<real>)
    requires |b| >= |a|
    ensures |r| == |a| && forall i :: 0 <= i < |a| ==> r[i] == a[i] - b[i]
  {
    seq(|a|, i requires 0 <= i < |a| => a[i] - b[i])
  }

  /** A sum of squares is never negative, and it is zero when every
   *  element is zero. */
  lemma {:induction false} SumSquaresNonNegative(v: seq<real>)
    ensures SumSquares(v) >= 0.0
    ensures (forall i :: 0 <= i < |v| ==> v[i] == 0.0) ==> SumSquares(v) == 0.0
  {
    if v != [] {
      var w := v[..|v| - 1];
      var x := v[|v| - 1];
      SumSquaresNonNegative(w);
      assert x * x >= 0.0;
      if forall i :: 0 <= i < |v| ==> v[i] == 0.0 {
        assert forall i :: 0 <= i < |w| ==> w[i] == v[i];
        assert x == 0.0;
      }
    }
  }

  /** norm2: the loop adds each element's square to a zero start. */
  method Norm2(m: VectorModel) returns (r: real)
    ensures r == SumSquares(m.vector)
    ensures r >= 0.0 && ((forall i :: 0 <= i < |m.vector| ==> m.vector[i] == 0.0) ==> r == 0.0)
  {
    r := 0.0;
    var i := 0;
    while i < |m.vector|
      invariant 0 <= i <= |m.vector| && r == SumSquares(m.vector[..i])
    {
      assert m.vector[..i + 1][..i] == m.vector[..i];
      r := r + m.vector[i] * m.vector[i];
      i := i + 1;
    }
    assert m.vector[..i] == m.vector;
    SumSquaresNonNegative(m.vector);
  }

  /** The squared distance of two models: the sum of squared differences
   *  over a's elements. */
  function Dist2Value(a: VectorModel, b: VectorModel): real
    requires |b.vector| >= |a.vector|
  {
    SumSquares(Diff(a.vector, b.vector))
  }

  /** dist2: the loop reads both models through `at`, so a b shorter than a
   *  throws out_of_range when its end is reached. */
  method Dist2(a: VectorModel, b: VectorModel) returns (r: Result<real, Failure>)
    ensures r.Err? <==> |b.vector| < |a.vector|
    ensures r.Err? ==> r.error == OutOfRange
    ensures r.Ok? ==> r.value == Dist2Value(a, b)
  {
    var acc := 0.0;
    var i := 0;
    while i < |a.vector|
      invariant 0 <= i <= |a.vector| && i <= |b.vector|
      invariant acc == SumSquares(seq(i, k requires 0 <= k < i => a.vector[k] - b.vector[k]))
    {
      if i >= |b.vector| {
        return Err(OutOfRange);
      }
      ghost var before := seq(i, k requires 0 <= k < i => a.vector[k] - b.vector[k]);
      ghost var after := seq(i + 1, k requires 0 <= k < i + 1 => a.vector[k] - b.vector[k]);
      assert after[..i] == before;
      acc := acc + (a.vector[i] - b.vector[i]) * (a.vector[i] - b.vector[i]);
      i := i + 1;
    }
    assert seq(i, k requires 0 <= k < i => a.vector[k] - b.vector[k]) == Diff(a.vector, b.vector);
    r := Ok(acc);
  }

  /** The squared distance is non-negative, symmetric, and zero from a
   *  model to itself. */
  lemma Dist2Metric(a: VectorModel, b: VectorModel)
    requires |a.vector| == |b.vector|
    ensures Dist2Value(a, b) >= 0.0
    ensures Dist2Value(a, b) == Dist2Value(b, a)
    ensures Dist2Value(a, a) == 0.0
  {
    SumSquaresNonNegative(Diff(a.vector, b.vector));
    SumSquaresNonNegative(Diff(a.vector, a.vector));
    SquaresOfNegation(Diff(a.vector, b.vector), Diff(b.vector, a.vector));
  }

  /** Negating every element leaves the sum of squares unchanged. */
  lemma {:induction false} SquaresOfNegation(d: seq<real>, e: seq<real>)
    requires |d| == |e| && forall i :: 0 <= i < |d| ==> e[i] == -d[i]
    ensures SumSquares(d) == SumSquares(e)
  {
    if d != [] {
      var n := |d| - 1;
      SquaresOfNegation(d[..n], e[..n]);
      assert e[n] * e[n] == d[n] * d[n];
    }
  }
}
