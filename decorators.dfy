/** AddHomogeneity: a decorator that keeps, beside the wrapped model, the
 *  total sum of squared errors (TSS) of the region, updated on merge by the
 *  classical between-group term dist2(a, b)·na·nb/(na + nb). */
module Homogeneity {
  import opened RegionModel

  datatype Homog<B> = Homog(base: B, tss: real)

  /** The default and parameter constructors: the wrapped model as given,
   *  and a TSS of zero. */
  function FromBase<B>(p: B): (r: Homog<B>)
    ensures r.base == p && TotalSumOfSquares(r) == 0.0
  {
    Homog(p, 0.0)
  }

  /** getTotalSumOfSquares. */
  function TotalSumOfSquares<B>(m: Homog<B>): real
  {
    m.tss
  }

  /** The between-group term dist2(a, b)·na·nb/(na + nb). */
  function Spread<B>(ops: BaseOps<B>, a: B, b: B): real
    requires ops.subnodes(a) + ops.subnodes(b) > 0
  {
    ops.dist2(a, b) * ops.subnodes(a) as real * ops.subnodes(b) as real
      / (ops.subnodes(a) + ops.subnodes(b)) as real
  }

  /** The spread is never negative when dist2 is not, and positive when the
   *  two models are at a positive distance and both cover leaves. */
  lemma SpreadSign<B>(ops: BaseOps<B>, a: B, b: B)
    requires ops.subnodes(a) + ops.subnodes(b) > 0
    ensures ops.dist2(a, b) >= 0.0 ==> Spread(ops, a, b) >= 0.0
    ensures ops.dist2(a, b) > 0.0 && ops.subnodes(a) > 0 && ops.subnodes(b) > 0 ==> Spread(ops, a, b) > 0.0
  {
    var d, na, nb := ops.dist2(a, b), ops.subnodes(a) as real, ops.subnodes(b) as real;
    var n := (ops.subnodes(a) + ops.subnodes(b)) as real;
    var p := d * na * nb;
    DivTimes(p, n);
    if d >= 0.0 {
      assert d * na >= 0.0;
      assert p >= 0.0;
      assert Spread(ops, a, b) * n == p;
    }
    if d > 0.0 && na > 0.0 && nb > 0.0 {
      assert d * na > 0.0;
      assert p > 0.0;
      assert Spread(ops, a, b) * n == p;
    }
  }

  /** jointSumOfSquares: the TSS the merge of the two regions would have. */
  function JointSumOfSquares<B>(ops: BaseOps<B>, a: Homog<B>, b: Homog<B>): (r: real)
    requires ops.subnodes(a.base) + ops.subnodes(b.base) > 0
    ensures r == a.tss + b.tss + Spread(ops, a.base, b.base)
    ensures ops.dist2(a.base, b.base) >= 0.0 ==> r >= a.tss + b.tss
  {
    SpreadSign(ops, a.base, b.base);
    a.tss + b.tss + Spread(ops, a.base, b.base)
  }

  /** merge: the wrapped models merged, and the TSS jointSumOfSquares
   *  predicts; neither operand changes. */
  function Merge<B>(ops: BaseOps<B>, a: Homog<B>, b: Homog<B>): (r: Homog<B>)
    requires ops.subnodes(a.base) + ops.subnodes(b.base) > 0
    ensures r.base == ops.merge(a.base, b.base)
    ensures r.tss == JointSumOfSquares(ops, a, b)
    ensures a.tss >= 0.0 && b.tss >= 0.0 && ops.dist2(a.base, b.base) >= 0.0 ==> r.tss >= 0.0
  {
    Homog(ops.merge(a.base, b.base), JointSumOfSquares(ops, a, b))
  }

  /** unmerge as written: the wrapped model r is unmerged, and the TSS
   *  becomes t − t_b + dist2(r, b)·nr·nb/(nr + nb). */
  function UnmergeAsWritten<B>(ops: BaseOps<B>, m: Homog<B>, b: Homog<B>): (r: Homog<B>)
    requires ops.subnodes(ops.unmerge(m.base, b.base)) + ops.subnodes(b.base) > 0
    ensures r.base == ops.unmerge(m.base, b.base)
    ensures r.tss == m.tss - b.tss + Spread(ops, r.base, b.base)
  {
    var base := ops.unmerge(m.base, b.base);
    Homog(base, m.tss - b.tss + Spread(ops, base, b.base))
  }

  /** unmerge with the between-group term subtracted, the inverse of the
   *  TSS update merge makes. */
  function Unmerge<B>(ops: BaseOps<B>, m: Homog<B>, b: Homog<B>): (r: Homog<B>)
    requires ops.subnodes(ops.unmerge(m.base, b.base)) + ops.subnodes(b.base) > 0
    ensures r.base == ops.unmerge(m.base, b.base)
    ensures r.tss + b.tss + Spread(ops, r.base, b.base) == m.tss
  {
    var base := ops.unmerge(m.base, b.base);
    Homog(base, m.tss - b.tss - Spread(ops, base, b.base))
  }

  /** Whenever the wrapped model's unmerge undoes its merge, unmerge undoes
   *  merge on the decorated model too, TSS included. */
  lemma UnmergeMerge<B>(ops: BaseOps<B>, a: Homog<B>, b: Homog<B>)
    requires ops.subnodes(a.base) + ops.subnodes(b.base) > 0
    requires ops.unmerge(ops.merge(a.base, b.base), b.base) == a.base
    ensures Unmerge(ops, Merge(ops, a, b), b) == a
  {
  }

  /** As written, the round trip restores the wrapped model but adds the
   *  between-group term where it should subtract it: the TSS comes back too
   *  large by twice that term, so a positive distance between two nonempty
   *  regions never gives a back. */
  lemma UnmergeAsWrittenOvercounts<B>(ops: BaseOps<B>, a: Homog<B>, b: Homog<B>)
    requires ops.subnodes(a.base) + ops.subnodes(b.base) > 0
    requires ops.unmerge(ops.merge(a.base, b.base), b.base) == a.base
    ensures UnmergeAsWritten(ops, Merge(ops, a, b), b).base == a.base
    ensures UnmergeAsWritten(ops, Merge(ops, a, b), b).tss == a.tss + 2.0 * Spread(ops, a.base, b.base)
    ensures ops.dist2(a.base, b.base) > 0.0 && ops.subnodes(a.base) > 0 && ops.subnodes(b.base) > 0 ==>
      UnmergeAsWritten(ops, Merge(ops, a, b), b) != a
  {
    SpreadSign(ops, a.base, b.base);
  }

  /** initializeToZero: the TSS and the wrapped model are both reset. */
  function InitializeToZero<B>(ops: BaseOps<B>, m: Homog<B>): (r: Homog<B>)
    ensures r.base == ops.zero(m.base) && r.tss == 0.0
  {
    Homog(ops.zero(m.base), 0.0)
  }
}

/** AddLogDetAverage: a decorator that keeps the subnode-weighted average of
 *  the leaves' |log det| values; log_det itself is a parameter. */
module LogDetAverage {
  import opened RegionModel

  datatype LogDetModel<B> = LogDetModel(base: B, avg: real)

  function Abs(x: real): real
  {
    if x < 0.0 then -x else x
  }

  /** The parameter constructor: the average starts at |log_det(base)|. */
  function FromBase<B>(p: B, logDet: B -> real): (r: LogDetModel<B>)
    ensures r.base == p && r.avg >= 0.0
    ensures r.avg == logDet(p) || r.avg == -logDet(p)
  {
    LogDetModel(p, Abs(logDet(p)))
  }

  /** jointLogDetAverage: the subnode-weighted mean of both averages, which
   *  lies between them. */
  function JointLogDetAverage<B>(ops: BaseOps<B>, a: LogDetModel<B>, b: LogDetModel<B>): (r: real)
    requires ops.subnodes(a.base) + ops.subnodes(b.base) > 0
    ensures r * (ops.subnodes(a.base) + ops.subnodes(b.base)) as real ==
      a.avg * ops.subnodes(a.base) as real + b.avg * ops.subnodes(b.base) as real
    ensures a.avg <= b.avg ==> a.avg <= r <= b.avg
    ensures b.avg <= a.avg ==> b.avg <= r <= a.avg
  {
    var na, nb := ops.subnodes(a.base), ops.subnodes(b.base);
    WeightedMeanBetween(a.avg, na, b.avg, nb);
    DivTimes(a.avg * na as real + b.avg * nb as real, (na + nb) as real);
    WeightedMean(a.avg, na, b.avg, nb)
  }

  /** merge: the wrapped models merged and the joint average stored. */
  function Merge<B>(ops: BaseOps<B>, a: LogDetModel<B>, b: LogDetModel<B>): (r: LogDetModel<B>)
    requires ops.subnodes(a.base) + ops.subnodes(b.base) > 0
    ensures r.base == ops.merge(a.base, b.base)
    ensures r.avg == JointLogDetAverage(ops, a, b)
  {
    LogDetModel(ops.merge(a.base, b.base), JointLogDetAverage(ops, a, b))
  }

  /** unmerge: (L·n − L_b·n_b)/(n − n_b), where n is this model's count; the
   *  counts are unsigned, so b must cover fewer subnodes. */
  function Unmerge<B>(ops: BaseOps<B>, m: LogDetModel<B>, b: LogDetModel<B>): (r: LogDetModel<B>)
    requires ops.subnodes(m.base) > ops.subnodes(b.base)
    ensures r.base == ops.unmerge(m.base, b.base)
    ensures r.avg * (ops.subnodes(m.base) - ops.subnodes(b.base)) as real + b.avg * ops.subnodes(b.base) as real ==
      m.avg * ops.subnodes(m.base) as real
  {
    var n, nb := ops.subnodes(m.base), ops.subnodes(b.base);
    var p := m.avg * n as real - b.avg * nb as real;
    DivTimes(p, (n - nb) as real);
    LogDetModel(ops.unmerge(m.base, b.base), p / (n - nb) as real)
  }

  /** Whenever the wrapped model's merge adds the counts and its unmerge
   *  undoes its merge, unmerge undoes merge on the decorated model too. */
  lemma UnmergeMerge<B>(ops: BaseOps<B>, a: LogDetModel<B>, b: LogDetModel<B>)
    requires ops.subnodes(a.base) > 0
    requires ops.subnodes(ops.merge(a.base, b.base)) == ops.subnodes(a.base) + ops.subnodes(b.base)
    requires ops.unmerge(ops.merge(a.base, b.base), b.base) == a.base
    ensures Unmerge(ops, Merge(ops, a, b), b) == a
  {
    WeightedMeanUndo(a.avg, ops.subnodes(a.base), b.avg, ops.subnodes(b.base));
  }

  /** initializeToZero: the average and the wrapped model are both reset. */
  function InitializeToZero<B>(ops: BaseOps<B>, m: LogDetModel<B>): (r: LogDetModel<B>)
    ensures r.base == ops.zero(m.base) && r.avg == 0.0
  {
    LogDetModel(ops.zero(m.base), 0.0)
  }
}
