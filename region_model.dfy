/** RegionModelWithSubnodes and RegionModelWithSubnodesAndPosition: a region
 *  counts the leaves (subnodes) it covers, and the positioned variant keeps
 *  the subnode-weighted mean of its leaves' coordinates. Floating-point
 *  coordinates are exact reals here. */
module RegionModel {

  /** RegionModelWithSubnodes: one mutable counter. */
  class SubnodesModel {
    var subnodes: nat

    /** The default constructor covers one leaf. */
    constructor Default()
      ensures subnodes == 1
    {
      subnodes := 1;
    }

    constructor (n: nat)
      ensures subnodes == n
    {
      subnodes := n;
    }

    function GetSubnodes(): (r: nat)
      reads this
      ensures r == subnodes
    {
      subnodes
    }

    method SetSubnodes(n: nat)
      modifies this
      ensures subnodes == n && GetSubnodes() == n
    {
      subnodes := n;
    }

    /** The static merge writes the sum of both counts into `out`, which may
     *  be one of the operands. */
    static method MergeInto(a: SubnodesModel, b: SubnodesModel, out: SubnodesModel)
      modifies out
      ensures out.subnodes == old(a.subnodes) + old(b.subnodes)
      ensures a != out ==> a.subnodes == old(a.subnodes)
      ensures b != out ==> b.subnodes == old(b.subnodes)
    {
      out.subnodes := a.subnodes + b.subnodes;
    }
  }

  /** RegionModelWithSubnodesAndPosition<Dims>: a subnode count and one
   *  coordinate per dimension. */
  datatype PositionedRegion = PositionedRegion(subnodes: nat, pos: seq<real>)

  /** The constructors from a position: one subnode unless a count is given. */
  function FromPosition(pos: seq<real>, subnodes: nat := 1): (r: PositionedRegion)
    ensures r.subnodes == subnodes && r.pos == pos
    ensures NumberOfDims(r) == |pos|
  {
    PositionedRegion(subnodes, pos)
  }

  /** getNumberOfDims: the template parameter Dims, the length of `pos`. */
  function NumberOfDims(m: PositionedRegion): nat
  {
    |m.pos|
  }

  /** The weighted mean (x·na + y·nb)/(na + nb) every merge computes. */
  function WeightedMean(x: real, na: nat, y: real, nb: nat): real
    requires na + nb > 0
  {
    (x * na as real + y * nb as real) / (na + nb) as real
  }

  /** Real division undone by the same nonzero factor. */
  lemma DivTimes(p: real, n: real)
    requires n != 0.0
    ensures (p / n) * n == p && (p * n) / n == p
  {
  }

  lemma WeightedMeanBetween(x: real, na: nat, y: real, nb: nat)
    requires na + nb > 0
    ensures x <= y ==> x <= WeightedMean(x, na, y, nb) <= y
    ensures y <= x ==> y <= WeightedMean(x, na, y, nb) <= x
    ensures na == 0 ==> WeightedMean(x, na, y, nb) == y
    ensures nb == 0 ==> WeightedMean(x, na, y, nb) == x
  {
    var n := (na + nb) as real;
    var p := x * na as real + y * nb as real;
    var m := WeightedMean(x, na, y, nb);
    DivTimes(p, n);
    assert m * n == p;
    if na == 0 {
      DivTimes(y, n);
    }
    if nb == 0 {
      DivTimes(x, n);
    }
    if x <= y {
      assert x * nb as real <= y * nb as real;
      assert x * na as real <= y * na as real;
      assert x * n <= m * n <= y * n;
    } else {
      assert y * na as real <= x * na as real;
      assert y * nb as real <= x * nb as real;
      assert y * n <= m * n <= x * n;
    }
  }

  /** Undoing a weighted mean: (m·(na + nb) − y·nb)/na gives x back. */
  lemma WeightedMeanUndo(x: real, na: nat, y: real, nb: nat)
    requires na > 0
    ensures (WeightedMean(x, na, y, nb) * (na + nb) as real - y * nb as real) / na as real == x
  {
    var n := (na + nb) as real;
    DivTimes(x * na as real + y * nb as real, n);
    DivTimes(x, na as real);
  }

  /** The value-returning merge, and the out-parameter and static merges
   *  when the result object is neither operand (those write the result's
   *  count before reading the operands', so an aliased result would read
   *  the new count): counts add, coordinates become the subnode-weighted
   *  means, and neither operand changes. */
  function Merge(a: PositionedRegion, b: PositionedRegion): (r: PositionedRegion)
    requires |a.pos| == |b.pos| && a.subnodes + b.subnodes > 0
    ensures r.subnodes == a.subnodes + b.subnodes && |r.pos| == |a.pos|
    ensures forall i :: 0 <= i < |r.pos| ==>
      r.pos[i] * r.subnodes as real == a.pos[i] * a.subnodes as real + b.pos[i] * b.subnodes as real
  {
    PositionedRegion(a.subnodes + b.subnodes,
      seq(|a.pos|, i requires 0 <= i < |a.pos| => WeightedMean(a.pos[i], a.subnodes, b.pos[i], b.subnodes)))
  }

  /** Each merged coordinate lies between the operands' coordinates. */
  lemma MergeBetween(a: PositionedRegion, b: PositionedRegion, i: nat)
    requires |a.pos| == |b.pos| && a.subnodes + b.subnodes > 0 && i < |a.pos|
    ensures a.pos[i] <= b.pos[i] ==> a.pos[i] <= Merge(a, b).pos[i] <= b.pos[i]
    ensures b.pos[i] <= a.pos[i] ==> b.pos[i] <= Merge(a, b).pos[i] <= a.pos[i]
  {
    WeightedMeanBetween(a.pos[i], a.subnodes, b.pos[i], b.subnodes);
  }

  /** Merging is symmetric in its operands. */
  lemma MergeCommutes(a: PositionedRegion, b: PositionedRegion)
    requires |a.pos| == |b.pos| && a.subnodes + b.subnodes > 0
    ensures Merge(a, b) == Merge(b, a)
  {
    var r, s := Merge(a, b), Merge(b, a);
    forall i | 0 <= i < |r.pos|
      ensures r.pos[i] == s.pos[i]
    {
      assert r.pos[i] * r.subnodes as real == s.pos[i] * s.subnodes as real;
    }
  }

  /** What the AddHomogeneity and AddLogDetAverage decorators use of the
   *  model they wrap: its value-returning merge and unmerge, its subnode
   *  count, the squared distance dist2 of two models, and its own
   *  initializeToZero. */
  datatype BaseOps<!B> = BaseOps(
    merge: (B, B) -> B,
    unmerge: (B, B) -> B,
    subnodes: B -> nat,
    dist2: (B, B) -> real,
    zero: B -> B)
}
