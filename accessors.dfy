/** ArrayAccessor and LinearAccessor: `accessor(i, j, …)` for
 *  `data[i][j]…` on nested arrays and vectors, `data[i]` through a pointer,
 *  and a linearised view of a flat container whose extents are turned into
 *  suffix products once, at construction. */
module Accessors {
  import opened Arith
  import opened GridIndex

  // ----- ArrayAccessor over nested arrays and vectors -----

  /** A nested C array or vector of vectors: an element, or one level of
   *  items each of which may nest further. */
  datatype Nested<T> = Elem(value: T) | Level(items: seq<Nested<T>>)

  /** Every index of idx selects an item of the level it reaches. */
  predicate ValidPath<T>(d: Nested<T>, idx: seq<nat>)
  {
    idx == [] || (d.Level? && idx[0] < |d.items| && ValidPath(d.items[idx[0]], idx[1..]))
  }

  /** `accessor(i, j, …)` read: `data[i][j]…`, an element or a sub-array. */
  function At<T>(d: Nested<T>, idx: seq<nat>): Nested<T>
    requires ValidPath(d, idx)
  {
    if idx == [] then d else At(d.items[idx[0]], idx[1..])
  }

  /** `accessor(i, j, …) = v`: the write through the returned reference. */
  function Put<T>(d: Nested<T>, idx: seq<nat>, v: Nested<T>): (r: Nested<T>)
    requires ValidPath(d, idx)
    ensures ValidPath(r, idx)
    ensures idx != [] ==> r.Level? && |r.items| == |d.items|
  {
    if idx == [] then v
    else Level(d.items[idx[0] := Put(d.items[idx[0]], idx[1..], v)])
  }

  /** What is written through a reference is read back through it. */
  lemma {:induction false} AtPut<T>(d: Nested<T>, idx: seq<nat>, v: Nested<T>)
    requires ValidPath(d, idx)
    ensures At(Put(d, idx, v), idx) == v
  {
    if idx != [] {
      AtPut(d.items[idx[0]], idx[1..], v);
    }
  }

  /** A write leaves every other element of the same depth as it was. */
  lemma {:induction false} AtPutOther<T>(d: Nested<T>, idx: seq<nat>, v: Nested<T>, p: seq<nat>)
    requires ValidPath(d, idx) && ValidPath(d, p) && |p| == |idx| && p != idx
    ensures ValidPath(Put(d, idx, v), p) && At(Put(d, idx, v), p) == At(d, p)
  {
    if idx[0] == p[0] {
      assert idx[1..] != p[1..] by {
        assert idx == [idx[0]] + idx[1..] && p == [p[0]] + p[1..];
      }
      AtPutOther(d.items[idx[0]], idx[1..], v, p[1..]);
    }
  }

  // ----- ArrayAccessor over a pointer -----

  /** `accessor(i)` on a pointer: `data[i]`. */
  function PointerAt<T>(a: array<T>, i: nat): (r: T)
    requires i < a.Length
    reads a
    ensures r == a[..][i]
  {
    a[i]
  }

  /** `accessor(i) = v` on a pointer writes `data[i]` and nothing else. */
  method PointerPut<T>(a: array<T>, i: nat, v: T)
    requires i < a.Length
    modifies a
    ensures a[..] == old(a[..])[i := v]
    ensures PointerAt(a, i) == v
  {
    a[i] := v;
  }

  // ----- LinearAccessor -----

  /** What prepare_dims makes of the extents: each replaced by the product
   *  of itself and all later ones. */
  function SuffixProducts(e: seq<nat>): (r: seq<nat>)
    ensures |r| == |e|
  {
    seq(|e|, t requires 0 <= t < |e| => Product(e[t..]))
  }

  lemma SuffixTail(e: seq<nat>)
    requires |e| > 0
    ensures SuffixProducts(e)[1..] == SuffixProducts(e[1..])
    ensures SuffixProducts(e)[0] == Product(e)
  {
    forall t | 0 <= t < |e| - 1
      ensures SuffixProducts(e)[1..][t] == SuffixProducts(e[1..])[t]
    {
      assert e[1..][t..] == e[t + 1..];
    }
    assert e[0..] == e;
  }

  /** Σ rest[t]·w[t]: the extra indices k, l, … weighted by the extents
   *  after the first. */
  function Weighted(w: seq<nat>, rest: seq<nat>): nat
    requires |rest| <= |w|
  {
    if rest == [] then 0 else rest[0] * w[0] + Weighted(w[1..], rest[1..])
  }

  /** The element `(i, j, k, l, …)` reads: k·dims[1] + l·dims[2] + … +
   *  i·dims[0] + j. */
  function LinearIndex(dims: seq<nat>, i: nat, j: nat, rest: seq<nat>): nat
    requires |rest| < |dims|
  {
    Weighted(dims[1..], rest) + i * dims[0] + j
  }

  /** Index tuples inside the extents: each extra index below its extent,
   *  j below the product of the extents it spans. */
  predicate InExtents(e: seq<nat>, j: nat, rest: seq<nat>)
  {
    |rest| < |e| && (forall t :: 0 <= t < |rest| ==> rest[t] < e[t]) && j < Product(e[|rest|..])
  }

  /** Within a slice, the offset of (j, k, l, …) stays below the product of
   *  all extents. */
  lemma {:induction false} InnerBound(e: seq<nat>, j: nat, rest: seq<nat>)
    requires InExtents(e, j, rest)
    ensures Weighted(SuffixProducts(e)[1..], rest) + j < Product(e)
  {
    SuffixTail(e);
    if rest == [] {
      assert e[0..] == e;
    } else {
      var f := e[1..];
      SuffixTail(f + [0]);
      assert f[|rest| - 1..] == e[|rest|..];
      if |f| > 0 {
        SuffixTail(f);
      }
      InnerBound(f, j, rest[1..]);
      var inner := Weighted(SuffixProducts(f)[1..], rest[1..]) + j;
      DigitBound(rest[0], e[0], inner, Product(f));
    }
  }

  /** Within a slice, distinct in-extent tuples have distinct offsets. */
  lemma {:induction false} InnerInjective(e: seq<nat>, j: nat, rest: seq<nat>, j2: nat, rest2: seq<nat>)
    requires InExtents(e, j, rest) && InExtents(e, j2, rest2) && |rest| == |rest2|
    requires Weighted(SuffixProducts(e)[1..], rest) + j == Weighted(SuffixProducts(e)[1..], rest2) + j2
    ensures j == j2 && rest == rest2
  {
    SuffixTail(e);
    if rest != [] {
      var f := e[1..];
      assert f[|rest| - 1..] == e[|rest|..];
      if |f| > 0 {
        SuffixTail(f);
      }
      InnerBound(f, j, rest[1..]);
      InnerBound(f, j2, rest2[1..]);
      var inner := Weighted(SuffixProducts(f)[1..], rest[1..]) + j;
      var inner2 := Weighted(SuffixProducts(f)[1..], rest2[1..]) + j2;
      MixedRadix(rest[0], inner, rest2[0], inner2, Product(f));
      InnerInjective(f, j, rest[1..], j2, rest2[1..]);
      assert rest == [rest[0]] + rest[1..] && rest2 == [rest2[0]] + rest2[1..];
    }
  }

  /** With prepared extents e, `(i, j, k, …)` is the row-major position of
   *  (i, k, l, …, j): i selects a block of Product(e) elements, and
   *  distinct in-extent tuples never share an element. */
  lemma LinearLayout(e: seq<nat>, i: nat, j: nat, rest: seq<nat>, i2: nat, j2: nat, rest2: seq<nat>)
    requires InExtents(e, j, rest) && InExtents(e, j2, rest2) && |rest| == |rest2|
    ensures i * Product(e) <= LinearIndex(SuffixProducts(e), i, j, rest) < (i + 1) * Product(e)
    ensures LinearIndex(SuffixProducts(e), i, j, rest) == LinearIndex(SuffixProducts(e), i2, j2, rest2)
      ==> i == i2 && j == j2 && rest == rest2
  {
    SuffixTail(e);
    InnerBound(e, j, rest);
    InnerBound(e, j2, rest2);
    var inner := Weighted(SuffixProducts(e)[1..], rest) + j;
    var inner2 := Weighted(SuffixProducts(e)[1..], rest2) + j2;
    assert (i + 1) * Product(e) == i * Product(e) + Product(e);
    if LinearIndex(SuffixProducts(e), i, j, rest) == LinearIndex(SuffixProducts(e), i2, j2, rest2) {
      MixedRadix(i, inner, i2, inner2, Product(e));
      InnerInjective(e, j, rest, j2, rest2);
    }
  }

  /** LinearAccessor over a flat container reached through a pointer. */
  class LinearAccessor<T> {
    const data: array<T>
    var dims: seq<nat>

    /** The constructors with zero to seven extents push them in order and,
     *  from two extents on, run prepare_dims; with fewer it would change
     *  nothing, so the extents always end up as suffix products. */
    constructor (target: array<T>, extents: seq<nat>)
      requires |extents| <= 7
      ensures data == target && dims == SuffixProducts(extents)
    {
      data := target;
      dims := extents;
      new;
      if |extents| >= 2 {
        PrepareDims();
      } else if |extents| == 1 {
        SingleExtent(extents[0]);
        assert extents == [extents[0]];
      }
    }

    /** prepare_dims: from the second-to-last extent down to the first, each
     *  is multiplied by the (already updated) next one. */
    method PrepareDims()
      modifies this
      ensures dims == SuffixProducts(old(dims))
    {
      ghost var e := dims;
      var i: int := |dims| - 2;
      if |e| > 0 {
        assert e[|e| - 1..][1..] == [];
      }
      while i >= 0
        invariant -2 <= i <= |e| - 2 && |dims| == |e|
        invariant |e| > 0 ==> i >= -1
        invariant forall t :: 0 <= t < |e| ==> dims[t] == if t > i then Product(e[t..]) else e[t]
      {
        assert e[i..][1..] == e[i + 1..];
        dims := dims[i := dims[i] * dims[i + 1]];
        i := i - 1;
      }
    }

    /** `(i)`: passes straight through to the container. */
    function Get1(i: nat): (r: T)
      requires i < data.Length
      reads data
      ensures r == data[..][i]
    {
      data[i]
    }

    /** `(i, j, k, …)` with up to six extra indices; it asserts that enough
     *  extents exist. */
    function Get(i: nat, j: nat, rest: seq<nat>): (r: T)
      requires |rest| < |dims| && |rest| <= 6
      requires LinearIndex(dims, i, j, rest) < data.Length
      reads this, data
      ensures r == Get1(LinearIndex(dims, i, j, rest))
    {
      data[LinearIndex(dims, i, j, rest)]
    }

    method Set1(i: nat, v: T)
      requires i < data.Length
      modifies data
      ensures data[..] == old(data[..])[i := v] && Get1(i) == v
    {
      data[i] := v;
    }

    method Set(i: nat, j: nat, rest: seq<nat>, v: T)
      requires |rest| < |dims| && |rest| <= 6
      requires LinearIndex(dims, i, j, rest) < data.Length
      modifies data
      ensures data[..] == old(data[..])[LinearIndex(dims, i, j, rest) := v]
      ensures Get(i, j, rest) == v
    {
      data[LinearIndex(dims, i, j, rest)] := v;
    }
  }

  /** A single extent is its own suffix product. */
  lemma SingleExtent(d: nat)
    ensures SuffixProducts([d]) == [d]
  {
    assert [d][0..] == [d] && [d][1..] == [];
    assert Product([d]) == d * Product([]);
  }

  /** With a single extent d1, `(i, j)` is the row-major i·d1 + j, as the
   *  callers that linearise an image by its column count use it. */
  lemma OneExtent(d1: nat, i: nat, j: nat)
    ensures LinearIndex(SuffixProducts([d1]), i, j, []) == i * d1 + j
  {
    SingleExtent(d1);
  }
}
