/** FullCheckingPolicy and NullCheckingPolicy. A thrown exception or a
 *  failed C assert is an error result; the Null policy checks nothing. */
module CheckingPolicy {
  import opened Wrappers
  import opened GridIndex

  datatype Policy = Full | Null

  /** The exceptions the Full policy throws, a failed assert, the
   *  out_of_range a checked vector access (`at`) throws, and the
   *  invalid_argument of a rejected parameter. */
  datatype Failure = LengthError | RuntimeError | IosFailure | AssertionFailed | OutOfRange | InvalidArgument

  /** infoCheck, warnCheck, errorCheck and fatalCheck: the Full policy
   *  passes the tested condition through, the Null policy answers false so
   *  that the guarded code never runs. */
  function Test(p: Policy, arg: bool): (r: bool)
    ensures r ==> arg
    ensures p.Full? ==> (r <==> arg)
    ensures p.Null? ==> !r
  {
    p.Full? && arg
  }

  /** infoAssert ... fatalAssert: only the Full policy asserts. */
  function Assert(p: Policy, arg: bool): (r: Option<Failure>)
    ensures r.Some? <==> p.Full? && !arg
    ensures r.Some? ==> r.value == AssertionFailed
  {
    if p.Full? && !arg then Some(AssertionFailed) else None
  }

  /** sizeMatches over a dimension vector: the first dimension times every
   *  later one must equal the data length. The vector is read at index 0
   *  without a check, so it must not be empty. */
  method SizeMatches(p: Policy, totalSize: nat, dims: seq<nat>) returns (r: Option<Failure>)
    requires |dims| > 0
    ensures r.Some? <==> p.Full? && totalSize != Product(dims)
    ensures r.Some? ==> r.value == LengthError
  {
    if p.Null? {
      return None;
    }
    var total := dims[0];
    var i := 1;
    while i < |dims|
      invariant 1 <= i <= |dims| && total == Product(dims[..i])
    {
      ProductSnoc(dims[..i], dims[i]);
      assert dims[..i + 1] == dims[..i] + [dims[i]];
      total := total * dims[i];
      i := i + 1;
    }
    assert dims[..1] == [dims[0]];
    assert dims[..i] == dims;
    r := if totalSize != total then Some(LengthError) else None;
  }

  /** The one-, two- and three-dimension overloads of sizeMatches. */
  function SizeMatches3(p: Policy, totalSize: nat, d1: nat, d2: nat, d3: nat): (r: Option<Failure>)
    ensures r.Some? <==> p.Full? && totalSize != Product([d1, d2, d3])
    ensures r.Some? ==> r.value == LengthError
  {
    assert Product([d1, d2, d3]) == d1 * d2 * d3 by {
      assert [d1, d2, d3][1..] == [d2, d3] && [d2, d3][1..] == [d3] && [d3][1..] == [];
      assert Product([d3]) == d3;
      assert Product([d2, d3]) == d2 * d3;
      assert d1 * (d2 * d3) == d1 * d2 * d3;
    }
    if p.Full? && totalSize != d1 * d2 * d3 then Some(LengthError) else None
  }

  function SizeMatches2(p: Policy, totalSize: nat, d1: nat, d2: nat): (r: Option<Failure>)
    ensures r.Some? <==> p.Full? && totalSize != Product([d1, d2])
    ensures r.Some? ==> r.value == LengthError
  {
    assert Product([d1, d2]) == d1 * d2 by {
      assert [d1, d2][1..] == [d2] && [d2][1..] == [];
      assert Product([d2]) == d2;
    }
    if p.Full? && totalSize != d1 * d2 then Some(LengthError) else None
  }

  function SizeMatches1(p: Policy, totalSize: nat, d1: nat): (r: Option<Failure>)
    ensures r.Some? <==> p.Full? && totalSize != Product([d1])
    ensures r.Some? ==> r.value == LengthError
  {
    assert [d1][1..] == [];
    if p.Full? && totalSize != d1 then Some(LengthError) else None
  }

  /** dimensionsEqual: a runtime error when the two sizes differ. */
  function DimensionsEqual(p: Policy, d1: int, d2: int): (r: Option<Failure>)
    ensures r.Some? <==> p.Full? && d1 != d2
    ensures r.Some? ==> r.value == RuntimeError
  {
    if p.Full? && d1 != d2 then Some(RuntimeError) else None
  }

  /** pointerIsNotNull: a runtime error on a null pointer. */
  function PointerIsNotNull<T>(p: Policy, ptr: Option<T>): (r: Option<Failure>)
    ensures r.Some? <==> p.Full? && ptr.None?
    ensures r.Some? ==> r.value == RuntimeError
  {
    if p.Full? && ptr.None? then Some(RuntimeError) else None
  }

  /** ioStateOK: an ios_failure when the stream's fail flag is set. */
  function IoStateOk(p: Policy, fail: bool): (r: Option<Failure>)
    ensures r.Some? <==> p.Full? && fail
    ensures r.Some? ==> r.value == IosFailure
  {
    if p.Full? && fail then Some(IosFailure) else None
  }
}
