/** Position<NumDims>: a fixed array of NumDims coordinates with bounds-checked
 *  access by dimension index and the x/y/z shorthands. Coordinates are exact
 *  reals; the compile-time checks on NumDims become preconditions. */
module Positions {
  import opened Wrappers
  import opened CheckingPolicy

  class Position {
    const dims: nat
    const pos: array<real>

    predicate Valid()
      reads this
    {
      dims > 0 && pos.Length == dims
    }

    /** The coordinates in order. */
    function Coords(): (r: seq<real>)
      requires Valid()
      reads this, pos
      ensures |r| == dims
    {
      pos[..]
    }

    /** Position(x), only for one dimension. */
    constructor X(x: real)
      ensures Valid() && dims == 1 && fresh(pos)
      ensures Coords() == [x]
    {
      dims := 1;
      var a := new real[1];
      a[0] := x;
      pos := a;
    }

    /** Position(x, y), only for two dimensions. */
    constructor XY(x: real, y: real)
      ensures Valid() && dims == 2 && fresh(pos)
      ensures Coords() == [x, y]
    {
      dims := 2;
      var a := new real[2];
      a[0], a[1] := x, y;
      pos := a;
    }

    /** Position(x, y, z), only for three dimensions. */
    constructor XYZ(x: real, y: real, z: real)
      ensures Valid() && dims == 3 && fresh(pos)
      ensures Coords() == [x, y, z]
    {
      dims := 3;
      var a := new real[3];
      a[0], a[1], a[2] := x, y, z;
      pos := a;
    }

    /** Position(const CoordinateType*): copies the first n values in order. */
    constructor FromPointer(n: nat, src: seq<real>)
      requires n > 0 && |src| >= n
      ensures Valid() && dims == n && fresh(pos)
      ensures Coords() == src[..n]
    {
      dims := n;
      var a := new real[n];
      var i := 0;
      while i < n
        invariant 0 <= i <= n
        invariant a[..i] == src[..i]
        modifies a
      {
        a[i] := src[i];
        i := i + 1;
      }
      assert a[..] == a[..n];
      pos := a;
    }

    function GetNumberOfDimensions(): (r: nat)
      reads this
      ensures r == dims
    {
      dims
    }

    function GetX(): (r: real)
      requires Valid()
      reads this, pos
      ensures r == Coords()[0]
    {
      pos[0]
    }

    /** The second coordinate, or 0 below two dimensions. */
    function GetY(): (r: real)
      requires Valid()
      reads this, pos
      ensures dims >= 2 ==> r == Coords()[1]
      ensures dims < 2 ==> r == 0.0
    {
      if dims >= 2 then pos[1] else 0.0
    }

    /** The third coordinate, or 0 below three dimensions. */
    function GetZ(): (r: real)
      requires Valid()
      reads this, pos
      ensures dims >= 3 ==> r == Coords()[2]
      ensures dims < 3 ==> r == 0.0
    {
      if dims >= 3 then pos[2] else 0.0
    }

    /** getDim: invalid_argument for d ≥ NumDims, else coordinate d. */
    function GetDim(d: nat): (r: Result<real, Failure>)
      requires Valid()
      reads this, pos
      ensures r.Err? <==> d >= dims
      ensures r.Err? ==> r.error == InvalidArgument
      ensures r.Ok? ==> r.value == Coords()[d]
    {
      if d >= dims then Err(InvalidArgument) else Ok(pos[d])
    }

    /** setX: writes coordinate 0 and nothing else. */
    method SetX(x: real)
      requires Valid()
      modifies pos
      ensures Coords() == old(Coords())[0 := x]
    {
      pos[0] := x;
    }

    /** setDim: the same check as getDim; on failure nothing changes. */
    method SetDim(d: nat, x: real) returns (r: Result<(), Failure>)
      requires Valid()
      modifies pos
      ensures r.Err? <==> d >= dims
      ensures r.Err? ==> r.error == InvalidArgument && Coords() == old(Coords())
      ensures r.Ok? ==> Coords() == old(Coords())[d := x]
      ensures r.Ok? ==> GetDim(d) == Ok(x)
      ensures forall e :: 0 <= e < dims && e != d ==> GetDim(e) == old(GetDim(e))
    {
      if d >= dims {
        return Err(InvalidArgument);
      }
      pos[d] := x;
      r := Ok(());
    }

    /** setY, only with at least two dimensions. */
    method SetY(y: real)
      requires Valid() && dims >= 2
      modifies pos
      ensures Coords() == old(Coords())[1 := y] && GetY() == y
    {
      pos[1] := y;
    }

    /** setZ, only with at least three dimensions. */
    method SetZ(z: real)
      requires Valid() && dims >= 3
      modifies pos
      ensures Coords() == old(Coords())[2 := z] && GetZ() == z
    {
      pos[2] := z;
    }
  }

  /** The shorthands agree with getDim wherever the dimension exists, and
   *  getY/getZ fall back to zero exactly where getDim fails. */
  lemma ShorthandsAgree(p: Position)
    requires p.Valid()
    ensures p.GetDim(0) == Ok(p.GetX())
    ensures p.GetDim(1).Ok? ==> p.GetDim(1).value == p.GetY()
    ensures p.GetDim(1).Err? <==> p.GetY() == 0.0 && p.dims < 2
    ensures p.GetDim(2).Ok? ==> p.GetDim(2).value == p.GetZ()
    ensures p.GetDim(2).Err? <==> p.GetZ() == 0.0 && p.dims < 3
  {
  }
}
