/** BPTDissimilarity and the pdiss_value_less ordering.
 *
 *  A dissimilarity joins node `a` to node `b` with a value. Dissimilarity
 *  objects are identified by a key in an arena (`map<nat, Diss>`); the key
 *  stands for the object's address, which the ordering uses to break ties.
 *  The getters and setters are the fields of `Diss` and record update. */
module Dissimilarity {
  import opened Wrappers

  datatype Diss = Diss(a: nat, b: nat, value: real)

  /** getNeighbor: `a` is checked first, then `b`; any other node has no
   *  neighbour through this dissimilarity (null). */
  function GetNeighbor(d: Diss, n: nat): (r: Option<nat>)
    ensures r.Some? <==> (n == d.a || n == d.b)
    ensures n == d.a ==> r == Some(d.b)
    ensures n != d.a && n == d.b ==> r == Some(d.a)
  {
    if n == d.a then Some(d.b) else if n == d.b then Some(d.a) else None
  }

  /** The endpoint opposite `n` (for `n` an endpoint). */
  function Other(d: Diss, n: nat): (r: nat)
    ensures (n == d.a || n == d.b) ==> GetNeighbor(d, n) == Some(r)
  {
    if n == d.a then d.b else d.a
  }

  /** Following a dissimilarity twice from one of its two distinct endpoints
   *  comes back to that endpoint. */
  lemma NeighborOfNeighbor(d: Diss, n: nat)
    requires d.a != d.b && (n == d.a || n == d.b)
    ensures GetNeighbor(d, n).Some?
    ensures GetNeighbor(d, GetNeighbor(d, n).value) == Some(n)
    ensures GetNeighbor(d, n).value != n
  {
  }

  /** pdiss_value_less over arena keys: smaller value first, equal values
   *  ordered by identity. */
  predicate Less(E: map<nat, Diss>, x: nat, y: nat)
    requires x in E && y in E
  {
    E[x].value < E[y].value || (E[x].value == E[y].value && x < y)
  }

  lemma LessIrreflexive(E: map<nat, Diss>, x: nat)
    requires x in E
    ensures !Less(E, x, x)
  {
  }

  lemma LessTransitive(E: map<nat, Diss>, x: nat, y: nat, z: nat)
    requires x in E && y in E && z in E
    requires Less(E, x, y) && Less(E, y, z)
    ensures Less(E, x, z)
  {
  }

  /** For distinct keys exactly one direction holds, so an ordered set keeps
   *  every distinct dissimilarity. */
  lemma LessTrichotomous(E: map<nat, Diss>, x: nat, y: nat)
    requires x in E && y in E
    ensures x == y || Less(E, x, y) || Less(E, y, x)
    ensures !(Less(E, x, y) && Less(E, y, x))
  {
  }

  /** `f` is the first element of the ordered set `s`. */
  ghost predicate IsFirst(E: map<nat, Diss>, s: set<nat>, f: nat)
  {
    s <= E.Keys && f in s && forall y :: y in s && y != f ==> Less(E, f, y)
  }

  /** The first element of an ordered set has the minimum value. */
  lemma FirstHasMinimumValue(E: map<nat, Diss>, s: set<nat>, f: nat)
    requires IsFirst(E, s, f)
    ensures forall y :: y in s ==> E[f].value <= E[y].value
  {
  }

  /** The first element is unique. */
  lemma FirstUnique(E: map<nat, Diss>, s: set<nat>, f: nat, g: nat)
    requires IsFirst(E, s, f) && IsFirst(E, s, g)
    ensures f == g
  {
  }

  /** Every non-empty ordered set has a first element. */
  lemma {:induction false} FirstExists(E: map<nat, Diss>, s: set<nat>)
    requires s != {} && s <= E.Keys
    ensures exists f :: IsFirst(E, s, f)
    decreases s
  {
    var x :| x in s;
    if s == {x} {
      assert IsFirst(E, s, x);
    } else {
      FirstExists(E, s - {x});
      var g :| IsFirst(E, s - {x}, g);
      if Less(E, x, g) {
        forall y | y in s && y != x
          ensures Less(E, x, y)
        {
          if y != g { LessTransitive(E, x, g, y); }
        }
        assert IsFirst(E, s, x);
      } else {
        assert IsFirst(E, s, g);
      }
    }
  }

  /** `*set.begin()`: the first element of a non-empty ordered set. */
  method First(E: map<nat, Diss>, s: set<nat>) returns (f: nat)
    requires s != {} && s <= E.Keys
    ensures IsFirst(E, s, f)
  {
    f :| f in s;
    var rest := s - {f};
    while rest != {}
      invariant rest <= s && f in s && f !in rest
      invariant forall y :: y in s && y !in rest && y != f ==> Less(E, f, y)
      decreases rest
    {
      var y :| y in rest;
      if Less(E, y, f) {
        f := y;
      }
      rest := rest - {y};
    }
  }
}
