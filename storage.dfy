/** NativeStorage: objects are created and removed through static
 *  functions that keep a signed `balance` of creations minus removals.
 *  Pointers are ids into the arena of created objects; the removal policy
 *  either deletes the object (it leaves the live set) or does nothing, as
 *  for smart pointers. */
module Storage {

  datatype RemovalPolicy = DeleteRemoval | NoRemoval

  /** The storage of one object type with its static counter. */
  class NativeStorage<T> {
    const removal: RemovalPolicy
    var balance: int
    var objects: seq<T>
    var live: set<nat>
    ghost var creates: nat
    ghost var removes: nat

    /** The counter equals creations minus removals, and every live id
     *  names a created object. */
    ghost predicate Valid()
      reads this
    {
      balance == creates - removes && forall id :: id in live ==> id < |objects|
    }

    /** The static counter starts at zero. */
    constructor (removal: RemovalPolicy)
      ensures Valid() && this.removal == removal
      ensures balance == 0 && objects == [] && live == {} && creates == 0 && removes == 0
    {
      this.removal := removal;
      balance := 0;
      objects := [];
      live := {};
      creates := 0;
      removes := 0;
    }

    /** Every create overload: one new object, from whatever arguments its
     *  constructor takes, and the counter goes up by one. */
    method Create(t: T) returns (id: nat)
      requires Valid()
      modifies this
      ensures Valid()
      ensures balance == old(balance) + 1 && creates == old(creates) + 1 && removes == old(removes)
      ensures id == |old(objects)| && objects == old(objects) + [t] && live == old(live) + {id}
    {
      id := |objects|;
      objects := objects + [t];
      live := live + {id};
      balance := balance + 1;
      creates := creates + 1;
    }

    /** remove: the counter goes down by one whatever the pointer, then the
     *  removal policy runs; DeleteRemovalPolicy deletes the object. */
    method Remove(id: nat)
      requires Valid()
      modifies this
      ensures Valid()
      ensures balance == old(balance) - 1 && removes == old(removes) + 1 && creates == old(creates)
      ensures objects == old(objects)
      ensures live == if removal.DeleteRemoval? then old(live) - {id} else old(live)
    {
      balance := balance - 1;
      removes := removes + 1;
      if removal.DeleteRemoval? {
        live := live - {id};
      }
    }
  }
}
