/** The node orderings pnode_bigger, pnode_smaller and pnode_later. A node is
 *  seen through its identity (which stands for its address and is also its
 *  id) and the subnode count of its region model. */
module PNodeComparators {
  datatype NodeKey = NodeKey(id: nat, subnodes: nat)

  /** More subnodes first; equal counts ordered by identity. */
  predicate Bigger(x: NodeKey, y: NodeKey)
  {
    x.subnodes > y.subnodes || (x.subnodes == y.subnodes && x.id < y.id)
  }

  /** Fewer subnodes first; equal counts ordered by identity. */
  predicate Smaller(x: NodeKey, y: NodeKey)
  {
    x.subnodes < y.subnodes || (x.subnodes == y.subnodes && x.id < y.id)
  }

  /** Larger id first. */
  predicate Later(x: NodeKey, y: NodeKey)
  {
    x.id > y.id
  }

  /** Each ordering is a strict order: irreflexive and transitive. */
  lemma StrictOrders(x: NodeKey, y: NodeKey, z: NodeKey)
    ensures !Bigger(x, x) && !Smaller(x, x) && !Later(x, x)
    ensures Bigger(x, y) && Bigger(y, z) ==> Bigger(x, z)
    ensures Smaller(x, y) && Smaller(y, z) ==> Smaller(x, z)
    ensures Later(x, y) && Later(y, z) ==> Later(x, z)
  {
  }

  /** On nodes with distinct identities exactly one direction holds. */
  lemma TotalOnDistinctIds(x: NodeKey, y: NodeKey)
    requires x.id != y.id
    ensures Bigger(x, y) != Bigger(y, x)
    ensures Smaller(x, y) != Smaller(y, x)
    ensures Later(x, y) != Later(y, x)
  {
  }

  /** When the subnode counts differ, pnode_bigger is pnode_smaller reversed;
   *  when they are equal both fall back to the same identity order. */
  lemma BiggerIsSmallerReversed(x: NodeKey, y: NodeKey)
    ensures x.subnodes != y.subnodes ==> (Bigger(x, y) <==> Smaller(y, x))
    ensures x.subnodes == y.subnodes ==> (Bigger(x, y) <==> Smaller(x, y))
  {
  }
}
