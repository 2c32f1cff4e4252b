/** A node of the lattice: one ownable parcel with an optional owner and a
    lease counter that runs down once per tick. */
module Nodes {
  import opened Types

  /** The mutable part of a node, as a value: who holds it and for how many
      more ticks. */
  datatype NodeState = NodeState(owner: Option<int>, lease: int)

  /** The lease invariant: a node is held exactly while its lease is running,
      and a lease never exceeds its full length. */
  predicate LeaseConsistent(s: NodeState) {
    (s.owner.Some? <==> s.lease > 0) && 0 <= s.lease <= LeaseLength
  }

  /** State after one call of `Node.age`. */
  function Aged(s: NodeState): (r: NodeState)
    ensures LeaseConsistent(s) ==> LeaseConsistent(r)
    ensures r.owner == s.owner || r.owner == None
    ensures s.lease > 0 ==> r.lease == s.lease - 1 && (r.owner == None <==> s.lease == 1 || s.owner == None)
    ensures s.lease <= 0 ==> r == s
  {
    if s.lease > 0 then
      var l := s.lease - 1;
      NodeState(if l == 0 then None else s.owner, l)
    else
      s
  }

  /** State after `k` consecutive ages. */
  function AgedTimes(s: NodeState, k: nat): NodeState
    decreases k
  {
    if k == 0 then s else AgedTimes(Aged(s), k - 1)
  }

  lemma {:induction false} UnownedStaysUnowned(k: nat)
    ensures AgedTimes(NodeState(None, 0), k) == NodeState(None, 0)
  {
    if k > 0 {
      UnownedStaysUnowned(k - 1);
    }
  }

  /** The lease law: a node bought with `lease` ticks left stays with its buyer
      for exactly `lease` ages, counting down, and is free from then on. */
  lemma {:induction false} LeaseRunsOut(p: int, lease: int, k: nat)
    requires lease >= 1
    ensures AgedTimes(NodeState(Some(p), lease), k)
         == if k < lease then NodeState(Some(p), lease - k) else NodeState(None, 0)
  {
    if k > 0 {
      if lease == 1 {
        UnownedStaysUnowned(k - 1);
      } else {
        LeaseRunsOut(p, lease - 1, k - 1);
      }
    }
  }

  /** A freshly purchased node is held for exactly `LeaseLength` ticks. */
  lemma PurchasedHeldForLease(p: int, k: nat)
    ensures AgedTimes(NodeState(Some(p), LeaseLength), k).owner == Some(p) <==> k < LeaseLength
  {
    LeaseRunsOut(p, LeaseLength, k);
  }

  class Node {
    const x: int
    const y: int
    var owner: Option<int>
    var leaseRemaining: int

    ghost function State(): NodeState
      reads this
    {
      NodeState(owner, leaseRemaining)
    }

    constructor (x: int, y: int)
      ensures this.x == x && this.y == y
      ensures owner == None && leaseRemaining == 0
    {
      this.x := x;
      this.y := y;
      owner := None;
      leaseRemaining := 0;
    }

    /** A node with a consistent lease is owned exactly while its lease runs. */
    predicate IsOwned()
      reads this
      ensures LeaseConsistent(State()) ==> (IsOwned() <==> leaseRemaining > 0)
    {
      owner.Some?
    }

    /** Hands the node to player `p` for a full lease. */
    method Purchase(p: int)
      modifies this
      ensures State() == NodeState(Some(p), LeaseLength)
    {
      owner := Some(p);
      leaseRemaining := LeaseLength;
    }

    /** One tick of the lease clock. */
    method Age()
      modifies this
      ensures State() == Aged(old(State()))
    {
      if leaseRemaining > 0 {
        leaseRemaining := leaseRemaining - 1;
        if leaseRemaining == 0 {
          owner := None;
        }
      }
    }
  }

  /** Node equality as written: two nodes are equal when their hash values
      `x * 1000 + y` are equal. */
  function HashValue(x: int, y: int): (h: int)
    ensures 0 <= y < 1000 ==> h / 1000 == x && h % 1000 == y
  {
    x * 1000 + y
  }

  predicate SameNodeByHash(a: Node, b: Node)
    ensures SameNode(a, b) ==> SameNodeByHash(a, b)
  {
    HashValue(a.x, a.y) == HashValue(b.x, b.y)
  }

  /** Two different lattice points share a hash once the grid is 1000 high:
      the nodes (0, 1000) and (1, 0) compare equal as written. */
  lemma HashCollides(a: Node, b: Node)
    requires a.x == 0 && a.y == 1000 && b.x == 1 && b.y == 0
    ensures SameNodeByHash(a, b) && !SameNode(a, b)
  {
  }

  /** Node equality by coordinates, which is what the board relies on. */
  predicate SameNode(a: Node, b: Node)
  {
    a.x == b.x && a.y == b.y
  }

  /** Below height 1000 the hash identifies the coordinates, so there the two
      equalities agree. */
  lemma HashAgreesBelow1000(a: Node, b: Node)
    requires 0 <= a.y < 1000 && 0 <= b.y < 1000
    ensures SameNodeByHash(a, b) <==> SameNode(a, b)
  {
  }
}
