/**
 * The `ConsistentHash` object: its fields, its two constructors (the
 * `NewConsistentHash` factory and Go's zero value) and the operations
 * AddNode, RemoveNode and GetNode, each proved against the value model in
 * RingModel. Every operation runs as one atomic step; the read/write lock
 * that makes this so is not modelled.
 */
module ConsistentHashing {
  import opened Positions
  import opened Decimal
  import opened RingModel

  class ConsistentHash {
    /** The sorted positions of all virtual replicas, with duplicates. */
    var circle: seq<uint32>
    /** R, the number of virtual replicas per node, fixed for the ring's life. */
    const virtualNodeCount: int
    /** Position to the node that claimed it first. */
    var nodeHashMap: map<uint32, string>
    /** False while `circle` and `nodeHashMap` are still nil (a zero-valued struct). */
    var initialised: bool
    /** Position of a string; CRC32 (IEEE) of its bytes in the Go code. */
    const hash: string -> uint32

    function State(): Ring
      reads this
    {
      Ring(circle, nodeHashMap)
    }

    ghost predicate Valid()
      reads this
    {
      RingModel.Valid(State()) && OwnsOnlyReplicas(hash, virtualNodeCount, State()) &&
      (!initialised ==> circle == [] && nodeHashMap == map[])
    }

    /** The replica positions of `node`, in the order AddNode and RemoveNode visit them. */
    function ReplicasOf(node: string): (ps: seq<uint32>)
      ensures |ps| == if virtualNodeCount > 0 then virtualNodeCount else 0
    {
      Replicas(hash, node, virtualNodeCount)
    }

    /** `NewConsistentHash(virtualNodeCount)`: an empty ring, both collections allocated. */
    constructor (virtualNodeCount: int, hash: string -> uint32)
      ensures Valid() && initialised
      ensures circle == [] && nodeHashMap == map[]
      ensures this.virtualNodeCount == virtualNodeCount && this.hash == hash
    {
      this.circle := [];
      this.virtualNodeCount := virtualNodeCount;
      this.nodeHashMap := map[];
      this.initialised := true;
      this.hash := hash;
    }

    /** `&ConsistentHash{}`: nil circle, nil map, no replicas. */
    constructor Zero(hash: string -> uint32)
      ensures Valid() && !initialised
      ensures circle == [] && nodeHashMap == map[]
      ensures virtualNodeCount == 0 && this.hash == hash
    {
      this.circle := [];
      this.virtualNodeCount := 0;
      this.nodeHashMap := map[];
      this.initialised := false;
      this.hash := hash;
    }

    /**
     * Appends the R replica positions of `node`, gives each one that has no
     * owner yet to `node`, and re-sorts the circle.
     */
    method AddNode(node: string)
      requires Valid()
      modifies this
      ensures Valid() && initialised
      ensures State() == Added(old(State()), ReplicasOf(node), node)
      ensures Covered(old(State())) ==> Covered(State())
    {
      if !initialised {
        initialised := true;
      }
      ghost var r := State();
      ghost var ps := ReplicasOf(node);
      var i := 0;
      while i < virtualNodeCount
        invariant 0 <= i <= |ps|
        invariant initialised
        invariant State() == Appended(r, ps[..i], node)
      {
        var virtualNode := VName(node, i);
        var hashValue := hash(virtualNode);
        ReplicasAt(hash, node, virtualNodeCount, i);
        AppendedPrefix(r, ps, i, node);
        circle := circle + [hashValue];
        if hashValue !in nodeHashMap {
          nodeHashMap := nodeHashMap[hashValue := node];
        }
        i := i + 1;
      }
      assert ps[..i] == ps;
      circle := SortSeq(circle);
      AddedValid(r, ps, node);
      AddedOwnsOnlyReplicas(hash, virtualNodeCount, r, node);
      if Covered(r) {
        AddedCovered(r, ps, node);
      }
    }

    /**
     * For each replica position of `node`, deletes one occurrence of it from
     * the circle together with its map entry when the lower-bound search
     * finds it, then re-sorts. A no-op on a ring whose collections are nil.
     */
    method RemoveNode(node: string)
      requires Valid()
      modifies this`circle, this`nodeHashMap
      ensures Valid()
      ensures !old(initialised) ==> circle == old(circle) && nodeHashMap == old(nodeHashMap)
      ensures old(initialised) ==> State() == Removed(old(State()), ReplicasOf(node))
      ensures node != "" ==> forall h :: Lookup(State(), h) != node
    {
      if !initialised {
        return;
      }
      ghost var r := State();
      ghost var ps := ReplicasOf(node);
      var i := 0;
      while i < virtualNodeCount
        invariant 0 <= i <= |ps|
        invariant State() == RemoveSteps(r, ps[..i])
        invariant RingModel.Valid(State())
      {
        var virtualNode := VName(node, i);
        var hashValue := hash(virtualNode);
        ReplicasAt(hash, node, virtualNodeCount, i);
        RemoveStepsPrefix(r, ps, i);
        DeletePosition(hashValue);
        i := i + 1;
      }
      assert ps[..i] == ps;
      SortSeqOfSorted(circle);
      circle := SortSeq(circle);
      RemovedOwnsOnlyReplicas(hash, virtualNodeCount, r, ps);
      if node != "" {
        forall h | true
          ensures Lookup(State(), h) != node
        {
          RemovalComplete(hash, virtualNodeCount, r, node, h);
        }
      }
    }

    /**
     * The body of RemoveNode's loop for one replica position `h`: a
     * lower-bound search, and on an exact hit the splice that deletes that
     * one occurrence together with the map entry for `h`.
     */
    method DeletePosition(h: uint32)
      requires RingModel.Valid(State())
      modifies this`circle, this`nodeHashMap
      ensures State() == RemoveStep(old(State()), h)
      ensures RingModel.Valid(State())
    {
      ghost var before := State();
      RemoveStepSpec(before, h);
      var idx := LowerBound(circle, h);
      RemoveStepAt(before, h, idx);
      if idx < |circle| && circle[idx] == h {
        circle := circle[..idx] + circle[idx + 1..];
        nodeHashMap := nodeHashMap - {h};
      }
    }

    /**
     * The node owning `key`: the owner of the first position at or after
     * the key's hash, wrapping to the first position; "" for an empty or
     * nil ring and for a position that lost its owner.
     */
    method GetNode(key: string) returns (node: string)
      requires Valid()
      ensures node == Lookup(State(), hash(key))
      ensures node == "" || node in nodeHashMap.Values
      ensures |circle| == 0 ==> node == ""
    {
      if !initialised {
        return "";
      }
      if |circle| == 0 {
        return "";
      }
      var hashValue := hash(key);
      var idx := LowerBound(circle, hashValue);
      if idx == |circle| {
        idx := 0;
      }
      if circle[idx] !in nodeHashMap {
        return "";
      }
      node := nodeHashMap[circle[idx]];
    }
  }

  /** Adds `nodes` in order to an empty, allocated ring. */
  method AddAll(ring: ConsistentHash, nodes: seq<string>)
    requires ring.Valid() && ring.initialised && ring.State() == Empty
    modifies ring
    ensures ring.Valid() && ring.initialised
    ensures ring.State() == Build(ring.hash, ring.virtualNodeCount, nodes)
  {
    var k := 0;
    while k < |nodes|
      invariant 0 <= k <= |nodes|
      invariant ring.Valid() && ring.initialised
      invariant ring.State() == Build(ring.hash, ring.virtualNodeCount, nodes[..k])
    {
      BuildPrefix(ring.hash, ring.virtualNodeCount, nodes, k);
      ring.AddNode(nodes[k]);
      k := k + 1;
    }
    assert nodes[..k] == nodes;
  }

  /**
   * The repository's test: a fresh ring with R replicas, the given nodes
   * added in order, a lookup of `key`, the removal of `removed`, and a second
   * lookup. Whatever the hash function, the first answer is an added node;
   * the second is never the removed node; and the answer stays the same when
   * the position the key first resolved to is not a replica of the removed
   * node.
   */
  method GetNodeAfterRemovingNode(virtualNodeCount: int, hash: string -> uint32, nodes: seq<string>,
                                  key: string, removed: string)
    returns (before: string, after: string)
    ensures virtualNodeCount > 0 && |nodes| > 0 ==> before in nodes
    ensures nodes == [] ==> before == "" && after == ""
    ensures removed != "" ==> after != removed
    ensures var b := Build(hash, virtualNodeCount, nodes);
      |b.circle| > 0 && b.circle[ResolvedIndex(b.circle, hash(key))] !in Replicas(hash, removed, virtualNodeCount)
      ==> after == before
  {
    var ring := new ConsistentHash(virtualNodeCount, hash);
    AddAll(ring, nodes);
    before := ring.GetNode(key);
    ghost var b := ring.State();
    ring.RemoveNode(removed);
    after := ring.GetNode(key);
    assert after == Lookup(Removed(b, Replicas(hash, removed, virtualNodeCount)), hash(key));
    BuildThenRemove(hash, virtualNodeCount, nodes, removed, hash(key));
  }
}
