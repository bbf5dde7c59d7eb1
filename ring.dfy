/**
 * The ring as a value: the sorted circle of hash positions (duplicates
 * allowed) and the map from position to owning node. Each operation of the
 * ring is a function on this value that follows the Go code step by step;
 * the lemmas say what those steps add up to.
 */
module RingModel {
  import opened Positions
  import opened Decimal

  datatype Ring = Ring(circle: seq<uint32>, owners: map<uint32, string>)

  /** The state `NewConsistentHash` creates. */
  const Empty: Ring := Ring([], map[])

  /**
   * Holds in every reachable state: the circle is sorted and every owned
   * position occurs on the circle. The converse (no circle position without
   * an owner) is Covered; RemoveNode can break it.
   */
  predicate Valid(r: Ring) {
    Sorted(r.circle) && forall p :: p in r.owners ==> p in r.circle
  }

  /** Every circle position has an owner: no orphans. */
  predicate Covered(r: Ring) {
    forall p :: p in r.circle ==> p in r.owners
  }

  /** The positions of the first `count` virtual replicas of `node`, in loop order. */
  function Replicas(hash: string -> uint32, node: string, count: int): (ps: seq<uint32>)
    ensures |ps| == if count > 0 then count else 0
    decreases count
  {
    if count <= 0 then []
    else Replicas(hash, node, count - 1) + [hash(VName(node, count - 1))]
  }

  /** Replica `i` of `node` sits at the hash of the name `node + Itoa(i)`. */
  lemma {:induction false} ReplicasAt(hash: string -> uint32, node: string, count: int, i: nat)
    requires i < count
    ensures Replicas(hash, node, count)[i] == hash(VName(node, i))
    decreases count
  {
    if i < count - 1 {
      ReplicasAt(hash, node, count - 1, i);
    }
  }

  /**
   * The ownership updates of AddNode's loop, in order: a position is given
   * to `node` only when nobody owns it yet (first writer wins).
   */
  function Claim(owners: map<uint32, string>, ps: seq<uint32>, node: string): map<uint32, string>
    decreases |ps|
  {
    if ps == [] then owners
    else
      var m := Claim(owners, ps[..|ps| - 1], node);
      var p := ps[|ps| - 1];
      if p in m then m else m[p := node]
  }

  /** First writer wins: old owners stay, every new position goes to `node`, nothing else is added. */
  lemma {:induction false} ClaimSpec(owners: map<uint32, string>, ps: seq<uint32>, node: string)
    ensures Claim(owners, ps, node).Keys == owners.Keys + Elems(ps)
    ensures forall p :: p in owners ==> Claim(owners, ps, node)[p] == owners[p]
    ensures forall p :: p in ps && p !in owners ==> Claim(owners, ps, node)[p] == node
    decreases |ps|
  {
    if ps != [] {
      var init := ps[..|ps| - 1];
      ClaimSpec(owners, init, node);
      SplitLast(ps);
      forall p | p in ps && p !in owners
        ensures Claim(owners, ps, node)[p] == node
      {
        assert p in Elems(ps);
        if p != ps[|ps| - 1] {
          assert p in Elems(init);
        }
      }
    }
  }

  /** The state AddNode's loop leaves behind after the positions `ps`, before the re-sort. */
  function Appended(r: Ring, ps: seq<uint32>, node: string): Ring {
    Ring(r.circle + ps, Claim(r.owners, ps, node))
  }

  /** One more iteration of AddNode's loop over a prefix of `ps`. */
  lemma AppendedPrefix(r: Ring, ps: seq<uint32>, i: nat, node: string)
    requires i < |ps|
    ensures Appended(r, ps[..i + 1], node)
         == var a := Appended(r, ps[..i], node);
            Ring(a.circle + [ps[i]], if ps[i] in a.owners then a.owners else a.owners[ps[i] := node])
  {
    assert ps[..i + 1][..i] == ps[..i];
    assert r.circle + ps[..i + 1] == (r.circle + ps[..i]) + [ps[i]];
  }

  /** AddNode on the value: append every replica position, claim the free ones, re-sort. */
  function Added(r: Ring, ps: seq<uint32>, node: string): Ring {
    var a := Appended(r, ps, node);
    Ring(SortSeq(a.circle), a.owners)
  }

  /**
   * Adding sorts the old and the new positions together, keeps every old
   * owner, and gives exactly the unowned new positions to `node`.
   */
  lemma AddedSpec(r: Ring, ps: seq<uint32>, node: string)
    ensures Sorted(Added(r, ps, node).circle)
    ensures multiset(Added(r, ps, node).circle) == multiset(r.circle) + multiset(ps)
    ensures |Added(r, ps, node).circle| == |r.circle| + |ps|
    ensures Added(r, ps, node).owners.Keys == r.owners.Keys + Elems(ps)
    ensures forall p :: p in r.owners ==> Added(r, ps, node).owners[p] == r.owners[p]
    ensures forall p :: p in ps && p !in r.owners ==> Added(r, ps, node).owners[p] == node
  {
    var c := Added(r, ps, node).circle;
    assert |multiset(c)| == |c|;
    ClaimSpec(r.owners, ps, node);
  }

  lemma AddedValid(r: Ring, ps: seq<uint32>, node: string)
    requires Valid(r)
    ensures Valid(Added(r, ps, node))
  {
    AddedSpec(r, ps, node);
    var r' := Added(r, ps, node);
    forall p | p in r'.owners
      ensures p in r'.circle
    {
      assert p in multiset(r.circle) || p in multiset(ps);
      assert p in multiset(r'.circle);
    }
  }

  /** A ring without orphans keeps that property when a node is added. */
  lemma AddedCovered(r: Ring, ps: seq<uint32>, node: string)
    requires Covered(r)
    ensures Covered(Added(r, ps, node))
  {
    AddedSpec(r, ps, node);
    var r' := Added(r, ps, node);
    forall p | p in r'.circle
      ensures p in r'.owners
    {
      assert p in multiset(r'.circle);
      assert p in multiset(r.circle) || p in multiset(ps);
      assert p in r.circle || p in ps;
    }
  }

  /**
   * One iteration of RemoveNode's loop: a lower-bound search for `p`, and on
   * an exact hit the deletion of that one occurrence and of the map entry.
   */
  function RemoveStep(r: Ring, p: uint32): Ring {
    var j := FirstAtLeast(r.circle, p);
    if j < |r.circle| && r.circle[j] == p then
      Ring(RemoveAt(r.circle, j), r.owners - {p})
    else
      r
  }

  lemma RemoveStepSpec(r: Ring, p: uint32)
    requires Valid(r)
    ensures Valid(RemoveStep(r, p))
    ensures multiset(RemoveStep(r, p).circle) == multiset(r.circle) - multiset{p}
    ensures RemoveStep(r, p).owners == r.owners - {p}
    ensures |RemoveStep(r, p).circle| >= |r.circle| - 1
  {
    FirstAtLeastFinds(r.circle, p);
    var j := FirstAtLeast(r.circle, p);
    if j < |r.circle| && r.circle[j] == p {
      RemoveHit(r, p, j);
    } else {
      RemoveMiss(r, p);
    }
  }

  /** An exact hit deletes one occurrence and the key, and keeps every other key on the circle. */
  lemma RemoveHit(r: Ring, p: uint32, j: nat)
    requires Valid(r) && j < |r.circle| && r.circle[j] == p
    ensures Valid(Ring(RemoveAt(r.circle, j), r.owners - {p}))
  {
    var c' := RemoveAt(r.circle, j);
    forall q | q in r.owners - {p}
      ensures q in c'
    {
      assert q in multiset(r.circle);
      assert multiset(c')[q] == multiset(r.circle)[q];
    }
  }

  /** A position that is not on the circle owns nothing, so removing it changes nothing. */
  lemma RemoveMiss(r: Ring, p: uint32)
    requires Valid(r) && p !in r.circle
    ensures multiset(r.circle) - multiset{p} == multiset(r.circle)
    ensures r.owners - {p} == r.owners
  {
    assert multiset(r.circle)[p] == 0;
  }

  /**
   * RemoveNode deletes the map entry of a position whoever owns it. When the
   * position occurs more than once (a collision between replicas), the
   * occurrence left on the circle has no owner, and a key hashing exactly to
   * it resolves to "".
   */
  lemma RemoveStepOrphansDuplicate(r: Ring, p: uint32)
    requires Valid(r) && multiset(r.circle)[p] >= 2
    ensures p in RemoveStep(r, p).circle && p !in RemoveStep(r, p).owners
    ensures !Covered(RemoveStep(r, p))
    ensures Lookup(RemoveStep(r, p), p) == ""
  {
    RemoveStepSpec(r, p);
    var c' := RemoveStep(r, p).circle;
    assert p in multiset(c');
    FirstAtLeastFinds(c', p);
  }

  /** The loop of RemoveNode over the positions `ps`, in order. */
  function RemoveSteps(r: Ring, ps: seq<uint32>): Ring
    decreases |ps|
  {
    if ps == [] then r else RemoveStep(RemoveSteps(r, ps[..|ps| - 1]), ps[|ps| - 1])
  }

  /** One more iteration of the loop over a prefix of `ps`. */
  lemma RemoveStepsPrefix(r: Ring, ps: seq<uint32>, i: nat)
    requires i < |ps|
    ensures RemoveSteps(r, ps[..i + 1]) == RemoveStep(RemoveSteps(r, ps[..i]), ps[i])
  {
    assert ps[..i + 1][..i] == ps[..i];
  }

  /** RemoveStep spelled out for the index the lower-bound search returns. */
  lemma RemoveStepAt(r: Ring, p: uint32, idx: nat)
    requires idx == FirstAtLeast(r.circle, p)
    ensures idx < |r.circle| && r.circle[idx] == p ==>
      RemoveStep(r, p) == Ring(r.circle[..idx] + r.circle[idx + 1..], r.owners - {p})
    ensures !(idx < |r.circle| && r.circle[idx] == p) ==> RemoveStep(r, p) == r
  {
  }

  lemma {:induction false} RemoveStepsSpec(r: Ring, ps: seq<uint32>)
    requires Valid(r)
    ensures Valid(RemoveSteps(r, ps))
    ensures multiset(RemoveSteps(r, ps).circle) == multiset(r.circle) - multiset(ps)
    ensures RemoveSteps(r, ps).owners == r.owners - Elems(ps)
    ensures |RemoveSteps(r, ps).circle| >= |r.circle| - |ps|
    decreases |ps|
  {
    if ps == [] {
      assert multiset(r.circle) - multiset(ps) == multiset(r.circle);
      assert r.owners - Elems(ps) == r.owners;
    } else {
      var init, p := ps[..|ps| - 1], ps[|ps| - 1];
      SplitLast(ps);
      RemoveStepsSpec(r, init);
      var t := RemoveSteps(r, init);
      RemoveStepSpec(t, p);
      var u := RemoveStep(t, p);
      assert RemoveSteps(r, ps) == u;
      MultisetMinusTwice(multiset(r.circle), multiset(init), p);
      MapMinusTwice(r.owners, Elems(init), p);
    }
  }

  lemma SplitLast(ps: seq<uint32>)
    requires ps != []
    ensures multiset(ps) == multiset(ps[..|ps| - 1]) + multiset{ps[|ps| - 1]}
    ensures Elems(ps) == Elems(ps[..|ps| - 1]) + {ps[|ps| - 1]}
  {
    assert ps == ps[..|ps| - 1] + [ps[|ps| - 1]];
  }

  lemma MapMinusTwice(m: map<uint32, string>, a: set<uint32>, p: uint32)
    ensures m - a - {p} == m - (a + {p})
  {
  }

  lemma MultisetMinusTwice(m: multiset<uint32>, a: multiset<uint32>, p: uint32)
    ensures m - a - multiset{p} == m - (a + multiset{p})
  {
  }

  /** RemoveNode on the value: the loop, then the final re-sort. */
  function Removed(r: Ring, ps: seq<uint32>): Ring {
    var t := RemoveSteps(r, ps);
    Ring(SortSeq(t.circle), t.owners)
  }

  /**
   * On a valid ring, removal takes away exactly one occurrence per listed
   * position that is still there, deletes exactly the listed keys, and
   * touches nothing else.
   */
  lemma RemovedSpec(r: Ring, ps: seq<uint32>)
    requires Valid(r)
    ensures Valid(Removed(r, ps))
    ensures Removed(r, ps).circle == RemoveSteps(r, ps).circle
    ensures multiset(Removed(r, ps).circle) == multiset(r.circle) - multiset(ps)
    ensures Removed(r, ps).owners == r.owners - Elems(ps)
    ensures |r.circle| - |ps| <= |Removed(r, ps).circle| <= |r.circle|
    ensures multiset(Removed(r, ps).circle) <= multiset(r.circle)
    ensures forall x :: multiset(Removed(r, ps).circle)[x] < multiset(r.circle)[x] ==> x in ps
  {
    RemoveStepsSpec(r, ps);
    var t := RemoveSteps(r, ps);
    SortSeqOfSorted(t.circle);
    assert |multiset(t.circle)| == |t.circle|;
    assert multiset(t.circle) <= multiset(r.circle);
    assert |multiset(t.circle)| <= |multiset(r.circle)|;
    forall x | multiset(t.circle)[x] < multiset(r.circle)[x]
      ensures x in ps
    {
      assert x in multiset(ps);
    }
  }

  /** The index GetNode resolves to: the lower bound, wrapped to 0 past the end. */
  function ResolvedIndex(c: seq<uint32>, h: uint32): (k: nat)
    requires |c| > 0
    ensures k < |c|
  {
    var j := FirstAtLeast(c, h);
    if j == |c| then 0 else j
  }

  /** GetNode on the value, for a key that hashes to `h`. */
  function Lookup(r: Ring, h: uint32): (name: string)
    ensures name == "" || name in r.owners.Values
    ensures |r.circle| == 0 ==> name == ""
  {
    if |r.circle| == 0 then ""
    else
      var q := r.circle[ResolvedIndex(r.circle, h)];
      if q in r.owners then r.owners[q] else ""
  }

  /**
   * The successor rule: `q` is the least position of `c` at or after `h`,
   * or, when every position lies below `h`, the least position of all.
   */
  ghost predicate IsSuccessor(c: seq<uint32>, h: uint32, q: uint32) {
    q in c &&
    if exists x :: x in c && x >= h then
      q >= h && forall x :: x in c && x >= h ==> q <= x
    else
      forall x :: x in c ==> q <= x
  }

  lemma ResolvedIsSuccessor(c: seq<uint32>, h: uint32)
    requires Sorted(c) && |c| > 0
    ensures IsSuccessor(c, h, c[ResolvedIndex(c, h)])
  {
    var j := FirstAtLeast(c, h);
    FirstAtLeastSorted(c, h);
    if j < |c| {
      assert c[j] in c && c[j] >= h;
      forall x | x in c && x >= h
        ensures c[j] <= x
      {
        var i :| 0 <= i < |c| && c[i] == x;
        assert j <= i;
      }
    } else {
      forall x | x in c
        ensures c[0] <= x && x < h
      {
        var i :| 0 <= i < |c| && c[i] == x;
      }
    }
  }

  /** A key beyond every position wraps around to the smallest position. */
  lemma LookupWraparound(r: Ring, h: uint32)
    requires Sorted(r.circle) && |r.circle| > 0
    requires forall i :: 0 <= i < |r.circle| ==> r.circle[i] < h
    ensures ResolvedIndex(r.circle, h) == 0
    ensures forall x :: x in r.circle ==> r.circle[0] <= x
    ensures Lookup(r, h) == if r.circle[0] in r.owners then r.owners[r.circle[0]] else ""
  {
    forall x | x in r.circle
      ensures r.circle[0] <= x
    {
      var i :| 0 <= i < |r.circle| && r.circle[i] == x;
    }
  }

  /** On a ring without orphans, a non-empty circle always yields an owner. */
  lemma LookupCovered(r: Ring, h: uint32)
    requires Covered(r) && |r.circle| > 0
    ensures Lookup(r, h) in r.owners.Values
  {
    var q := r.circle[ResolvedIndex(r.circle, h)];
    assert q in r.circle;
  }

  /** The successor of `h` in `c` is still the successor in any part of `c` that keeps it. */
  lemma SuccessorInSubset(c: seq<uint32>, d: seq<uint32>, h: uint32, q: uint32, q': uint32)
    requires IsSuccessor(c, h, q) && IsSuccessor(d, h, q')
    requires forall x :: x in d ==> x in c
    requires q in d
    ensures q == q'
  {
    if exists x :: x in c && x >= h {
      assert q in d && q >= h;
      assert q' in c;
    } else {
      assert !exists x :: x in d && x >= h;
      assert q' in c;
    }
  }

  /**
   * Removing positions leaves the answer for a key unchanged whenever the
   * position that key resolves to is not among them.
   */
  lemma RemovalKeepsOtherLookups(r: Ring, ps: seq<uint32>, h: uint32)
    requires Valid(r) && |r.circle| > 0
    requires r.circle[ResolvedIndex(r.circle, h)] !in ps
    ensures Lookup(Removed(r, ps), h) == Lookup(r, h)
  {
    var c := r.circle;
    var q := c[ResolvedIndex(c, h)];
    var r' := Removed(r, ps);
    RemovedShrinks(r, ps);
    RemovedKeeps(r, ps, q);
    var d := r'.circle;
    ResolvedIsSuccessor(c, h);
    ResolvedIsSuccessor(d, h);
    SuccessorInSubset(c, d, h, q, d[ResolvedIndex(d, h)]);
  }

  /** Removal only takes positions away, and only the listed keys. */
  lemma RemovedShrinks(r: Ring, ps: seq<uint32>)
    requires Valid(r)
    ensures Sorted(Removed(r, ps).circle)
    ensures forall x :: x in Removed(r, ps).circle ==> x in r.circle
    ensures Removed(r, ps).owners == r.owners - Elems(ps)
  {
    RemovedSpec(r, ps);
    var d := Removed(r, ps).circle;
    forall x | x in d
      ensures x in r.circle
    {
      assert x in multiset(d);
    }
  }

  /** A position of the circle that is not listed survives removal. */
  lemma RemovedKeeps(r: Ring, ps: seq<uint32>, q: uint32)
    requires Valid(r) && q in r.circle && q !in ps
    ensures q in Removed(r, ps).circle
  {
    RemovedSpec(r, ps);
    assert multiset(ps)[q] == 0;
    assert q in multiset(r.circle);
    assert multiset(Removed(r, ps).circle)[q] == multiset(r.circle)[q];
  }

  /**
   * Every owned position is a replica position of its own owner: AddNode
   * claims only the positions of the node being added.
   */
  predicate OwnsOnlyReplicas(hash: string -> uint32, count: int, r: Ring) {
    forall p :: p in r.owners ==> p in Replicas(hash, r.owners[p], count)
  }

  lemma AddedOwnsOnlyReplicas(hash: string -> uint32, count: int, r: Ring, node: string)
    requires OwnsOnlyReplicas(hash, count, r)
    ensures OwnsOnlyReplicas(hash, count, Added(r, Replicas(hash, node, count), node))
  {
    var ps := Replicas(hash, node, count);
    AddedSpec(r, ps, node);
    var r' := Added(r, ps, node);
    forall p | p in r'.owners
      ensures p in Replicas(hash, r'.owners[p], count)
    {
      if p !in r.owners {
        assert p in Elems(ps);
      }
    }
  }

  lemma RemovedOwnsOnlyReplicas(hash: string -> uint32, count: int, r: Ring, ps: seq<uint32>)
    requires Valid(r) && OwnsOnlyReplicas(hash, count, r)
    ensures OwnsOnlyReplicas(hash, count, Removed(r, ps))
  {
    RemovedSpec(r, ps);
  }

  /**
   * Removal completeness: once a node's replica positions are removed, no
   * key resolves to that node any more.
   */
  lemma RemovalComplete(hash: string -> uint32, count: int, r: Ring, node: string, h: uint32)
    requires Valid(r) && OwnsOnlyReplicas(hash, count, r) && node != ""
    ensures Lookup(Removed(r, Replicas(hash, node, count)), h) != node
  {
    var ps := Replicas(hash, node, count);
    RemovedSpec(r, ps);
    var r' := Removed(r, ps);
    if |r'.circle| > 0 {
      var q := r'.circle[ResolvedIndex(r'.circle, h)];
      if q in r'.owners {
        assert q !in Elems(ps) && r'.owners[q] == r.owners[q];
        assert q in Replicas(hash, r.owners[q], count);
        assert q !in ps;
      }
    }
  }

  /** The ring after adding `nodes` in order to a fresh ring, with `count` replicas each. */
  function Build(hash: string -> uint32, count: int, nodes: seq<string>): Ring
    decreases |nodes|
  {
    if nodes == [] then Empty
    else
      var last := nodes[|nodes| - 1];
      Added(Build(hash, count, nodes[..|nodes| - 1]), Replicas(hash, last, count), last)
  }

  /** One more AddNode after the additions of a prefix of `nodes`. */
  lemma BuildPrefix(hash: string -> uint32, count: int, nodes: seq<string>, k: nat)
    requires k < |nodes|
    ensures Build(hash, count, nodes[..k + 1])
         == Added(Build(hash, count, nodes[..k]), Replicas(hash, nodes[k], count), nodes[k])
  {
    assert nodes[..k + 1][..k] == nodes[..k];
  }

  /**
   * A ring built by additions alone is valid, has no orphans and gives
   * positions only to added nodes.
   */
  lemma {:induction false} BuildSpec(hash: string -> uint32, count: int, nodes: seq<string>)
    ensures Valid(Build(hash, count, nodes)) && Covered(Build(hash, count, nodes))
    ensures forall p :: p in Build(hash, count, nodes).owners ==> Build(hash, count, nodes).owners[p] in nodes
    decreases |nodes|
  {
    if nodes != [] {
      var init, last := nodes[..|nodes| - 1], nodes[|nodes| - 1];
      var ps := Replicas(hash, last, count);
      BuildSpec(hash, count, init);
      var b := Build(hash, count, init);
      assert Build(hash, count, nodes) == Added(b, ps, last);
      AddedValid(b, ps, last);
      AddedCovered(b, ps, last);
      assert forall n :: n in init ==> n in nodes;
      AddedOwnersFrom(b, ps, last, init, nodes);
    }
  }

  /** Each added node contributes exactly R positions, duplicates included. */
  lemma {:induction false} BuildSize(hash: string -> uint32, count: int, nodes: seq<string>)
    ensures |Build(hash, count, nodes).circle| == |nodes| * (if count > 0 then count else 0)
    decreases |nodes|
  {
    if nodes != [] {
      var init, last := nodes[..|nodes| - 1], nodes[|nodes| - 1];
      var ps := Replicas(hash, last, count);
      BuildSize(hash, count, init);
      var b := Build(hash, count, init);
      assert Build(hash, count, nodes) == Added(b, ps, last);
      AddedSpec(b, ps, last);
      assert |nodes| == |init| + 1;
      MulSucc(|init|, |ps|);
    }
  }

  /** A ring built by additions alone gives each position only to a node whose replica it is. */
  lemma {:induction false} BuildOwnsOnlyReplicas(hash: string -> uint32, count: int, nodes: seq<string>)
    ensures OwnsOnlyReplicas(hash, count, Build(hash, count, nodes))
    decreases |nodes|
  {
    if nodes != [] {
      var init, last := nodes[..|nodes| - 1], nodes[|nodes| - 1];
      BuildOwnsOnlyReplicas(hash, count, init);
      AddedOwnsOnlyReplicas(hash, count, Build(hash, count, init), last);
    }
  }

  /**
   * The repository's test on values: the answer for a key before and after
   * removing a node from a ring built by additions. The first answer is an
   * added node, the second never the removed node, and the two agree when
   * the position the key first resolved to is not a replica of the removed
   * node.
   */
  lemma BuildThenRemove(hash: string -> uint32, count: int, nodes: seq<string>, removed: string, h: uint32)
    ensures var b := Build(hash, count, nodes);
      var before, after := Lookup(b, h), Lookup(Removed(b, Replicas(hash, removed, count)), h);
      (count > 0 && |nodes| > 0 ==> before in nodes) &&
      (nodes == [] ==> before == "" && after == "") &&
      (removed != "" ==> after != removed) &&
      (|b.circle| > 0 && b.circle[ResolvedIndex(b.circle, h)] !in Replicas(hash, removed, count) ==> after == before)
  {
    var b := Build(hash, count, nodes);
    var ps := Replicas(hash, removed, count);
    BuildSpec(hash, count, nodes);
    BuildOwnsOnlyReplicas(hash, count, nodes);
    RemovedSpec(b, ps);
    if count > 0 && |nodes| > 0 {
      BuildMembership(hash, count, nodes, h);
    }
    if removed != "" {
      RemovalComplete(hash, count, b, removed, h);
    }
    if |b.circle| > 0 && b.circle[ResolvedIndex(b.circle, h)] !in ps {
      RemovalKeepsOtherLookups(b, ps, h);
    }
  }

  lemma MulSucc(n: nat, k: nat)
    ensures (n + 1) * k == n * k + k
  {
  }

  /** Positions stay with nodes of `nodes` when one of them claims more. */
  lemma AddedOwnersFrom(b: Ring, ps: seq<uint32>, node: string, init: seq<string>, nodes: seq<string>)
    requires forall p :: p in b.owners ==> b.owners[p] in init
    requires forall n :: n in init ==> n in nodes
    requires node in nodes
    ensures forall p :: p in Added(b, ps, node).owners ==> Added(b, ps, node).owners[p] in nodes
  {
    AddedSpec(b, ps, node);
    var r := Added(b, ps, node);
    forall p | p in r.owners
      ensures r.owners[p] in nodes
    {
      if p in b.owners {
        assert b.owners[p] in init;
      } else {
        assert p in ps;
      }
    }
  }

  /** Membership closure: on a ring built by additions, every key maps to an added node. */
  lemma BuildMembership(hash: string -> uint32, count: int, nodes: seq<string>, h: uint32)
    requires count > 0 && |nodes| > 0
    ensures Lookup(Build(hash, count, nodes), h) in nodes
  {
    BuildSpec(hash, count, nodes);
    var r := Build(hash, count, nodes);
    var init, last := nodes[..|nodes| - 1], nodes[|nodes| - 1];
    AddedSpec(Build(hash, count, init), Replicas(hash, last, count), last);
    assert |r.circle| > 0;
    LookupCovered(r, h);
    var q := r.circle[ResolvedIndex(r.circle, h)];
    assert q in r.circle;
  }
}
