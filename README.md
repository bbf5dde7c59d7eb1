# Consistent-hash ring in Dafny

A model of the Go package `consistenthash`, a consistent-hashing ring that maps string keys to node names, with proofs about it.

Each node gets R virtual replicas, where R is `virtualNodeCount`. Replica `i` of node `n` sits at the 32-bit hash of the name `n + Itoa(i)`. The ring stores:
- `circle`, the ascending sequence of replica positions, duplicates kept;
- `nodeHashMap`, from each position to the node that claimed it first.

The operations:
- `AddNode` appends a node's positions, claims the unowned ones and re-sorts.
- `RemoveNode` runs a lower-bound search for each of a node's positions. On an exact hit it deletes that one occurrence and the position's map entry, then re-sorts.
- `GetNode` hashes the key and takes the first position at or after it, wrapping to the smallest position. It then looks that position up in the map, returning "" for an empty or nil ring and for a position without an owner.

The project has four modules:

- `Decimal` (decimal.dfy): `strconv.Itoa` for non-negative indices, with a parser that undoes it. It follows that the replica names of one node are pairwise distinct.
- `Positions` (positions.dfy): the `uint32` position type, plus the three sequence operations the ring relies on:
  - re-sorting: a sort function proved sorted and a permutation; a sorted permutation is unique;
  - the lower-bound search: `sort.Search`, written out as a binary-search method and proved equal to a recursive specification;
  - deleting one element by splicing.
- `RingModel` (ring.dfy): the ring as a value `Ring(circle, owners)`.
  - Each operation is a function on that value, built from its loop: `Appended`/`Added`, `RemoveStep`/`RemoveSteps`/`Removed` and `Lookup`.
  - The lemmas say what the operations amount to: exact multiset and map effects, the invariants they preserve, the successor rule of a lookup, and the behaviour of rings built by additions alone.
- `ConsistentHashing` (consistent_hash.dfy): the class `ConsistentHash` with the Go struct's fields.
  - `AddNode`, `RemoveNode` and `GetNode` are imperative methods whose loops mirror the Go loops. Each is proved to produce exactly the state, or the answer, of its `RingModel` function.
  - `GetNodeAfterRemovingNode` is the repository's test at the object level: add the nodes, look a key up, remove a node, and look the key up again.

Three invariants, held apart:

- `RingModel.Valid`: the circle is sorted and every map key occurs on it, so there are no orphaned mapping entries. `AddNode`, `RemoveNode` and `GetNode` all preserve it.
- `RingModel.OwnsOnlyReplicas`: every owned position is a replica position of its own owner. It is part of the class invariant and holds in every reachable state. With it, removal is complete: after `RemoveNode(n)` no key resolves to `n` (`RemovalComplete`).
- `RingModel.Covered`: every position on the circle has a map entry. It holds for every ring built by additions alone (`AddedCovered`, `BuildSpec`). It does not survive `RemoveNode`.
  - Removing a node deletes the map entry of each of its positions, even when another node claimed that position first or a copy of it stays on the circle. That copy is then orphaned (`RemoveStepOrphansDuplicate`).
  - So a key whose owner was not the removed node can still change its answer, to "". For that reason `RemovalKeepsOtherLookups` is conditioned on the resolved position, not on its owner.

The hash function (CRC32-IEEE in Go) is a parameter of the constructor and a `const` field, so every result holds for any deterministic hash.

The final `sort.Sort` in `RemoveNode` never changes anything: deleting single elements keeps the circle sorted (`RemovedSpec`, second clause).

## Model

| member | source | states |
|---|---|---|
| Decimal.Itoa | consistent_hash.go:46 | the decimal rendering of an index is non-empty, all digits, and starts with '0' only for 0 |
| Decimal.ParseItoa | consistent_hash.go:46 | parsing the rendering of `n` gives back `n` (round trip) |
| Decimal.ItoaInjective | consistent_hash.go:46 | different indices render as different strings |
| Decimal.VNameInjective | consistent_hash.go:45-46 | two replicas of one node never share a name |
| Positions.Insert | consistent_hash.go:53 | inserting into a sorted sequence keeps it sorted and adds exactly one copy of the element |
| Positions.SortSeq | consistent_hash.go:53 | the re-sorted circle is sorted and a permutation of the unsorted one |
| Positions.SortedUnique | consistent_hash.go:53 | two sorted sequences with the same multiset are equal, so any correct sort gives the same circle |
| Positions.SortSeqOfSorted | consistent_hash.go:71 | re-sorting an already sorted circle changes nothing |
| Positions.FirstAtLeast | consistent_hash.go:65 | the specified search index: at most the length, everything before it is smaller than `h`, the element there is at least `h` |
| Positions.FirstAtLeastUnique | consistent_hash.go:65 | those two facts determine the index |
| Positions.FirstAtLeastSorted | consistent_hash.go:84 | on a sorted circle every element from that index on is at least `h` |
| Positions.FirstAtLeastFinds | consistent_hash.go:66 | on a sorted circle the index points at `h` exactly when `h` occurs on the circle (both directions) |
| Positions.LowerBound | consistent_hash.go:65 | the binary search returns the first index whose element is at least `h`, and `|s|` when there is none |
| Positions.RemoveAt | consistent_hash.go:67 | the splice removes exactly one copy of the element at the index, shortens by one, and keeps a sorted sequence sorted |
| RingModel.Replicas | consistent_hash.go:45-47 | a node has `virtualNodeCount` replica positions, none when the count is not positive |
| RingModel.ReplicasAt | consistent_hash.go:46-47 | replica `i` sits at the hash of `node + Itoa(i)` |
| RingModel.ClaimSpec | consistent_hash.go:49-51 | first writer wins: keys are the old keys plus the new positions, old owners are kept, every unowned new position goes to the node |
| RingModel.AppendedPrefix | consistent_hash.go:48-51 | one iteration of the add loop appends the position and claims it only when it has no owner |
| RingModel.AddedSpec | consistent_hash.go:45-53 | after adding, the circle is sorted and holds the old positions plus the new ones (counting duplicates), with the map as in ClaimSpec |
| RingModel.AddedValid | consistent_hash.go:45-53 | adding keeps the circle sorted and every map key on the circle |
| RingModel.AddedCovered | consistent_hash.go:45-53 | adding to a ring without orphans leaves no orphans |
| RingModel.RemoveStepAt | consistent_hash.go:65-69 | a removal step deletes the found occurrence and its map entry on an exact hit and changes nothing otherwise |
| RingModel.RemoveStepSpec | consistent_hash.go:65-69 | one removal step keeps the ring valid, takes one copy of the position off the circle if there is one, and deletes its map key |
| RingModel.RemoveHit | consistent_hash.go:66-68 | on an exact hit, the keys that remain still occur on the shortened circle |
| RingModel.RemoveMiss | consistent_hash.go:66 | a position absent from the circle owns nothing, so a miss changes nothing |
| RingModel.RemoveStepOrphansDuplicate | consistent_hash.go:66-68 | removing a position that occurs twice leaves an occurrence without an owner, and a key hashing to it resolves to "" |
| RingModel.RemoveStepsPrefix | consistent_hash.go:62-70 | the remove loop after `i + 1` positions is one more step after `i` |
| RingModel.RemoveStepsSpec | consistent_hash.go:62-70 | the remove loop keeps the ring valid, takes one copy per listed position off the circle (multiset difference) and deletes exactly the listed keys |
| RingModel.RemovedSpec | consistent_hash.go:56-72 | RemoveNode's result is valid; the final sort is a no-op; the circle loses at most one copy per listed position and nothing that is not listed; the map loses exactly the listed keys |
| RingModel.RemovedShrinks | consistent_hash.go:62-71 | removal never adds a position to the circle |
| RingModel.RemovedKeeps | consistent_hash.go:62-71 | a circle position that is not listed survives removal |
| RingModel.ResolvedIndex | consistent_hash.go:84-87 | the resolved index is always inside a non-empty circle |
| RingModel.Lookup | consistent_hash.go:74-93 | a lookup returns "" or a node that owns some position, and "" on an empty circle |
| RingModel.ResolvedIsSuccessor | consistent_hash.go:84-87 | the resolved position is the least position at or after the key's hash, or the least position of all when none is |
| RingModel.LookupWraparound | consistent_hash.go:85-88 | on a sorted circle, a key beyond every position wraps to index 0, the smallest position, and gets that position's owner |
| RingModel.LookupCovered | consistent_hash.go:88-92 | on a non-empty ring without orphans a lookup always names an owner, never "" |
| RingModel.SuccessorInSubset | consistent_hash.go:84-87 | the successor in a circle stays the successor in any sub-circle that keeps it |
| RingModel.RemovalKeepsOtherLookups | consistent_hash.go:56-93 | removing a node leaves the answer for a key unchanged whenever the key's position is not one of the removed replicas |
| RingModel.BuildPrefix | consistent_hash_test.go:12-14 | adding one more node to a prefix of the list is one more AddNode |
| RingModel.BuildSpec | consistent_hash.go:31-54 | a ring built by additions alone is valid, has no orphans, and gives positions only to added nodes |
| RingModel.BuildSize | consistent_hash.go:45-48 | such a ring holds exactly R positions per added node, duplicates included |
| RingModel.AddedOwnersFrom | consistent_hash.go:49-51 | after adding a node, every owner is the new node or an earlier owner |
| RingModel.AddedOwnsOnlyReplicas | consistent_hash.go:45-51 | adding a node gives it only its own replica positions, so every owned position stays a replica of its owner |
| RingModel.RemovedOwnsOnlyReplicas | consistent_hash.go:56-72 | removal keeps every owned position a replica of its owner |
| RingModel.RemovalComplete | consistent_hash.go:62-69 | after removing every replica position of a node, no key resolves to that node |
| RingModel.BuildOwnsOnlyReplicas | consistent_hash.go:31-54 | on a ring built by additions alone, every owned position is a replica of its owner |
| RingModel.BuildThenRemove | consistent_hash_test.go:7-29 | on a ring built by additions, with R > 0 the first answer is an added node; with no nodes both answers are ""; after removing a node no key resolves to it; the answer is unchanged when the key's resolved position is not a removed replica |
| RingModel.BuildMembership | consistent_hash.go:74-93 | on a ring built by additions with R > 0, every key resolves to an added node |
| ConsistentHashing.ConsistentHash.ReplicasOf | consistent_hash.go:45-47 | a node's replica positions number `virtualNodeCount` (none when it is not positive) |
| ConsistentHashing.ConsistentHash.constructor | consistent_hash.go:23-29 | `NewConsistentHash` makes an empty, allocated ring with the given replica count |
| ConsistentHashing.ConsistentHash.Zero | consistent_hash.go:16-21 | the zero-valued struct has nil collections and no replicas, and is valid |
| ConsistentHashing.ConsistentHash.AddNode | consistent_hash.go:31-54 | allocates nil collections, leaves exactly the state `Added` describes, keeps the ring valid, and keeps a ring without orphans free of orphans |
| ConsistentHashing.ConsistentHash.RemoveNode | consistent_hash.go:56-72 | a no-op on nil collections; otherwise leaves exactly the state `Removed` describes; the ring stays valid; the nil flag never changes; afterwards no key resolves to the removed node |
| ConsistentHashing.ConsistentHash.DeletePosition | consistent_hash.go:65-69 | one iteration of the remove loop makes exactly the step `RemoveStep` describes and keeps the ring valid |
| ConsistentHashing.ConsistentHash.GetNode | consistent_hash.go:74-93 | returns exactly `Lookup` of the key's hash on the current state, changes nothing, and returns "" or an owner, "" on an empty circle |
| ConsistentHashing.AddAll | consistent_hash_test.go:11-14 | adding a list of nodes to a fresh ring leaves the state `Build` describes |
| ConsistentHashing.GetNodeAfterRemovingNode | consistent_hash_test.go:7-29 | whatever the hash, with R > 0 the first lookup names an added node; with no nodes both lookups give ""; the second lookup never names the removed node; and the two answers agree when the key's first resolved position is not a replica of the removed node |

## Left out

- The read/write mutex: every operation is one atomic step, and concurrent callers are not modelled.
- CRC32-IEEE: the hash is an arbitrary deterministic `string -> uint32` passed to the constructor, and the byte conversion of the string is folded into it.
- The concrete expectation of the repository's test ("key1" goes to "node2" before and after removing "node1"). It depends on actual CRC32 values. The model proves the general facts it rests on instead, in `GetNodeAfterRemovingNode`.
- The nil receiver: `AddNode` on a nil pointer panics, and `RemoveNode`/`GetNode` return early. A Dafny object reference here is never null, so the pointer check has nothing to model.
- The nil collections are one flag, `initialised`. Every reachable state has both nil or neither: the zero value versus the result of `NewConsistentHash` or `AddNode`. A struct literal with exactly one nil collection is not modelled.
- `HashCircle`'s `Len`/`Less`/`Swap` and the algorithm inside `sort.Sort`: the re-sort is the insertion-sort function `SortSeq`, and by `SortedUnique` any correct sort gives the same circle.
- Go's `int` width for `virtualNodeCount` and for the loop counter is not modelled; integers are unbounded.
- `ConsistentHashing.ConsistentHash.RemoveNode`: its `ensures` names the state `Removed` and no more. The multiset, map and length effects are stated and proved once, in `RemovedSpec`.
- `ConsistentHashing.ConsistentHash.GetNode`: "a ring without orphans never answers \"\"" is stated in `LookupCovered`, not in the method's own `ensures`.
