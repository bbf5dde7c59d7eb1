/**
 * Hash positions and the three sequence operations the ring relies on:
 * re-sorting (`sort.Sort` over `HashCircle`), the lower-bound search
 * (`sort.Search` with the predicate `circle[i] >= h`) and deleting one
 * element by splicing (`append(c[:idx], c[idx+1:]...)`).
 */
module Positions {

  /** Go's `uint32`, the type of a CRC32 checksum and of a ring position. */
  newtype uint32 = x: int | 0 <= x < 0x1_0000_0000

  predicate Sorted(s: seq<uint32>) {
    forall i, j :: 0 <= i < j < |s| ==> s[i] <= s[j]
  }

  function Elems(s: seq<uint32>): set<uint32> {
    set x | x in s
  }

  /** Inserts `x` into a sorted sequence in front of the first larger-or-equal element. */
  function Insert(s: seq<uint32>, x: uint32): (r: seq<uint32>)
    requires Sorted(s)
    ensures Sorted(r)
    ensures multiset(r) == multiset(s) + multiset{x}
    decreases |s|
  {
    if s == [] || x <= s[0] then
      [x] + s
    else
      var rest := Insert(s[1..], x);
      assert s == [s[0]] + s[1..];
      InsertedTailBounded(s, x, rest);
      [s[0]] + rest
  }

  lemma InsertedTailBounded(s: seq<uint32>, x: uint32, rest: seq<uint32>)
    requires Sorted(s) && s != [] && s[0] < x && Sorted(rest)
    requires multiset(rest) == multiset(s[1..]) + multiset{x}
    ensures Sorted([s[0]] + rest)
  {
    forall y | y in rest
      ensures s[0] <= y
    {
      assert y in multiset(rest);
      if y != x {
        assert y in multiset(s[1..]);
        assert y in s[1..];
      }
    }
    var t := [s[0]] + rest;
    forall i, j | 0 <= i < j < |t|
      ensures t[i] <= t[j]
    {
      assert t[j] == rest[j - 1] && rest[j - 1] in rest;
      if i > 0 {
        assert t[i] == rest[i - 1];
      }
    }
  }

  /**
   * The ascending rearrangement that `sort.Sort` leaves behind. Any sorted
   * permutation would do: by SortedUnique there is only one.
   */
  function SortSeq(s: seq<uint32>): (r: seq<uint32>)
    ensures Sorted(r)
    ensures multiset(r) == multiset(s)
    decreases |s|
  {
    if s == [] then []
    else
      assert s == [s[0]] + s[1..];
      Insert(SortSeq(s[1..]), s[0])
  }

  lemma SortedHeadIsLeast(s: seq<uint32>, y: uint32)
    requires Sorted(s) && y in multiset(s)
    ensures s[0] <= y
  {
  }

  /** Two sorted sequences with the same elements start with the same element. */
  lemma SameHead(a: seq<uint32>, b: seq<uint32>)
    requires Sorted(a) && Sorted(b) && a != []
    requires multiset(a) == multiset(b)
    ensures b != [] && a[0] == b[0]
  {
    assert a[0] in multiset(b);
    assert b[0] in multiset(a);
    SortedHeadIsLeast(a, b[0]);
    SortedHeadIsLeast(b, a[0]);
  }

  /** Dropping the head of a sequence keeps it sorted and drops one copy of the head. */
  lemma Tail(s: seq<uint32>)
    requires s != []
    ensures Sorted(s) ==> Sorted(s[1..])
    ensures multiset(s[1..]) == multiset(s) - multiset{s[0]}
  {
    assert s == [s[0]] + s[1..];
  }

  /** A sorted sequence is determined by its multiset of elements. */
  lemma {:induction false} SortedUnique(a: seq<uint32>, b: seq<uint32>)
    requires Sorted(a) && Sorted(b)
    requires multiset(a) == multiset(b)
    ensures a == b
    decreases |a|
  {
    if a == [] {
      assert |multiset(b)| == 0;
    } else {
      SameHead(a, b);
      Tail(a);
      Tail(b);
      SortedUnique(a[1..], b[1..]);
      assert a == [a[0]] + a[1..];
      assert b == [b[0]] + b[1..];
    }
  }

  /** Re-sorting a sorted sequence changes nothing. */
  lemma SortSeqOfSorted(s: seq<uint32>)
    requires Sorted(s)
    ensures SortSeq(s) == s
  {
    SortedUnique(SortSeq(s), s);
  }

  /**
   * The index `sort.Search` returns: the first index whose element is at
   * least `h`, or `|s|` when there is none.
   */
  function FirstAtLeast(s: seq<uint32>, h: uint32): (k: nat)
    ensures k <= |s|
    ensures forall i :: 0 <= i < k ==> s[i] < h
    ensures k < |s| ==> s[k] >= h
    decreases |s|
  {
    if s == [] || s[0] >= h then 0 else 1 + FirstAtLeast(s[1..], h)
  }

  /** The two facts FirstAtLeast promises pin its result down. */
  lemma {:induction false} FirstAtLeastUnique(s: seq<uint32>, h: uint32, k: nat)
    requires k <= |s|
    requires forall i :: 0 <= i < k ==> s[i] < h
    requires k < |s| ==> s[k] >= h
    ensures k == FirstAtLeast(s, h)
    decreases |s|
  {
    if k > 0 {
      assert s[0] < h;
      FirstAtLeastUnique(s[1..], h, k - 1);
    }
  }

  /** On a sorted sequence that index is a lower bound: everything from it on is at least `h`. */
  lemma FirstAtLeastSorted(s: seq<uint32>, h: uint32)
    requires Sorted(s)
    ensures forall i :: FirstAtLeast(s, h) <= i < |s| ==> s[i] >= h
  {
    var k := FirstAtLeast(s, h);
    if k < |s| {
      assert forall i :: k <= i < |s| ==> s[k] <= s[i];
    }
  }

  /** On a sorted sequence, `h` occurs exactly when the lower bound points at it. */
  lemma FirstAtLeastFinds(s: seq<uint32>, h: uint32)
    requires Sorted(s)
    ensures var k := FirstAtLeast(s, h); (k < |s| && s[k] == h) <==> h in s
  {
    var k := FirstAtLeast(s, h);
    if h in s {
      var i :| 0 <= i < |s| && s[i] == h;
      FirstAtLeastSorted(s, h);
      assert k <= i;
      assert s[k] <= s[i];
    }
  }

  /**
   * `sort.Search(len(s), func(i int) bool { return s[i] >= h })`, with the
   * library's bisection loop written out.
   */
  method LowerBound(s: seq<uint32>, h: uint32) returns (idx: nat)
    requires Sorted(s)
    ensures idx <= |s|
    ensures forall k :: 0 <= k < idx ==> s[k] < h
    ensures forall k :: idx <= k < |s| ==> s[k] >= h
    ensures idx == FirstAtLeast(s, h)
  {
    var i, j := 0, |s|;
    while i < j
      invariant 0 <= i <= j <= |s|
      invariant forall k :: 0 <= k < i ==> s[k] < h
      invariant forall k :: j <= k < |s| ==> s[k] >= h
      decreases j - i
    {
      var m := (i + j) / 2;
      if s[m] < h {
        i := m + 1;
      } else {
        j := m;
      }
    }
    idx := i;
    FirstAtLeastUnique(s, h, idx);
  }

  /** `append(s[:j], s[j+1:]...)`: deletes the single element at index `j`. */
  function RemoveAt(s: seq<uint32>, j: nat): (r: seq<uint32>)
    requires j < |s|
    ensures |r| == |s| - 1
    ensures multiset(r) == multiset(s) - multiset{s[j]}
    ensures Sorted(s) ==> Sorted(r)
  {
    assert s == s[..j] + [s[j]] + s[j + 1..];
    var r := s[..j] + s[j + 1..];
    RemoveAtSorted(s, j, r);
    r
  }

  lemma RemoveAtSorted(s: seq<uint32>, j: nat, r: seq<uint32>)
    requires j < |s| && r == s[..j] + s[j + 1..]
    ensures Sorted(s) ==> Sorted(r)
  {
    if Sorted(s) {
      forall a, b | 0 <= a < b < |r|
        ensures r[a] <= r[b]
      {
        var a' := if a < j then a else a + 1;
        var b' := if b < j then b else b + 1;
        assert r[a] == s[a'] && r[b] == s[b'];
      }
    }
  }
}
