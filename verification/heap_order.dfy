/**
 * Index arithmetic and ordering facts for an array-backed binary min-heap,
 * stated over the sequence of keys held in the live slots [0, size).
 * Slot 0 is the root; the children of slot i are 2i+1 and 2i+2.
 */
module HeapOrder {

  /** Parent slot of i, computed as (i - 1) / 2. The source evaluates this on
      int32, which truncates toward zero, so slot 0 yields 0 (never used as a
      real parent, because every loop first tests i > 0). */
  function Parent(i: nat): (p: nat)
    ensures i > 0 ==> p < i
  {
    if i == 0 then 0 else (i - 1) / 2
  }

  /** The two child slots of i have i as their parent, and nothing else does. */
  lemma ChildrenOf(i: nat)
    ensures Parent(2 * i + 1) == i && Parent(2 * i + 2) == i
    ensures forall c: nat :: c > 0 && Parent(c) == i ==> c == 2 * i + 1 || c == 2 * i + 2
  {
  }

  /** a lies on the path from slot i up to the root (i itself included). */
  ghost predicate IsAncestor(a: nat, i: nat)
    decreases i
  {
    a == i || (i > 0 && IsAncestor(a, Parent(i)))
  }

  /** An ancestor of i is no greater than i. */
  lemma {:induction false} AncestorBelow(a: nat, i: nat)
    requires IsAncestor(a, i)
    ensures a <= i
    decreases i
  {
    if a != i {
      AncestorBelow(a, Parent(i));
    }
  }

  /** The heap-order invariant: every non-root slot holds a key no smaller
      than its parent's. */
  ghost predicate HeapOrdered(ks: seq<real>)
  {
    forall j :: 0 < j < |ks| ==> ks[Parent(j)] <= ks[j]
  }

  /** The root of a heap-ordered sequence holds its minimum key. */
  lemma {:induction false} RootIsMin(ks: seq<real>, j: nat)
    requires HeapOrdered(ks) && j < |ks|
    ensures ks[0] <= ks[j]
    decreases j
  {
    if j > 0 {
      RootIsMin(ks, Parent(j));
    }
  }

  /** Heap order with a hole at slot h: every parent/child edge that does not
      touch h is ordered, and the parent of h (if any) is no greater than the
      children of h, so that the hole can be filled from either side. */
  ghost predicate OrderedAround(ks: seq<real>, h: nat)
  {
    && (forall j :: 0 < j < |ks| && j != h && Parent(j) != h ==> ks[Parent(j)] <= ks[j])
    && (forall c :: 0 < c < |ks| && Parent(c) == h && h > 0 ==> ks[Parent(h)] <= ks[c])
  }

  /** x is no greater than any child key of slot h. */
  ghost predicate AtMostChildren(ks: seq<real>, h: nat, x: real)
  {
    forall c :: 0 < c < |ks| && Parent(c) == h ==> x <= ks[c]
  }

  /** The shape a heap has after the key at slot k was lowered: ordered
      everywhere except possibly on the edge from k up to its parent. */
  ghost predicate HeapExceptAt(ks: seq<real>, k: nat)
    requires k < |ks|
  {
    OrderedAround(ks, k) && AtMostChildren(ks, k, ks[k])
  }

  /** Lowering one key of a heap leaves exactly the shape that a decrease-key
      repair expects. */
  lemma DecreaseKey(ks: seq<real>, k: nat, v: real)
    requires HeapOrdered(ks) && k < |ks| && v <= ks[k]
    ensures HeapExceptAt(ks[k := v], k)
  {
    var ks' := ks[k := v];
    forall c | 0 < c < |ks'| && Parent(c) == k && k > 0
      ensures ks'[Parent(k)] <= ks'[c]
    {
      assert ks[Parent(k)] <= ks[k];
    }
  }

  /** A heap-ordered sequence keeps its order around any hole. */
  lemma OrderedIsOrderedAround(ks: seq<real>, h: nat)
    requires HeapOrdered(ks)
    ensures OrderedAround(ks, h)
  {
    forall c | 0 < c < |ks| && Parent(c) == h && h > 0
      ensures ks[Parent(h)] <= ks[c]
    {
      assert ks[Parent(h)] <= ks[h];
    }
  }

  /** Every prefix of a heap-ordered sequence is heap-ordered. */
  lemma PrefixOrdered(ks: seq<real>, n: nat)
    requires HeapOrdered(ks) && n <= |ks|
    ensures HeapOrdered(ks[..n])
  {
  }

  /** A slot appended after a heap-ordered sequence is a hole around which
      the keys are ordered, and it has no children. */
  lemma AppendHole(ks: seq<real>, last: real, x: real)
    requires HeapOrdered(ks)
    ensures OrderedAround(ks + [last], |ks|) && AtMostChildren(ks + [last], |ks|, x)
  {
  }

  /** One step of sift-up: the parent's key, greater than x, moves down into
      the hole at i, and the hole moves up to the parent. */
  lemma BubbleStep(ks: seq<real>, i: nat, x: real)
    requires 0 < i < |ks|
    requires OrderedAround(ks, i) && AtMostChildren(ks, i, x)
    requires ks[Parent(i)] > x
    ensures OrderedAround(ks[i := ks[Parent(i)]], Parent(i))
    ensures AtMostChildren(ks[i := ks[Parent(i)]], Parent(i), x)
  {
    var p := Parent(i);
    var ks' := ks[i := ks[p]];
    forall c | 0 < c < |ks'| && Parent(c) == p && p > 0
      ensures ks'[Parent(p)] <= ks'[c]
    {
      assert ks[Parent(p)] <= ks[p];
      if c != i {
        assert ks[p] <= ks[c];
      }
    }
    forall c | 0 < c < |ks'| && Parent(c) == p
      ensures x <= ks'[c]
    {
      if c != i {
        assert ks[p] <= ks[c];
      }
    }
  }

  /** Filling the hole at i with x, when x fits between the parent of i and
      the children of i, restores full heap order. */
  lemma BubbleFinish(ks: seq<real>, i: nat, x: real)
    requires i < |ks|
    requires OrderedAround(ks, i) && AtMostChildren(ks, i, x)
    requires i == 0 || ks[Parent(i)] <= x
    ensures HeapOrdered(ks[i := x])
  {
  }

  /** The child the trickle-down step descends into: the right child only
      when it exists and its key is strictly smaller, else the left one. */
  function SmallerChild(ks: seq<real>, i: nat): (c: nat)
    requires 2 * i + 1 < |ks|
    ensures Parent(c) == i && i < c < |ks| && c <= 2 * i + 2
  {
    ChildrenOf(i);
    var child := 2 * i + 1;
    if child + 1 < |ks| && ks[child] > ks[child + 1] then child + 1 else child
  }

  /** SmallerChild holds the smallest key among the children of i. */
  lemma SmallerChildIsMin(ks: seq<real>, i: nat)
    requires 2 * i + 1 < |ks|
    ensures forall s :: 0 < s < |ks| && Parent(s) == i ==> ks[SmallerChild(ks, i)] <= ks[s]
  {
    ChildrenOf(i);
  }

  /** One step of trickle-down: the smaller child's key moves up into the
      hole at i, and the hole moves down to that child. */
  lemma TrickleStep(ks: seq<real>, i: nat)
    requires 2 * i + 1 < |ks|
    requires OrderedAround(ks, i)
    ensures OrderedAround(ks[i := ks[SmallerChild(ks, i)]], SmallerChild(ks, i))
  {
    var c := SmallerChild(ks, i);
    var ks' := ks[i := ks[c]];
    SmallerChildIsMin(ks, i);
    forall j | 0 < j < |ks'| && j != c && Parent(j) != c
      ensures ks'[Parent(j)] <= ks'[j]
    {
      if j == i {
        assert ks[Parent(i)] <= ks[c];
      } else if Parent(j) == i {
        assert ks[c] <= ks[j];
      }
    }
    forall g | 0 < g < |ks'| && Parent(g) == c && c > 0
      ensures ks'[Parent(c)] <= ks'[g]
    {
      assert ks[c] <= ks[g];
    }
  }

  /** Moving the entry at p into the hole at i and then filling p with x
      leaves the same multiset as filling the hole at i with x directly. */
  lemma MoveIntoHole<T>(s: seq<T>, i: nat, p: nat, x: T)
    requires i < |s| && p < |s| && i != p
    ensures multiset(s[i := s[p]][p := x]) == multiset(s[i := x])
  {
    assert s[i := s[p]][p := x] == s[i := x][i := s[p]][p := x];
  }

  /** Removing the first entry of s and moving the last entry into its place
      leaves the multiset of s without its first entry. */
  lemma RefillRoot<T>(s: seq<T>)
    requires |s| > 1
    ensures multiset(s[..|s| - 1][0 := s[|s| - 1]]) == multiset(s) - multiset{s[0]}
  {
    var n := |s| - 1;
    assert s == [s[0]] + s[1..n] + [s[n]];
    assert s[..n][0 := s[n]] == [s[n]] + s[1..n];
  }
}
