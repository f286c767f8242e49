/**
 * The bounded node queue of the path search: a binary min-heap of search
 * node references kept in a fixed array of capacity + 1 slots, ordered by
 * each node's Total cost, with a decrease-key operation (Modify) that finds
 * a node by reference identity and sifts it up.
 *
 * The two sifting loops are specified by pure functions (SiftUp, SiftDown)
 * over the slots as values: each slot is a node reference together with the
 * key that node has. What the queue promises is proved about those.
 */
module NodeQueue {
  import opened HeapOrder

  /** A search node. Only its ordering key is modelled; the search routine
      owns the node and may lower its Total before calling Modify. */
  class DtNode {
    var total: real

    constructor (total: real)
      ensures this.total == total
    {
      this.total := total;
    }
  }

  /** One heap slot as the ordering sees it: the node it refers to (null for
      an empty slot) and that node's key. */
  datatype Slot = Slot(node: DtNode?, key: real)

  /** The key of a node reference; an empty slot reads as 0. */
  ghost function Key(d: DtNode?): real
    reads d
  {
    if d == null then 0.0 else d.total
  }

  /** The slot value of a node reference in the current state. */
  ghost function SlotOf(d: DtNode?): Slot
    reads d
  {
    Slot(d, Key(d))
  }

  /** The slot values of an array of node references. */
  ghost function SlotsOf(h: seq<DtNode?>): seq<Slot>
    reads h
  {
    seq(|h|, j requires 0 <= j < |h| reads h => SlotOf(h[j]))
  }

  /** The node references held by a sequence of slots. */
  ghost function NodesOf(s: seq<Slot>): seq<DtNode?>
  {
    seq(|s|, j requires 0 <= j < |s| => s[j].node)
  }

  /** The keys held in the slots s[0..n). */
  ghost function KeysOf(s: seq<Slot>, n: nat): seq<real>
    requires n <= |s|
  {
    seq(n, j requires 0 <= j < n => s[j].key)
  }

  /** Every slot of s holds the key its node has now. */
  ghost predicate Current(s: seq<Slot>)
    reads NodesOf(s)
  {
    forall j :: 0 <= j < |s| ==> s[j].key == Key(NodesOf(s)[j])
  }

  /** Every slot of s below n other than the hole holds a node (the hole is a
      slot being refilled, or -1 for none). */
  ghost predicate Filled(s: seq<Slot>, n: nat, hole: int)
  {
    n <= |s| && forall j :: 0 <= j < n && j != hole ==> s[j].node != null
  }

  /** The node references of h[0..n) once the hole at i is filled with x. */
  ghost function Filling(h: seq<DtNode?>, n: nat, i: nat, x: DtNode?): multiset<DtNode?>
    requires i < n <= |h|
  {
    multiset(h[..n][i := x])
  }

  /** Reading the slots of an array and projecting the references back gives
      the array; the slots read are current. */
  lemma SlotsOfIsCurrent(h: seq<DtNode?>)
    ensures NodesOf(SlotsOf(h)) == h && Current(SlotsOf(h))
  {
  }

  /** Current slots are exactly what reading their references gives. */
  lemma CurrentSlots(s: seq<Slot>)
    requires Current(s)
    ensures SlotsOf(NodesOf(s)) == s
  {
  }

  /** A current slot holds the key of its node. */
  lemma CurrentKey(s: seq<Slot>, j: nat)
    requires Current(s) && j < |s|
    ensures s[j].key == Key(s[j].node)
  {
    assert NodesOf(s)[j] == s[j].node;
  }

  /** Copying one current slot over another keeps the slots current. */
  lemma CurrentMove(s: seq<Slot>, i: nat, c: nat)
    requires Current(s) && i < |s| && c < |s|
    ensures Current(s[i := s[c]])
  {
    CurrentKey(s, c);
  }

  /** Writing one slot changes exactly one reference and one key. */
  lemma SlotUpdate(s: seq<Slot>, n: nat, i: nat, y: Slot)
    requires n <= |s| && i < n
    ensures NodesOf(s[i := y]) == NodesOf(s)[i := y.node]
    ensures KeysOf(s[i := y], n) == KeysOf(s, n)[i := y.key]
  {
  }

  /** Filling the slot after the last live one adds x to the live entries. */
  lemma FillingLast(h: seq<DtNode?>, n: nat, x: DtNode?)
    requires 0 < n <= |h|
    ensures Filling(h, n, n - 1, x) == multiset(h[..n - 1]) + multiset{x}
  {
    assert h[..n][n - 1 := x] == h[..n - 1] + [x];
  }

  /** Filling the root with the entry just past the live ones removes the
      root's entry from the entries up to that one. */
  lemma FillingRoot(h: seq<DtNode?>, n: nat)
    requires 0 < n < |h|
    ensures Filling(h, n, 0, h[n]) == multiset(h[..n + 1]) - multiset{h[0]}
  {
    var w := h[..n + 1];
    RefillRoot(w);
    assert w[..|w| - 1] == h[..n];
  }

  /** The slots after bubbleUp places x into the hole at i: while the parent
      of the hole holds a greater key, that entry moves down into the hole
      and the hole moves up; x fills the hole where this stops. */
  ghost function SiftUp(s: seq<Slot>, i: nat, x: Slot): (r: seq<Slot>)
    requires i < |s|
    ensures |r| == |s| && x in r
    decreases i
  {
    if i > 0 && s[Parent(i)].key > x.key then
      SiftUp(s[i := s[Parent(i)]], Parent(i), x)
    else
      assert s[i := x][i] == x;
      s[i := x]
  }

  /** Sift-up changes only slots on the path from i to the root, and x ends
      up in one of them. */
  lemma {:induction false} SiftUpPath(s: seq<Slot>, i: nat, x: Slot)
    requires i < |s|
    ensures |SiftUp(s, i, x)| == |s|
    ensures forall j :: 0 <= j < |s| && !IsAncestor(j, i) ==> SiftUp(s, i, x)[j] == s[j]
    ensures exists a :: 0 <= a <= i && IsAncestor(a, i) && SiftUp(s, i, x)[a] == x
    decreases i
  {
    if i > 0 && s[Parent(i)].key > x.key {
      var p := Parent(i);
      SiftUpPath(s[i := s[p]], p, x);
      var a :| 0 <= a <= p && IsAncestor(a, p) && SiftUp(s, i, x)[a] == x;
      assert IsAncestor(a, i);
    } else {
      assert IsAncestor(i, i);
    }
  }

  /** The slot on the path from i to the root where bubbleUp places x. */
  ghost function Landing(s: seq<Slot>, i: nat, x: Slot): (a: nat)
    requires i < |s|
    ensures a <= i && IsAncestor(a, i)
    decreases i
  {
    if i > 0 && s[Parent(i)].key > x.key then Landing(s[i := s[Parent(i)]], Parent(i), x) else i
  }

  /** Sift-up shifts each ancestor it passes down exactly one level: x lands
      at a, under a parent key no greater than its own (if a is not the
      root), every slot j on the path strictly below a now holds the old
      entry of its parent, whose key is greater than x's, and every slot on
      the path strictly above a keeps its entry. */
  lemma {:induction false} SiftUpShifts(s: seq<Slot>, i: nat, x: Slot)
    requires i < |s|
    ensures SiftUp(s, i, x)[Landing(s, i, x)] == x
    ensures Landing(s, i, x) > 0 ==> s[Parent(Landing(s, i, x))].key <= x.key
    ensures forall j: nat :: j <= i && IsAncestor(j, i) && IsAncestor(Landing(s, i, x), j) && j != Landing(s, i, x) ==>
              j > 0 && SiftUp(s, i, x)[j] == s[Parent(j)] && s[Parent(j)].key > x.key
    ensures forall j: nat :: j <= i && IsAncestor(j, Landing(s, i, x)) && j != Landing(s, i, x) ==>
              SiftUp(s, i, x)[j] == s[j]
    decreases i
  {
    var a := Landing(s, i, x);
    if i > 0 && s[Parent(i)].key > x.key {
      var p := Parent(i);
      var t := s[i := s[p]];
      SiftUpShifts(t, p, x);
      SiftUpPath(t, p, x);
      AncestorBelow(a, p);
      forall j: nat | j <= i && IsAncestor(j, i) && IsAncestor(a, j) && j != a
        ensures j > 0 && SiftUp(s, i, x)[j] == s[Parent(j)] && s[Parent(j)].key > x.key
      {
        if j == i {
          if IsAncestor(i, p) {
            AncestorBelow(i, p);
          }
        } else {
          AncestorBelow(j, p);
        }
      }
      forall j: nat | j <= i && IsAncestor(j, a) && j != a
        ensures SiftUp(s, i, x)[j] == s[j]
      {
        AncestorBelow(j, a);
      }
    } else {
      forall j: nat | j <= i && IsAncestor(j, i) && IsAncestor(a, j) && j != a
        ensures false
      {
        AncestorBelow(j, i);
        AncestorBelow(a, j);
      }
    }
  }

  /** Sift-up of a node leaves no live slot empty. */
  lemma {:induction false} SiftUpFilled(s: seq<Slot>, n: nat, i: nat, x: Slot)
    requires i < |s| && Filled(s, n, i) && (i < n || i == 0) && x.node != null
    ensures |SiftUp(s, i, x)| == |s| && Filled(SiftUp(s, i, x), n, -1)
    decreases i
  {
    if i > 0 && s[Parent(i)].key > x.key {
      SiftUpFilled(s[i := s[Parent(i)]], n, Parent(i), x);
    }
  }

  /** Sift-up keeps every slot current when x is. */
  lemma {:induction false} SiftUpCurrent(s: seq<Slot>, i: nat, x: Slot)
    requires i < |s| && Current(s) && x == SlotOf(x.node)
    ensures Current(SiftUp(s, i, x))
    decreases i
  {
    if i > 0 && s[Parent(i)].key > x.key {
      var p := Parent(i);
      assert NodesOf(s)[p] == s[p].node;
      SiftUpCurrent(s[i := s[p]], p, x);
    }
  }

  /** Sift-up only moves entries: the live references are those of s with
      the hole filled by x. */
  lemma {:induction false} SiftUpBag(s: seq<Slot>, n: nat, i: nat, x: Slot)
    requires i < n <= |s|
    ensures |SiftUp(s, i, x)| == |s|
    ensures multiset(NodesOf(SiftUp(s, i, x))[..n]) == Filling(NodesOf(s), n, i, x.node)
    decreases i
  {
    var h := NodesOf(s);
    if i > 0 && s[Parent(i)].key > x.key {
      var p := Parent(i);
      SiftUpBag(s[i := s[p]], n, p, x);
      SlotUpdate(s, n, i, s[p]);
      assert h[i := h[p]][..n] == h[..n][i := h[..n][p]];
      MoveIntoHole(h[..n], i, p, x.node);
    } else {
      SlotUpdate(s, n, i, x);
      assert h[i := x.node][..n] == h[..n][i := x.node];
    }
  }

  /** If the keys are ordered around the hole at i and x is no greater than
      the keys of the children of i, sift-up restores heap order. */
  lemma {:induction false} SiftUpOrders(s: seq<Slot>, n: nat, i: nat, x: Slot)
    requires i < n <= |s|
    requires OrderedAround(KeysOf(s, n), i) && AtMostChildren(KeysOf(s, n), i, x.key)
    ensures |SiftUp(s, i, x)| == |s|
    ensures HeapOrdered(KeysOf(SiftUp(s, i, x), n))
    decreases i
  {
    var ks := KeysOf(s, n);
    if i > 0 && s[Parent(i)].key > x.key {
      var p := Parent(i);
      BubbleStep(ks, i, x.key);
      SlotUpdate(s, n, i, s[p]);
      SiftUpOrders(s[i := s[p]], n, p, x);
    } else {
      BubbleFinish(ks, i, x.key);
      SlotUpdate(s, n, i, x);
    }
  }

  /** The child of i that trickleDown moves the hole into: the smaller
      child of i among the live keys. */
  ghost function Follow(s: seq<Slot>, n: nat, i: nat): (c: nat)
    requires 2 * i + 1 < n <= |s|
    ensures i < c < n && c <= 2 * i + 2
  {
    SmallerChild(KeysOf(s, n), i)
  }

  /** The slots after trickleDown refills the hole at i with x: the hole
      descends into the child with the smaller key (the left one on a tie)
      until it has no live child, then x is placed there by sift-up. */
  ghost function SiftDown(s: seq<Slot>, n: nat, i: nat, x: Slot): (r: seq<Slot>)
    requires i < |s| && n <= |s|
    ensures |r| == |s| && x in r
    decreases n - i
  {
    if 2 * i + 1 < n then
      var c := Follow(s, n, i);
      SiftDown(s[i := s[c]], n, c, x)
    else
      SiftUp(s, i, x)
  }

  /** On current, filled slots, Follow is the child chosen by comparing the
      keys the nodes have now. */
  lemma FollowByNodes(s: seq<Slot>, n: nat, i: nat)
    requires 2 * i + 1 < n <= |s| && Current(s) && Filled(s, n, -1)
    ensures Follow(s, n, i) == if 2 * i + 2 < n && Key(NodesOf(s)[2 * i + 1]) > Key(NodesOf(s)[2 * i + 2])
                               then 2 * i + 2 else 2 * i + 1
  {
    CurrentKey(s, 2 * i + 1);
    if 2 * i + 2 < n {
      CurrentKey(s, 2 * i + 2);
    }
  }

  /** One step of trickle-down: copying the followed child c into the hole
      at i keeps the slots current and filled, changes one reference, and
      leaves the same trickle-down to do from c. */
  lemma TrickleMove(s: seq<Slot>, n: nat, i: nat, c: nat, x: Slot)
    requires 2 * i + 1 < n <= |s| && Current(s) && Filled(s, n, -1)
    requires c == Follow(s, n, i)
    ensures Current(s[i := s[c]]) && Filled(s[i := s[c]], n, -1)
    ensures NodesOf(s[i := s[c]]) == NodesOf(s)[i := NodesOf(s)[c]]
    ensures SiftDown(s[i := s[c]], n, c, x) == SiftDown(s, n, i, x)
  {
    CurrentMove(s, i, c);
    SlotUpdate(s, n, i, s[c]);
  }

  /** Trickle-down of a node leaves no live slot empty. */
  lemma {:induction false} SiftDownFilled(s: seq<Slot>, n: nat, i: nat, x: Slot)
    requires i < |s| && Filled(s, n, -1) && (i < n || i == 0) && x.node != null
    ensures |SiftDown(s, n, i, x)| == |s| && Filled(SiftDown(s, n, i, x), n, -1)
    decreases n - i
  {
    if 2 * i + 1 < n {
      var c := Follow(s, n, i);
      SiftDownFilled(s[i := s[c]], n, c, x);
    } else {
      SiftUpFilled(s, n, i, x);
    }
  }

  /** Trickle-down keeps every slot current when x is. */
  lemma {:induction false} SiftDownCurrent(s: seq<Slot>, n: nat, i: nat, x: Slot)
    requires i < |s| && n <= |s| && Current(s) && x == SlotOf(x.node)
    ensures Current(SiftDown(s, n, i, x))
    decreases n - i
  {
    if 2 * i + 1 < n {
      var c := Follow(s, n, i);
      assert NodesOf(s)[c] == s[c].node;
      SiftDownCurrent(s[i := s[c]], n, c, x);
    } else {
      SiftUpCurrent(s, i, x);
    }
  }

  /** Trickle-down only moves entries: the live references are those of s
      with the hole filled by x. */
  lemma {:induction false} SiftDownBag(s: seq<Slot>, n: nat, i: nat, x: Slot)
    requires i < n <= |s|
    ensures |SiftDown(s, n, i, x)| == |s|
    ensures multiset(NodesOf(SiftDown(s, n, i, x))[..n]) == Filling(NodesOf(s), n, i, x.node)
    decreases n - i
  {
    var h := NodesOf(s);
    if 2 * i + 1 < n {
      var c := Follow(s, n, i);
      SiftDownBag(s[i := s[c]], n, c, x);
      SlotUpdate(s, n, i, s[c]);
      assert h[i := h[c]][..n] == h[..n][i := h[..n][c]];
      MoveIntoHole(h[..n], i, c, x.node);
    } else {
      SiftUpBag(s, n, i, x);
    }
  }

  /** If the keys are ordered around the hole at i, trickle-down restores
      heap order, whatever the key of x. */
  lemma {:induction false} SiftDownOrders(s: seq<Slot>, n: nat, i: nat, x: Slot)
    requires i < n <= |s|
    requires OrderedAround(KeysOf(s, n), i)
    ensures |SiftDown(s, n, i, x)| == |s|
    ensures HeapOrdered(KeysOf(SiftDown(s, n, i, x), n))
    decreases n - i
  {
    var ks := KeysOf(s, n);
    if 2 * i + 1 < n {
      var c := Follow(s, n, i);
      TrickleStep(ks, i);
      SlotUpdate(s, n, i, s[c]);
      SiftDownOrders(s[i := s[c]], n, c, x);
    } else {
      ChildrenOf(i);
      SiftUpOrders(s, n, i, x);
    }
  }

  /** An index holding x with no earlier occurrence is the first index. */
  lemma FirstIndexAt<T>(s: seq<T>, x: T, i: nat)
    requires i < |s| && s[i] == x && x !in s[..i]
    ensures FirstIndex(s, x) == i
  {
    var k := FirstIndex(s, x);
    assert s[..i + 1][i] == x && s[..k + 1][k] == x;
  }

  /** What push does to the slot values: with node x sifted up from the new
      last live slot n - 1 of a heap-ordered s, the slots stay current and
      filled, the live keys are heap-ordered, and the live references gain x. */
  lemma PushSlots(s: seq<Slot>, n: nat, x: Slot)
    requires 0 < n <= |s| && Filled(s, n, n - 1) && Current(s)
    requires x.node != null && x == SlotOf(x.node)
    requires HeapOrdered(KeysOf(s, n - 1))
    ensures |SiftUp(s, n - 1, x)| == |s|
    ensures Current(SiftUp(s, n - 1, x)) && Filled(SiftUp(s, n - 1, x), n, -1)
    ensures HeapOrdered(KeysOf(SiftUp(s, n - 1, x), n))
    ensures multiset(NodesOf(SiftUp(s, n - 1, x))[..n]) == multiset(NodesOf(s)[..n - 1]) + multiset{x.node}
  {
    SiftUpFilled(s, n, n - 1, x);
    SiftUpCurrent(s, n - 1, x);
    assert KeysOf(s, n) == KeysOf(s, n - 1) + [s[n - 1].key];
    AppendHole(KeysOf(s, n - 1), s[n - 1].key, x.key);
    SiftUpOrders(s, n, n - 1, x);
    SiftUpBag(s, n, n - 1, x);
    FillingLast(NodesOf(s), n, x.node);
  }

  /** What pop does to the slot values: with the last live node x of a
      heap-ordered s trickled down from the root over the first n slots, the
      slots stay current and filled, the n live keys are heap-ordered, and the
      live references are the old n + 1 without the old root. */
  lemma PopSlots(s: seq<Slot>, n: nat, x: Slot)
    requires n < |s| && Filled(s, n + 1, -1) && Current(s)
    requires x == s[n] && HeapOrdered(KeysOf(s, n + 1))
    ensures |SiftDown(s, n, 0, x)| == |s|
    ensures Current(SiftDown(s, n, 0, x)) && Filled(SiftDown(s, n, 0, x), n, -1)
    ensures HeapOrdered(KeysOf(SiftDown(s, n, 0, x), n))
    ensures n > 0 ==> multiset(NodesOf(SiftDown(s, n, 0, x))[..n]) == multiset(NodesOf(s)[..n + 1]) - multiset{s[0].node}
  {
    assert x == SlotOf(x.node) by {
      assert NodesOf(s)[n] == x.node;
    }
    SiftDownFilled(s, n, 0, x);
    SiftDownCurrent(s, n, 0, x);
    if n > 0 {
      assert KeysOf(s, n) == KeysOf(s, n + 1)[..n];
      PrefixOrdered(KeysOf(s, n + 1), n);
      OrderedIsOrderedAround(KeysOf(s, n), 0);
      SiftDownOrders(s, n, 0, x);
      SiftDownBag(s, n, 0, x);
      FillingRoot(NodesOf(s), n);
    }
  }

  /** What modify does to the slot values: with node x, found in live slot i
      of s, sifted up from there, the slots stay current and filled and the
      live references are unchanged; if the keys had the shape a lowered key
      at i leaves, they are heap-ordered again. */
  lemma ModifySlots(s: seq<Slot>, n: nat, i: nat, x: Slot)
    requires i < n <= |s| && Filled(s, n, -1) && Current(s)
    requires x == s[i]
    ensures |SiftUp(s, i, x)| == |s|
    ensures Current(SiftUp(s, i, x)) && Filled(SiftUp(s, i, x), n, -1)
    ensures multiset(NodesOf(SiftUp(s, i, x))[..n]) == multiset(NodesOf(s)[..n])
    ensures HeapExceptAt(KeysOf(s, n), i) ==> HeapOrdered(KeysOf(SiftUp(s, i, x), n))
  {
    assert x == SlotOf(x.node) by {
      assert NodesOf(s)[i] == x.node;
    }
    SiftUpFilled(s, n, i, x);
    SiftUpCurrent(s, i, x);
    SiftUpBag(s, n, i, x);
    assert NodesOf(s)[..n][i := x.node] == NodesOf(s)[..n];
    if HeapExceptAt(KeysOf(s, n), i) {
      SiftUpOrders(s, n, i, x);
    }
  }

  /** Index of the first occurrence of x in s, or -1 when x does not occur. */
  function FirstIndex<T(==)>(s: seq<T>, x: T): (k: int)
    ensures -1 <= k < |s|
    ensures k == -1 <==> x !in s
    ensures k >= 0 ==> s[k] == x && x !in s[..k]
  {
    if |s| == 0 then -1
    else if s[0] == x then 0
    else
      var k := FirstIndex(s[1..], x);
      if k == -1 then -1
      else
        assert s[..k + 1] == [s[0]] + s[1..][..k];
        k + 1
  }

  class DtNodeQueue {
    /** The backing slots; the live entries are heap[0..size). */
    const heap: array<DtNode?>
    const capacity: int
    var size: nat

    /** The fixed layout: capacity + 1 slots and a size within them. */
    ghost predicate Shape()
      reads this
    {
      capacity > 0 && heap.Length == capacity + 1 && size <= heap.Length
    }

    /** Object invariant: the fixed layout, and every live slot holds a node. */
    ghost predicate Valid()
      reads this, heap
    {
      Shape() && forall j :: 0 <= j < size ==> heap[j] != null
    }

    /** The live entries, in slot order. */
    ghost function Live(): seq<DtNode?>
      requires Shape()
      reads this, heap
    {
      heap[..size]
    }

    /** All slots of the backing array, as values. */
    ghost function Slots(): seq<Slot>
      reads this, heap, heap[..]
    {
      SlotsOf(heap[..])
    }

    /** The keys of the live entries, in slot order. */
    ghost function Keys(): seq<real>
      requires Shape()
      reads this, heap, heap[..]
    {
      KeysOf(Slots(), size)
    }

    /** The queue invariant kept between operations. */
    ghost predicate IsHeap()
      requires Shape()
      reads this, heap, heap[..]
    {
      HeapOrdered(Keys())
    }

    /** The slot values of a valid queue: current, consistent with the array,
        and holding a node in every live slot. */
    lemma ReadSlots()
      requires Valid()
      ensures NodesOf(Slots()) == heap[..] && Current(Slots()) && Filled(Slots(), size, -1)
      ensures Live() == NodesOf(Slots())[..size]
    {
      SlotsOfIsCurrent(heap[..]);
    }

    /** When the array holds the references of current slots t with every
        live one filled, the queue is valid and t are its slots. */
    lemma SettleSlots(t: seq<Slot>)
      requires Shape() && heap[..] == NodesOf(t) && Current(t) && Filled(t, size, -1)
      ensures Valid() && Slots() == t && Keys() == KeysOf(t, size)
      ensures Live() == NodesOf(t)[..size]
    {
      CurrentSlots(t);
    }

    /** The state after pop's trickle-down, from the slots s it started
        with (live entries s[0..size]): a valid heap-ordered queue holding
        the old live entries without the old root. */
    lemma PopDone(s: seq<Slot>, live: seq<DtNode?>)
      requires Shape() && size < |s| && Filled(s, size + 1, -1) && Current(s)
      requires HeapOrdered(KeysOf(s, size + 1)) && live == NodesOf(s)[..size + 1]
      requires heap[..] == NodesOf(SiftDown(s, size, 0, s[size]))
      ensures Valid() && IsHeap()
      ensures multiset(Live()) == multiset(live) - multiset{s[0].node}
    {
      PopSlots(s, size, s[size]);
      SettleSlots(SiftDown(s, size, 0, s[size]));
    }

    /** The state after push's sift-up of x from the new last live slot,
        from the slots s it started with (live entries s[0..size - 1]): a
        valid heap-ordered queue holding the old live entries and x. */
    lemma PushDone(s: seq<Slot>, x: Slot, live: seq<DtNode?>)
      requires Shape() && 0 < size <= |s| && Filled(s, size, size - 1) && Current(s)
      requires x.node != null && x == SlotOf(x.node)
      requires HeapOrdered(KeysOf(s, size - 1)) && live == NodesOf(s)[..size - 1]
      requires heap[..] == NodesOf(SiftUp(s, size - 1, x))
      ensures Valid() && IsHeap()
      ensures multiset(Live()) == multiset(live) + multiset{x.node}
    {
      PushSlots(s, size, x);
      SettleSlots(SiftUp(s, size - 1, x));
    }

    /** The state after modify's sift-up from live slot i, from the slots s
        it started with: a valid queue with the same live entries, and
        heap-ordered when s had the shape a lowered key at i leaves. */
    lemma ModifyDone(s: seq<Slot>, i: nat, live: seq<DtNode?>)
      requires Shape() && i < size <= |s| && Filled(s, size, -1) && Current(s)
      requires live == NodesOf(s)[..size]
      requires heap[..] == NodesOf(SiftUp(s, i, s[i]))
      ensures Valid()
      ensures multiset(Live()) == multiset(live)
      ensures HeapExceptAt(KeysOf(s, size), i) ==> IsHeap()
    {
      ModifySlots(s, size, i, s[i]);
      SettleSlots(SiftUp(s, i, s[i]));
    }

    /** newDtNodeQueue: the capacity must be positive (an assertion in the
        source); the backing array gets capacity + 1 empty slots. */
    constructor (n: int)
      requires n > 0
      ensures Valid() && IsHeap()
      ensures capacity == n && heap.Length == n + 1 && size == 0
      ensures forall j :: 0 <= j < heap.Length ==> heap[j] == null
      ensures fresh(heap)
    {
      capacity := n;
      heap := new DtNode?[n + 1](_ => null);
      size := 0;
    }

    /** bubbleUp: places node into the hole at slot i0, as SiftUp says. */
    method BubbleUp(i0: nat, node: DtNode)
      requires Shape() && i0 < heap.Length && (i0 < size || i0 == 0)
      requires forall j :: 0 <= j < size && j != i0 ==> heap[j] != null
      modifies heap
      ensures heap[..] == NodesOf(SiftUp(old(Slots()), i0, old(SlotOf(node))))
    {
      ghost var s := Slots();
      ghost var x := SlotOf(node);
      ghost var target := SiftUp(s, i0, x);
      var i: nat := i0;
      var parent := Parent(i);
      while i > 0 && heap[parent].total > node.total
        invariant i <= i0 && parent == Parent(i) && |s| == heap.Length
        invariant heap[..] == NodesOf(s)
        invariant forall j :: 0 <= j < i ==> s[j].node != null && s[j].key == s[j].node.total
        invariant x == Slot(node, node.total)
        invariant SiftUp(s, i, x) == target
        decreases i
      {
        heap[i] := heap[parent];
        s := s[i := s[parent]];
        i := parent;
        parent := Parent(i);
      }
      heap[i] := node;
      s := s[i := x];
    }

    /** trickleDown: refills the hole at slot i0 with node, as SiftDown
        says. */
    method TrickleDown(i0: nat, node: DtNode)
      requires Valid() && i0 < heap.Length && (i0 < size || i0 == 0)
      modifies heap
      ensures heap[..] == NodesOf(SiftDown(old(Slots()), size, i0, old(SlotOf(node))))
    {
      ghost var s := Slots();
      ghost var x := SlotOf(node);
      ghost var target := SiftDown(s, size, i0, x);
      ReadSlots();
      var i: nat := i0;
      var child := i * 2 + 1;
      while child < size
        invariant i < heap.Length && (i < size || i == 0) && child == 2 * i + 1
        invariant |s| == heap.Length && heap[..] == NodesOf(s)
        invariant Current(s) && Filled(s, size, -1)
        invariant SiftDown(s, size, i, x) == target
        decreases size - i
      {
        child := ChildToFollow(i, s);
        TrickleMove(s, size, i, child, x);
        heap[i] := heap[child];
        s := s[i := s[child]];
        i := child;
        child := i * 2 + 1;
      }
      CurrentSlots(s);
      BubbleUp(i, node);
    }

    /** The child of i that trickleDown moves into: the right one only when
        it is live and its node's key is strictly smaller than the left's. */
    method ChildToFollow(i: nat, ghost s: seq<Slot>) returns (child: nat)
      requires Shape() && 2 * i + 1 < size && heap[..] == NodesOf(s) && Current(s) && Filled(s, size, -1)
      ensures child == Follow(s, size, i)
    {
      FollowByNodes(s, size, i);
      child := i * 2 + 1;
      if child + 1 < size && heap[child].total > heap[child + 1].total {
        child := child + 1;
      }
    }

    /** Resets the queue to empty; the backing slots are left as they are. */
    method Clear()
      requires Valid()
      modifies this
      ensures Valid() && IsHeap()
      ensures size == 0 && Live() == []
      ensures heap[..] == old(heap[..])
    {
      size := 0;
    }

    /** The node in slot 0: on a non-empty heap-ordered queue, a live node
        whose key is minimal. On an empty queue the source returns whatever
        slot 0 holds. */
    function Top(): (r: DtNode?)
      requires Valid()
      reads this, heap, heap[..]
      ensures r == heap[0]
      ensures size > 0 ==> r != null && r in Live()
      ensures size > 0 && IsHeap() ==> forall j :: 0 <= j < size ==> r.total <= heap[j].total
    {
      RootHoldsMin();
      heap[0]
    }

    /** In a non-empty heap-ordered queue, slot 0 holds a minimal key. */
    lemma RootHoldsMin()
      requires Valid()
      ensures size > 0 && IsHeap() ==> forall j :: 0 <= j < size ==> heap[0].total <= heap[j].total
    {
      if size > 0 && IsHeap() {
        forall j | 0 <= j < size
          ensures heap[0].total <= heap[j].total
        {
          RootIsMin(Keys(), j);
        }
      }
    }

    /** Removes and returns the node in slot 0, a node of minimal key; the
        last live node refills the hole by trickle-down. */
    method Pop() returns (r: DtNode)
      requires Valid() && IsHeap() && size > 0
      modifies this, heap
      ensures Valid() && IsHeap()
      ensures size == old(size) - 1
      ensures r == old(heap[0])
      ensures forall j :: 0 <= j < old(size) ==> r.total <= old(heap[j].total)
      ensures multiset(Live()) == multiset(old(Live())) - multiset{r}
    {
      ghost var s := Slots();
      ghost var live := Live();
      ReadSlots();
      RootHoldsMin();
      r := heap[0];
      size := size - 1;
      var last := heap[size];
      TrickleDown(0, last);
      PopDone(s, live);
    }

    /** Appends node in the next slot and sifts it up. The source does not
        check the bound: a push into a full array fails with an index error. */
    method Push(node: DtNode)
      requires Valid() && IsHeap() && size < heap.Length
      modifies this, heap
      ensures Valid() && IsHeap()
      ensures size == old(size) + 1
      ensures multiset(Live()) == multiset(old(Live())) + multiset{node}
    {
      ghost var s := Slots();
      ghost var x := SlotOf(node);
      ghost var live := Live();
      ReadSlots();
      size := size + 1;
      BubbleUp(size - 1, node);
      PushDone(s, x, live);
    }

    /** Decrease-key: finds the first live slot holding node (by reference)
        and sifts it up from there; nothing changes when node is not queued.
        If the queue was heap-ordered except on the edge above that slot
        (as after lowering node's key, see DecreaseKey), it is heap-ordered
        again. */
    method Modify(node: DtNode)
      requires Valid()
      modifies heap
      ensures Valid()
      ensures multiset(Live()) == multiset(old(Live()))
      ensures node !in old(Live()) ==> heap[..] == old(heap[..])
      ensures node in old(Live()) && old(HeapExceptAt(Keys(), FirstIndex(Live(), node))) ==> IsHeap()
    {
      ghost var s := Slots();
      ghost var live := Live();
      ReadSlots();
      for i := 0 to size
        invariant node !in live[..i]
      {
        if heap[i] == node {
          FirstIndexAt(live, node, i);
          BubbleUp(i, node);
          ModifyDone(s, i, live);
          return;
        }
        assert live[..i + 1] == live[..i] + [live[i]];
      }
      assert live[..size] == live;
    }

    /** Whether the queue holds no nodes. */
    function Empty(): (b: bool)
      requires Shape()
      reads this, heap
      ensures b <==> Live() == []
    {
      size == 0
    }

    /** The number of nodes the queue was created for; the backing array has
        one slot more. */
    function GetCapacity(): (c: int)
      requires Shape()
      reads this
      ensures c > 0 && c + 1 == heap.Length
    {
      capacity
    }
  }
}
