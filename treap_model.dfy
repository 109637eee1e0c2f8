/** Value-level model of the treap of treap.cpp.

    A `Branch` carries the key and the priority that the C node stores.
    `Split` and `Merge` compute exactly the trees the C routines link up, and
    insertion and removal are built from them as in the C code.  The tree
    keeps equal keys (nothing deduplicates), so its contents are a multiset:
    `Elems`.  The invariants are an in-order sequence that never decreases and
    a max-heap on priorities. */
module TreapModel {

  datatype Tree = Nil | Branch(left: Tree, key: int, priority: int, right: Tree)

  function InOrder(t: Tree): seq<int> {
    if t.Nil? then [] else InOrder(t.left) + [t.key] + InOrder(t.right)
  }

  /** The keys the tree holds, with their multiplicities. */
  function Elems(t: Tree): multiset<int> {
    multiset(InOrder(t))
  }

  /** A sequence that never decreases. */
  ghost predicate Sorted(s: seq<int>) {
    forall i, j | 0 <= i < j < |s| :: s[i] <= s[j]
  }

  /** Every priority in the tree is at most `p`. */
  ghost predicate Bounded(t: Tree, p: int) {
    t.Nil? || (t.priority <= p && Bounded(t.left, p) && Bounded(t.right, p))
  }

  /** Max-heap order: no node has a priority above its parent's. */
  ghost predicate Heap(t: Tree) {
    t.Nil? ||
    (Heap(t.left) && Heap(t.right) &&
     Bounded(t.left, t.priority) && Bounded(t.right, t.priority))
  }

  ghost predicate IsTreap(t: Tree) {
    Sorted(InOrder(t)) && Heap(t)
  }

  /** merge: the root with the higher priority stays on top, the right
      operand's root on a tie, and the other operand is merged into the side
      that faces it. */
  function Merge(l: Tree, r: Tree): Tree
    decreases l, r
  {
    if l.Nil? then r
    else if r.Nil? then l
    else if r.priority >= l.priority then r.(left := Merge(l, r.left))
    else l.(right := Merge(l.right, r))
  }

  /** split: keys below `key` go to the first tree, the rest to the second. */
  function Split(t: Tree, key: int): (Tree, Tree) {
    if t.Nil? then (Nil, Nil)
    else if key > t.key then
      var p := Split(t.right, key);
      (t.(right := p.0), p.1)
    else
      var p := Split(t.left, key);
      (p.0, t.(left := p.1))
  }

  /** tree_insert: split at the key, then merge the lower part, a new node
      with the given priority, and the upper part. */
  function Insert(t: Tree, key: int, priority: int): Tree {
    var p := Split(t, key);
    Merge(Merge(p.0, Branch(Nil, key, priority, Nil)), p.1)
  }

  /** The second step of tree_remove, on the keys at or above `key`: isolate
      those below `key + 1` and drop the root of that piece, merging its two
      subtrees back in its place. */
  function DropPieceRoot(t: Tree, key: int): Tree {
    var upper := Split(t, key + 1);
    if upper.0.Branch? then Merge(Merge(upper.0.left, upper.0.right), upper.1)
    else upper.1
  }

  /** tree_remove: split at the key, drop one copy from the upper part, and
      merge the two parts again. */
  function Remove(t: Tree, key: int): Tree {
    var lower := Split(t, key);
    Merge(lower.0, DropPieceRoot(lower.1, key))
  }

  /** find_min: the key of the leftmost node. */
  function MinKey(t: Tree): int
    requires t.Branch?
  {
    if t.left.Nil? then t.key else MinKey(t.left)
  }

  // ---------------------------------------------------------------------------
  // Sequences that never decrease

  lemma {:induction false} SortedSplit(a: seq<int>, b: seq<int>)
    requires Sorted(a + b)
    ensures Sorted(a) && Sorted(b)
    ensures forall x, y | x in a && y in b :: x <= y
  {
    assert forall i | 0 <= i < |a| :: (a + b)[i] == a[i];
    assert forall j | 0 <= j < |b| :: (a + b)[|a| + j] == b[j];
  }

  lemma {:induction false} SortedJoin(a: seq<int>, b: seq<int>)
    requires Sorted(a) && Sorted(b)
    requires forall x, y | x in a && y in b :: x <= y
    ensures Sorted(a + b)
  {
    var s := a + b;
    forall i, j | 0 <= i < j < |s| ensures s[i] <= s[j] {
      if j < |a| {
        assert s[i] == a[i] && s[j] == a[j];
      } else if i >= |a| {
        assert s[i] == b[i - |a|] && s[j] == b[j - |a|];
      } else {
        assert s[i] == a[i] && s[j] == b[j - |a|];
        assert a[i] in a && b[j - |a|] in b;
      }
    }
  }

  /** Dropping one element of a sequence that never decreases leaves one. */
  lemma {:induction false} SortedDrop(a: seq<int>, x: int, b: seq<int>)
    requires Sorted(a + [x] + b)
    ensures Sorted(a + b)
  {
    SortedSplit(a + [x], b);
    SortedSplit(a, [x]);
    forall u, v | u in a && v in b ensures u <= v {
      assert x in [x] && x in a + [x];
      assert u <= x;
    }
    SortedJoin(a, b);
  }

  // ---------------------------------------------------------------------------
  // merge

  /** merge concatenates the in-order sequences of its operands. */
  lemma {:induction false} MergeInOrder(l: Tree, r: Tree)
    ensures InOrder(Merge(l, r)) == InOrder(l) + InOrder(r)
    decreases l, r
  {
    if l.Branch? && r.Branch? {
      if r.priority >= l.priority {
        MergeInOrder(l, r.left);
      } else {
        MergeInOrder(l.right, r);
      }
    }
  }

  /** An absent operand leaves the other unchanged; otherwise the root of the
      result is the root of the operand with the higher priority, and the
      right operand's root on a tie. */
  lemma {:induction false} MergeRoot(l: Tree, r: Tree)
    ensures l.Nil? ==> Merge(l, r) == r
    ensures r.Nil? ==> Merge(l, r) == l
    ensures l.Branch? && r.Branch? && r.priority >= l.priority ==>
              Merge(l, r).key == r.key && Merge(l, r).priority == r.priority &&
              Merge(l, r).right == r.right
    ensures l.Branch? && r.Branch? && r.priority < l.priority ==>
              Merge(l, r).key == l.key && Merge(l, r).priority == l.priority &&
              Merge(l, r).left == l.left
  {
  }

  /** A priority bound on both operands holds of the merge. */
  lemma {:induction false} MergeBounded(l: Tree, r: Tree, p: int)
    requires Bounded(l, p) && Bounded(r, p)
    ensures Bounded(Merge(l, r), p)
    decreases l, r
  {
    if l.Branch? && r.Branch? {
      if r.priority >= l.priority {
        MergeBounded(l, r.left, p);
      } else {
        MergeBounded(l.right, r, p);
      }
    }
  }

  /** Merging two max-heaps gives a max-heap. */
  lemma {:induction false} MergeHeap(l: Tree, r: Tree)
    requires Heap(l) && Heap(r)
    ensures Heap(Merge(l, r))
    decreases l, r
  {
    if l.Branch? && r.Branch? {
      if r.priority >= l.priority {
        MergeHeap(l, r.left);
        BoundedWeaken(l, l.priority, r.priority);
        MergeBounded(l, r.left, r.priority);
      } else {
        MergeHeap(l.right, r);
        BoundedWeaken(r, r.priority, l.priority);
        MergeBounded(l.right, r, l.priority);
      }
    }
  }

  /** A heap is bounded by its root priority, hence by anything above it. */
  lemma {:induction false} BoundedWeaken(t: Tree, p: int, q: int)
    requires t.Branch? ==> Heap(t) && t.priority == p
    requires p <= q
    ensures Bounded(t, q)
  {
    if t.Branch? {
      BoundedMono(t.left, p, q);
      BoundedMono(t.right, p, q);
    }
  }

  lemma {:induction false} BoundedMono(t: Tree, p: int, q: int)
    requires Bounded(t, p) && p <= q
    ensures Bounded(t, q)
  {
    if t.Branch? {
      BoundedMono(t.left, p, q);
      BoundedMono(t.right, p, q);
    }
  }

  // ---------------------------------------------------------------------------
  // split

  /** The two halves of a split, read in order one after the other, are the
      in-order sequence of the tree: every node lands in exactly one half. */
  lemma {:induction false} SplitInOrder(t: Tree, key: int)
    ensures InOrder(Split(t, key).0) + InOrder(Split(t, key).1) == InOrder(t)
  {
    if t.Branch? {
      if key > t.key {
        SplitInOrder(t.right, key);
      } else {
        SplitInOrder(t.left, key);
      }
    }
  }

  /** On a tree whose in-order sequence never decreases, the first half of a
      split holds exactly the keys below `key` and the second the others. */
  lemma {:induction false} SplitPartitions(t: Tree, key: int)
    requires Sorted(InOrder(t))
    ensures forall x | x in InOrder(Split(t, key).0) :: x < key
    ensures forall x | x in InOrder(Split(t, key).1) :: key <= x
  {
    if t.Branch? {
      var a, b := InOrder(t.left), InOrder(t.right);
      SortedSplit(a + [t.key], b);
      SortedSplit(a, [t.key]);
      assert t.key in a + [t.key];
      if key > t.key {
        var p := Split(t.right, key);
        SplitPartitions(t.right, key);
        SplitInOrder(t.right, key);
        forall x | x in InOrder(p.0) ensures x < key {
          assert x in b;
        }
        assert InOrder(Split(t, key).0) == a + [t.key] + InOrder(p.0);
      } else {
        var p := Split(t.left, key);
        SplitPartitions(t.left, key);
        SplitInOrder(t.left, key);
        forall x | x in InOrder(p.1) ensures key <= x {
          assert x in a;
        }
        assert InOrder(Split(t, key).1) == InOrder(p.1) + [t.key] + b;
      }
    }
  }

  /** A priority bound on the tree holds of both halves. */
  lemma {:induction false} SplitBounded(t: Tree, key: int, p: int)
    requires Bounded(t, p)
    ensures Bounded(Split(t, key).0, p) && Bounded(Split(t, key).1, p)
  {
    if t.Branch? {
      if key > t.key {
        SplitBounded(t.right, key, p);
      } else {
        SplitBounded(t.left, key, p);
      }
    }
  }

  /** Both halves of a split max-heap are max-heaps. */
  lemma {:induction false} SplitHeap(t: Tree, key: int)
    requires Heap(t)
    ensures Heap(Split(t, key).0) && Heap(Split(t, key).1)
  {
    if t.Branch? {
      if key > t.key {
        SplitHeap(t.right, key);
        SplitBounded(t.right, key, t.priority);
      } else {
        SplitHeap(t.left, key);
        SplitBounded(t.left, key, t.priority);
      }
    }
  }

  /** Both halves of a split treap are treaps, partitioned at `key`. */
  lemma {:induction false} SplitTreap(t: Tree, key: int)
    requires IsTreap(t)
    ensures IsTreap(Split(t, key).0) && IsTreap(Split(t, key).1)
    ensures InOrder(Split(t, key).0) + InOrder(Split(t, key).1) == InOrder(t)
    ensures forall x | x in InOrder(Split(t, key).0) :: x < key
    ensures forall x | x in InOrder(Split(t, key).1) :: key <= x
  {
    SplitInOrder(t, key);
    SortedSplit(InOrder(Split(t, key).0), InOrder(Split(t, key).1));
    SplitPartitions(t, key);
    SplitHeap(t, key);
  }

  // ---------------------------------------------------------------------------
  // tree_insert and tree_remove

  /** Insertion adds exactly one copy of the key, whether or not it is already
      present: the in-order sequence gains the key between the keys below it
      and the others. */
  lemma {:induction false} InsertAddsOne(t: Tree, key: int, priority: int)
    ensures Elems(Insert(t, key, priority)) == Elems(t) + multiset{key}
    ensures |InOrder(Insert(t, key, priority))| == |InOrder(t)| + 1
  {
    var p := Split(t, key);
    var leaf := Branch(Nil, key, priority, Nil);
    var r := Merge(Merge(p.0, leaf), p.1);
    assert Insert(t, key, priority) == r;
    SplitInOrder(t, key);
    MergeInOrder(p.0, leaf);
    MergeInOrder(Merge(p.0, leaf), p.1);
    assert InOrder(leaf) == [key];
    assert InOrder(r) == InOrder(p.0) + [key] + InOrder(p.1);
    calc {
      multiset(InOrder(r));
      multiset(InOrder(p.0)) + multiset{key} + multiset(InOrder(p.1));
      multiset(InOrder(p.0) + InOrder(p.1)) + multiset{key};
    }
  }

  /** Insertion keeps a treap a treap. */
  lemma {:induction false} InsertTreap(t: Tree, key: int, priority: int)
    requires IsTreap(t)
    ensures IsTreap(Insert(t, key, priority))
  {
    var p := Split(t, key);
    var leaf := Branch(Nil, key, priority, Nil);
    SplitTreap(t, key);
    MergeInOrder(p.0, leaf);
    MergeInOrder(Merge(p.0, leaf), p.1);
    var a, b := InOrder(p.0), InOrder(p.1);
    assert InOrder(Insert(t, key, priority)) == (a + [key]) + b;
    assert Sorted([key]);
    SortedJoin(a, [key]);
    forall x, y | x in a + [key] && y in b ensures x <= y {
      assert x in a || x == key;
    }
    SortedJoin(a + [key], b);
    MergeHeap(p.0, leaf);
    MergeHeap(Merge(p.0, leaf), p.1);
  }

  /** The piece that removal isolates holds exactly the copies of `key`. */
  lemma {:induction false} IsolatedPiece(t: Tree, key: int)
    requires Sorted(InOrder(t))
    ensures var lower := Split(t, key);
            var upper := Split(lower.1, key + 1);
            InOrder(t) == InOrder(lower.0) + InOrder(upper.0) + InOrder(upper.1) &&
            (forall x | x in InOrder(upper.0) :: x == key) &&
            (forall x | x in InOrder(lower.0) :: x < key) &&
            (forall x | x in InOrder(upper.1) :: key < x)
  {
    var lower := Split(t, key);
    SplitInOrder(t, key);
    SplitPartitions(t, key);
    SortedSplit(InOrder(lower.0), InOrder(lower.1));
    var upper := Split(lower.1, key + 1);
    SplitInOrder(lower.1, key + 1);
    SplitPartitions(lower.1, key + 1);
    forall x | x in InOrder(upper.0) ensures x == key {
      assert x in InOrder(lower.1);
    }
    forall x | x in InOrder(upper.1) ensures key < x {
      assert x in InOrder(lower.1);
    }
  }

  /** The two splits of removal cut the in-order sequence in three. */
  lemma {:induction false} RemovePieces(t: Tree, key: int)
    ensures var lower := Split(t, key);
            var upper := Split(lower.1, key + 1);
            InOrder(t) == InOrder(lower.0) + InOrder(upper.0) + InOrder(upper.1)
  {
    var lower := Split(t, key);
    SplitInOrder(t, key);
    SplitInOrder(lower.1, key + 1);
  }

  /** Removal reads, in order, as the keys below `key`, the isolated piece
      without its root, and the keys above. */
  lemma {:induction false} RemoveInOrder(t: Tree, key: int)
    ensures var lower := Split(t, key);
            var upper := Split(lower.1, key + 1);
            var m := upper.0;
            InOrder(Remove(t, key)) ==
              InOrder(lower.0) +
              (if m.Branch? then InOrder(m.left) + InOrder(m.right) else []) +
              InOrder(upper.1)
  {
    var lower := Split(t, key);
    var upper := Split(lower.1, key + 1);
    var m := upper.0;
    if m.Branch? {
      var mid := Merge(Merge(m.left, m.right), upper.1);
      assert Remove(t, key) == Merge(lower.0, mid);
      MergeInOrder(m.left, m.right);
      MergeInOrder(Merge(m.left, m.right), upper.1);
      MergeInOrder(lower.0, mid);
    } else {
      assert Remove(t, key) == Merge(lower.0, upper.1);
      MergeInOrder(lower.0, upper.1);
    }
  }

  /** Taking `x` out of the middle of a sequence takes one copy of it out
      of the sequence's multiset. */
  lemma {:induction false} MultisetWithout(a: seq<int>, l: seq<int>, x: int, r: seq<int>, c: seq<int>)
    ensures multiset(a + (l + r) + c) == multiset(a + (l + [x] + r) + c) - multiset{x}
  {
    calc {
      multiset(a + (l + [x] + r) + c);
      multiset(a) + multiset(l) + multiset{x} + multiset(r) + multiset(c);
      multiset(a + (l + r) + c) + multiset{x};
    }
  }

  /** Dropping the root of a piece made only of copies of `key`, with no
      copy on either side of it, takes exactly one copy out of the whole. */
  lemma {:induction false} DropRootOfPiece(a: seq<int>, m: Tree, c: seq<int>, key: int)
    requires forall x | x in InOrder(m) :: x == key
    requires key !in a && key !in c
    ensures var rest := if m.Branch? then InOrder(m.left) + InOrder(m.right) else [];
            multiset(a + rest + c) == multiset(a + InOrder(m) + c) - multiset{key}
    ensures key !in multiset(a + InOrder(m) + c) ==> m.Nil?
  {
    if m.Branch? {
      assert m.key in InOrder(m);
      MultisetWithout(a, InOrder(m.left), m.key, InOrder(m.right), c);
    } else {
      assert a + [] + c == a + c;
      assert key !in multiset(a) + multiset(c);
    }
  }

  /** Removal takes away exactly one copy of the key when there is one, and
      changes nothing otherwise (multiset difference does both). */
  lemma {:induction false} RemoveTakesOne(t: Tree, key: int)
    requires Sorted(InOrder(t))
    ensures Elems(Remove(t, key)) == Elems(t) - multiset{key}
    ensures key !in Elems(t) ==> InOrder(Remove(t, key)) == InOrder(t)
  {
    var lower := Split(t, key);
    var upper := Split(lower.1, key + 1);
    IsolatedPiece(t, key);
    RemoveInOrder(t, key);
    var a, m, c := InOrder(lower.0), upper.0, InOrder(upper.1);
    assert key !in a && key !in c;
    DropRootOfPiece(a, m, c, key);
  }

  /** Dropping the root of a piece from a sequence that never decreases
      leaves one that never decreases. */
  lemma {:induction false} SortedDropRoot(a: seq<int>, m: Tree, c: seq<int>)
    requires m.Branch? && Sorted(a + InOrder(m) + c)
    ensures Sorted(a + (InOrder(m.left) + InOrder(m.right)) + c)
  {
    var l, r := InOrder(m.left), InOrder(m.right);
    assert a + InOrder(m) + c == (a + l) + [m.key] + (r + c);
    SortedDrop(a + l, m.key, r + c);
    assert a + (l + r) + c == (a + l) + (r + c);
  }

  /** Removal keeps the in-order sequence from decreasing. */
  lemma {:induction false} RemoveSorted(t: Tree, key: int)
    requires Sorted(InOrder(t))
    ensures Sorted(InOrder(Remove(t, key)))
  {
    var lower := Split(t, key);
    var upper := Split(lower.1, key + 1);
    RemovePieces(t, key);
    RemoveInOrder(t, key);
    var a, m, c := InOrder(lower.0), upper.0, InOrder(upper.1);
    if m.Branch? {
      SortedDropRoot(a, m, c);
    } else {
      assert InOrder(Remove(t, key)) == InOrder(t);
    }
  }

  /** Removal keeps a max-heap a max-heap. */
  lemma {:induction false} RemoveHeap(t: Tree, key: int)
    requires Heap(t)
    ensures Heap(Remove(t, key))
  {
    var lower := Split(t, key);
    var upper := Split(lower.1, key + 1);
    SplitHeap(t, key);
    SplitHeap(lower.1, key + 1);
    var m := upper.0;
    if m.Branch? {
      var mid := Merge(Merge(m.left, m.right), upper.1);
      assert Remove(t, key) == Merge(lower.0, mid);
      MergeHeap(m.left, m.right);
      MergeHeap(Merge(m.left, m.right), upper.1);
      MergeHeap(lower.0, mid);
    } else {
      assert Remove(t, key) == Merge(lower.0, upper.1);
      MergeHeap(lower.0, upper.1);
    }
  }

  // ---------------------------------------------------------------------------
  // tree_find and find_min

  /** One step of the search in tree_find: in a treap whose in-order sequence
      never decreases, a smaller key can only be on the left, a larger one
      only on the right. */
  lemma {:induction false} SearchStep(t: Tree, key: int)
    requires t.Branch? && Sorted(InOrder(t))
    ensures Sorted(InOrder(t.left)) && Sorted(InOrder(t.right))
    ensures key < t.key ==> (key in Elems(t) <==> key in Elems(t.left))
    ensures key > t.key ==> (key in Elems(t) <==> key in Elems(t.right))
  {
    var a, b := InOrder(t.left), InOrder(t.right);
    SortedSplit(a + [t.key], b);
    SortedSplit(a, [t.key]);
    assert t.key in a + [t.key];
    assert key in Elems(t) <==> key in a || key == t.key || key in b;
  }

  /** tree_remove on a treap leaves a treap with one copy of the key fewer,
      if it held one. */
  lemma {:induction false} RemoveCorrect(t: Tree, key: int)
    requires IsTreap(t)
    ensures IsTreap(Remove(t, key))
    ensures Elems(Remove(t, key)) == Elems(t) - multiset{key}
  {
    RemoveTakesOne(t, key);
    RemoveSorted(t, key);
    RemoveHeap(t, key);
  }

  /** find_min walks to the leftmost node, whose key comes first in order. */
  lemma {:induction false} MinKeyFirst(t: Tree)
    requires t.Branch?
    ensures InOrder(t)[0] == MinKey(t)
  {
    if t.left.Branch? {
      MinKeyFirst(t.left);
      assert InOrder(t) == InOrder(t.left) + ([t.key] + InOrder(t.right));
    }
  }

  /** In a tree whose in-order sequence never decreases, that key is the
      least. */
  lemma {:induction false} MinKeyIsLeast(t: Tree)
    requires t.Branch? && Sorted(InOrder(t))
    ensures MinKey(t) in Elems(t)
    ensures forall x | x in Elems(t) :: MinKey(t) <= x
  {
    MinKeyFirst(t);
    var s := InOrder(t);
    assert s[0] in s;
    forall x | x in Elems(t) ensures MinKey(t) <= x {
      var i :| 0 <= i < |s| && s[i] == x;
      assert s[0] <= s[i];
    }
  }
}
