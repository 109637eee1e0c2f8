/** Value-level model of the unbalanced search tree of naive_tree.cpp.

    Keys greater than a node's key go to its right, all others (equal keys
    included) to its left, so the tree keeps duplicates and its contents
    are a multiset: `Elems`.  Erasing a node with two children copies the
    least key of the right subtree into it and erases that key from the
    right subtree. */
module NaiveModel {

  datatype Tree = Nil | Branch(left: Tree, key: int, right: Tree)

  /** The keys the tree holds, with their multiplicities. */
  function Elems(t: Tree): multiset<int> {
    if t.Nil? then multiset{} else Elems(t.left) + multiset{t.key} + Elems(t.right)
  }

  /** Number of nodes on the longest path from the root. */
  function Depth(t: Tree): nat {
    if t.Nil? then 0
    else 1 + (if Depth(t.left) < Depth(t.right) then Depth(t.right) else Depth(t.left))
  }

  /** The order both operations keep: no key on the left above the node's,
      no key on the right below it. */
  ghost predicate Ordered(t: Tree) {
    t.Nil? ||
    (Ordered(t.left) && Ordered(t.right) &&
     (forall x | x in Elems(t.left) :: x <= t.key) &&
     (forall x | x in Elems(t.right) :: t.key <= x))
  }

  /** The order insertion alone produces: equal keys only on the left. */
  ghost predicate StrictOrdered(t: Tree) {
    t.Nil? ||
    (StrictOrdered(t.left) && StrictOrdered(t.right) &&
     (forall x | x in Elems(t.left) :: x <= t.key) &&
     (forall x | x in Elems(t.right) :: t.key < x))
  }

  /** No node has a left child. */
  ghost predicate RightChain(t: Tree) {
    t.Nil? || (t.left.Nil? && RightChain(t.right))
  }

  /** tree_insert: follow the keys down, right when the key is greater and
      left otherwise, and hang a new leaf on the empty slot reached. */
  function Insert(t: Tree, key: int): Tree {
    if t.Nil? then Branch(Nil, key, Nil)
    else if key > t.key then t.(right := Insert(t.right, key))
    else t.(left := Insert(t.left, key))
  }

  /** Insert the keys one after the other into an empty tree. */
  function InsertAll(keys: seq<int>): Tree {
    if |keys| == 0 then Nil else Insert(InsertAll(keys[..|keys| - 1]), keys[|keys| - 1])
  }

  /** node_min: the key of the leftmost node. */
  function MinKey(t: Tree): int
    requires t.Branch?
  {
    if t.left.Nil? then t.key else MinKey(t.left)
  }

  /** node_erase: find the key; a node with two children takes over the
      least key of its right subtree, which is then erased there, and a node
      with at most one child gives way to it. */
  function Erase(t: Tree, key: int): Tree {
    if t.Nil? then Nil
    else if key > t.key then t.(right := Erase(t.right, key))
    else if key < t.key then t.(left := Erase(t.left, key))
    else if t.left.Branch? && t.right.Branch? then
      var m := MinKey(t.right);
      Branch(t.left, m, Erase(t.right, m))
    else if t.left.Branch? then t.left
    else t.right
  }

  // ---------------------------------------------------------------------------
  // Insertion

  /** Insertion adds exactly one copy of the key. */
  lemma {:induction false} InsertAddsOne(t: Tree, key: int)
    ensures Elems(Insert(t, key)) == Elems(t) + multiset{key}
  {
    if t.Branch? {
      if key > t.key {
        InsertAddsOne(t.right, key);
      } else {
        InsertAddsOne(t.left, key);
      }
    }
  }

  /** Insertion keeps the order both operations keep. */
  lemma {:induction false} InsertOrdered(t: Tree, key: int)
    requires Ordered(t)
    ensures Ordered(Insert(t, key))
  {
    if t.Branch? {
      if key > t.key {
        InsertOrdered(t.right, key);
        InsertAddsOne(t.right, key);
        forall x | x in Elems(Insert(t.right, key)) ensures t.key <= x {
          assert x in Elems(t.right) || x == key;
        }
      } else {
        InsertOrdered(t.left, key);
        InsertAddsOne(t.left, key);
        forall x | x in Elems(Insert(t.left, key)) ensures x <= t.key {
          assert x in Elems(t.left) || x == key;
        }
      }
    }
  }

  /** Insertion keeps the strict order too: an equal key never goes right. */
  lemma {:induction false} InsertStrictOrdered(t: Tree, key: int)
    requires StrictOrdered(t)
    ensures StrictOrdered(Insert(t, key))
  {
    if t.Branch? {
      if key > t.key {
        InsertStrictOrdered(t.right, key);
        InsertAddsOne(t.right, key);
        forall x | x in Elems(Insert(t.right, key)) ensures t.key < x {
          assert x in Elems(t.right) || x == key;
        }
      } else {
        InsertStrictOrdered(t.left, key);
        InsertAddsOne(t.left, key);
        forall x | x in Elems(Insert(t.left, key)) ensures x <= t.key {
          assert x in Elems(t.left) || x == key;
        }
      }
    }
  }

  /** Inserting a key above every key of a right chain extends the chain at
      its bottom. */
  lemma {:induction false} InsertAboveChain(t: Tree, key: int)
    requires RightChain(t)
    requires forall x | x in Elems(t) :: x < key
    ensures RightChain(Insert(t, key))
    ensures Depth(Insert(t, key)) == Depth(t) + 1
  {
    if t.Branch? {
      assert t.key in Elems(t);
      forall x | x in Elems(t.right) ensures x < key {
        assert x in Elems(t);
      }
      InsertAboveChain(t.right, key);
    }
  }

  /** Keys inserted in strictly increasing order make a chain without left
      children, as deep as there are keys. */
  lemma {:induction false} IncreasingInsertsMakeChain(keys: seq<int>)
    requires forall i, j | 0 <= i < j < |keys| :: keys[i] < keys[j]
    ensures Elems(InsertAll(keys)) == multiset(keys)
    ensures RightChain(InsertAll(keys))
    ensures Depth(InsertAll(keys)) == |keys|
  {
    if |keys| > 0 {
      var init, last := keys[..|keys| - 1], keys[|keys| - 1];
      assert keys == init + [last];
      IncreasingInsertsMakeChain(init);
      forall x | x in Elems(InsertAll(init)) ensures x < last {
        var i :| 0 <= i < |init| && init[i] == x;
        assert keys[i] == x;
      }
      InsertAboveChain(InsertAll(init), last);
      InsertAddsOne(InsertAll(init), last);
    }
  }

  // ---------------------------------------------------------------------------
  // Erasure

  /** node_min returns the least key of an ordered tree. */
  lemma {:induction false} MinKeyIsLeast(t: Tree)
    requires t.Branch? && Ordered(t)
    ensures MinKey(t) in Elems(t)
    ensures forall x | x in Elems(t) :: MinKey(t) <= x
  {
    if t.left.Branch? {
      MinKeyIsLeast(t.left);
    }
  }

  /** Erasing a key the tree does not hold changes nothing. */
  lemma {:induction false} EraseAbsent(t: Tree, key: int)
    requires key !in Elems(t)
    ensures Erase(t, key) == t
  {
    if t.Branch? {
      if key > t.key {
        EraseAbsent(t.right, key);
      } else if key < t.key {
        EraseAbsent(t.left, key);
      }
    }
  }

  /** Erasing from an ordered tree takes away exactly one copy of the key,
      if there is one, and keeps the order. */
  lemma {:induction false} EraseCorrect(t: Tree, key: int)
    requires Ordered(t)
    ensures Elems(Erase(t, key)) == Elems(t) - multiset{key}
    ensures Ordered(Erase(t, key))
  {
    if t.Nil? {
    } else if key > t.key {
      EraseCorrect(t.right, key);
      EraseRightStep(t, key);
    } else if key < t.key {
      EraseCorrect(t.left, key);
      EraseLeftStep(t, key);
    } else if t.left.Branch? && t.right.Branch? {
      EraseCorrect(t.right, MinKey(t.right));
      EraseSuccessorStep(t);
    } else {
      EraseSpliceStep(t);
    }
  }

  /** The order half of EraseCorrect on its own, for callers that keep the
      order as an invariant and need no more. */
  lemma EraseOrdered(t: Tree, key: int)
    requires Ordered(t)
    ensures Ordered(Erase(t, key))
  {
    EraseCorrect(t, key);
  }

  /** Taking a copy of `key` out of the right part of a node's contents
      takes it out of the whole when the rest holds none. */
  lemma {:induction false} TakeFromRight(a: multiset<int>, k: int, b: multiset<int>, key: int)
    requires key !in a && key != k
    ensures a + multiset{k} + (b - multiset{key}) == (a + multiset{k} + b) - multiset{key}
  {
    forall x ensures (a + multiset{k} + (b - multiset{key}))[x] == ((a + multiset{k} + b) - multiset{key})[x] {
      if x == key {
        assert a[x] == 0 && multiset{k}[x] == 0;
      }
    }
  }

  /** The same for the left part. */
  lemma {:induction false} TakeFromLeft(a: multiset<int>, k: int, b: multiset<int>, key: int)
    requires key !in b && key != k
    ensures (a - multiset{key}) + multiset{k} + b == (a + multiset{k} + b) - multiset{key}
  {
    forall x ensures ((a - multiset{key}) + multiset{k} + b)[x] == ((a + multiset{k} + b) - multiset{key})[x] {
      if x == key {
        assert b[x] == 0 && multiset{k}[x] == 0;
      }
    }
  }

  /** Replacing a node's key `k` by a key `m` taken out of its right part
      takes one copy of `k` out of the whole. */
  lemma {:induction false} ReplaceByTaken(a: multiset<int>, k: int, m: int, r: multiset<int>)
    ensures a + multiset{m} + r == (a + multiset{k} + (r + multiset{m})) - multiset{k}
  {
    forall x ensures (a + multiset{m} + r)[x] == ((a + multiset{k} + (r + multiset{m})) - multiset{k})[x] {
    }
  }

  /** The step of erasure that continues in the right subtree. */
  lemma {:induction false} EraseRightStep(t: Tree, key: int)
    requires t.Branch? && Ordered(t) && key > t.key
    requires Elems(Erase(t.right, key)) == Elems(t.right) - multiset{key}
    requires Ordered(Erase(t.right, key))
    ensures Elems(Erase(t, key)) == Elems(t) - multiset{key}
    ensures Ordered(Erase(t, key))
  {
    var r := Erase(t.right, key);
    assert Erase(t, key) == Branch(t.left, t.key, r);
    assert key !in Elems(t.left);
    TakeFromRight(Elems(t.left), t.key, Elems(t.right), key);
    forall x | x in Elems(r) ensures t.key <= x {
      assert x in Elems(t.right);
    }
  }

  /** The step of erasure that continues in the left subtree. */
  lemma {:induction false} EraseLeftStep(t: Tree, key: int)
    requires t.Branch? && Ordered(t) && key < t.key
    requires Elems(Erase(t.left, key)) == Elems(t.left) - multiset{key}
    requires Ordered(Erase(t.left, key))
    ensures Elems(Erase(t, key)) == Elems(t) - multiset{key}
    ensures Ordered(Erase(t, key))
  {
    var l := Erase(t.left, key);
    assert Erase(t, key) == Branch(l, t.key, t.right);
    assert key !in Elems(t.right);
    TakeFromLeft(Elems(t.left), t.key, Elems(t.right), key);
    forall x | x in Elems(l) ensures x <= t.key {
      assert x in Elems(t.left);
    }
  }

  /** The two-child step of erasure: the node takes the least key of its
      right subtree, which loses one copy of it. */
  lemma {:induction false} EraseSuccessorStep(t: Tree)
    requires t.Branch? && t.left.Branch? && t.right.Branch? && Ordered(t)
    requires Elems(Erase(t.right, MinKey(t.right))) == Elems(t.right) - multiset{MinKey(t.right)}
    requires Ordered(Erase(t.right, MinKey(t.right)))
    ensures Elems(Erase(t, t.key)) == Elems(t) - multiset{t.key}
    ensures Ordered(Erase(t, t.key))
  {
    var m := MinKey(t.right);
    var r := Erase(t.right, m);
    assert Erase(t, t.key) == Branch(t.left, m, r);
    MinKeyIsLeast(t.right);
    forall x | x in Elems(t.left) ensures x <= m {
      assert t.key <= m;
    }
    forall x | x in Elems(r) ensures m <= x {
      assert x in Elems(t.right);
    }
    assert Elems(t.right) == Elems(r) + multiset{m};
    ReplaceByTaken(Elems(t.left), t.key, m, Elems(r));
  }

  /** The step of erasure that replaces a node with at most one child by
      that child. */
  lemma {:induction false} EraseSpliceStep(t: Tree)
    requires t.Branch? && (t.left.Nil? || t.right.Nil?) && Ordered(t)
    ensures Elems(Erase(t, t.key)) == Elems(t) - multiset{t.key}
    ensures Ordered(Erase(t, t.key))
  {
    if t.left.Branch? {
      assert Erase(t, t.key) == t.left;
    } else {
      assert Erase(t, t.key) == t.right;
    }
  }

  /** The strict order is not kept by erasure: after inserting 1, 0, 3 and 3
      and erasing 1, the root takes the key 3 and its right child still
      holds 3. */
  lemma {:induction false} EraseBreaksStrictOrder()
    ensures StrictOrdered(InsertAll([1, 0, 3, 3]))
    ensures Erase(InsertAll([1, 0, 3, 3]), 1) ==
              Branch(Branch(Nil, 0, Nil), 3, Branch(Nil, 3, Nil))
    ensures !StrictOrdered(Erase(InsertAll([1, 0, 3, 3]), 1))
  {
    var leaf0, leaf3 := Branch(Nil, 0, Nil), Branch(Nil, 3, Nil);
    var t := Branch(leaf0, 1, Branch(leaf3, 3, Nil));
    assert [1, 0, 3, 3][..3] == [1, 0, 3];
    assert [1, 0, 3][..2] == [1, 0];
    assert [1, 0][..1] == [1];
    assert [1][..0] == [];
    assert InsertAll([1, 0, 3, 3]) == t;
    assert Elems(leaf3) == multiset{3};
    assert Elems(leaf0) == multiset{0};
    assert Elems(Branch(leaf3, 3, Nil)) == multiset{3, 3};
    var e := Branch(leaf0, 3, leaf3);
    assert Erase(t, 1) == e;
    assert 3 in Elems(e.right);
  }
}
