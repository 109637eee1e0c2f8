/** Value-level model of the height-balanced tree of avl_tree.cpp.

    A `Branch` carries the key and the height field that the C node stores,
    so the functions below compute exactly what the C routines leave behind,
    stored heights included.  The invariants the tree keeps (search order,
    correct stored heights, balance factors in -1..1) are predicates over this
    datatype, and the lemmas prove that insertion and removal preserve them. */
module AvlModel {

  datatype Tree = Nil | Branch(left: Tree, key: int, height: int, right: Tree)

  /** The larger of two heights, chosen as update_height chooses it. */
  function Max(a: int, b: int): int { if a > b then a else b }

  /** height(): an absent subtree counts 0, a node reports its stored field. */
  function Height(t: Tree): int { if t.Nil? then 0 else t.height }

  /** The height computed from the shape alone. */
  function Depth(t: Tree): nat {
    if t.Nil? then 0
    else 1 + Max(Depth(t.left), Depth(t.right))
  }

  function Keys(t: Tree): set<int> {
    if t.Nil? then {} else Keys(t.left) + {t.key} + Keys(t.right)
  }

  function InOrder(t: Tree): seq<int> {
    if t.Nil? then [] else InOrder(t.left) + [t.key] + InOrder(t.right)
  }

  /** Every stored height is at least 1, as create_node and update_height
      leave it; this is what lets `balance` find the child it rotates. */
  ghost predicate Positive(t: Tree) {
    t.Nil? || (t.height >= 1 && Positive(t.left) && Positive(t.right))
  }

  /** Search order: all keys on the left are smaller, all on the right larger. */
  ghost predicate Ordered(t: Tree) {
    t.Nil? ||
    (Ordered(t.left) && Ordered(t.right) &&
     (forall x | x in Keys(t.left) :: x < t.key) &&
     (forall x | x in Keys(t.right) :: t.key < x))
  }

  /** Every stored height is one more than the larger child height. */
  ghost predicate HeightsCorrect(t: Tree)
    ensures HeightsCorrect(t) ==> Positive(t)
  {
    t.Nil? ||
    (HeightsCorrect(t.left) && HeightsCorrect(t.right) &&
     t.height == 1 + Max(Height(t.left), Height(t.right)))
  }

  /** Every balance factor is -1, 0 or 1. */
  ghost predicate Balanced(t: Tree) {
    t.Nil? ||
    (Balanced(t.left) && Balanced(t.right) &&
     -1 <= Height(t.right) - Height(t.left) <= 1)
  }

  ghost predicate IsAvl(t: Tree) {
    Ordered(t) && HeightsCorrect(t) && Balanced(t)
  }

  /** update_height: the node's height becomes 1 + the larger child height. */
  function UpdateHeight(t: Tree): Tree
    requires t.Branch?
  {
    t.(height := 1 + Max(Height(t.left), Height(t.right)))
  }

  /** balance_factor: right height minus left height. */
  function BalanceFactor(t: Tree): int
    requires t.Branch?
  {
    Height(t.right) - Height(t.left)
  }

  /** rotate_left: the right child becomes the root; the old root's height is
      refreshed first, then the new root's. */
  function RotateLeft(t: Tree): (r: Tree)
    requires t.Branch? && t.right.Branch?
    ensures r.Branch? && r.key == t.right.key && r.left.Branch? && r.left.key == t.key
    ensures Positive(t.left) && Positive(t.right.left) && Positive(t.right.right) ==> Positive(r)
  {
    var n := UpdateHeight(Branch(t.left, t.key, t.height, t.right.left));
    UpdateHeight(Branch(n, t.right.key, t.right.height, t.right.right))
  }

  /** rotate_right: the left child becomes the root; the old root's height is
      refreshed first, then the new root's. */
  function RotateRight(t: Tree): (r: Tree)
    requires t.Branch? && t.left.Branch?
    ensures r.Branch? && r.key == t.left.key && r.right.Branch? && r.right.key == t.key
    ensures Positive(t.right) && Positive(t.left.left) && Positive(t.left.right) ==> Positive(r)
  {
    var n := UpdateHeight(Branch(t.left.right, t.key, t.height, t.right));
    UpdateHeight(Branch(t.left.left, t.left.key, t.left.height, n))
  }

  /** balance: refresh the height, then rotate when the balance factor is
      -2 or 2, with a preliminary rotation of the heavy child when that
      child leans the other way. */
  function Balance(t: Tree): (r: Tree)
    requires t.Branch? && Positive(t.left) && Positive(t.right)
    ensures r.Branch? && Positive(r)
  {
    var n := UpdateHeight(t);
    if BalanceFactor(n) == -2 then
      var n' := if BalanceFactor(n.left) == 1 then
                  assert Positive(n.left.left) && Height(n.left.left) >= 0;
                  assert Positive(n.left.right); n.(left := RotateLeft(n.left))
                else n;
      RotateRight(n')
    else if BalanceFactor(n) == 2 then
      var n' := if BalanceFactor(n.right) == -1 then
                  assert Positive(n.right.right) && Height(n.right.right) >= 0;
                  assert Positive(n.right.left); n.(right := RotateRight(n.right))
                else n;
      RotateLeft(n')
    else
      n
  }

  /** node_insert: a new leaf of height 1 where the key is missing, nothing
      where it is present, and a rebalance of every node on the way back. */
  function Insert(t: Tree, key: int): (r: Tree)
    requires Positive(t)
    ensures r.Branch? && Positive(r)
  {
    if t.Nil? then Branch(Nil, key, 1, Nil)
    else if key == t.key then t
    else if key > t.key then Balance(t.(right := Insert(t.right, key)))
    else Balance(t.(left := Insert(t.left, key)))
  }

  /** find_min: the key of the leftmost node. */
  function MinKey(t: Tree): int
    requires t.Branch?
  {
    if t.left.Nil? then t.key else MinKey(t.left)
  }

  /** detach_min: unlink the leftmost node, rebalancing on the way back. */
  function DetachMin(t: Tree): (r: Tree)
    requires Positive(t)
    ensures Positive(r)
  {
    if t.Nil? then Nil
    else if t.left.Nil? then t.right
    else Balance(t.(left := DetachMin(t.left)))
  }

  /** node_remove: a matched node without right child is replaced by its left
      child; otherwise it takes the key of its right subtree's minimum, which
      is detached from that subtree. */
  function Remove(t: Tree, key: int): (r: Tree)
    requires Positive(t)
    ensures Positive(r)
  {
    if t.Nil? then Nil
    else if key < t.key then Balance(t.(left := Remove(t.left, key)))
    else if key > t.key then Balance(t.(right := Remove(t.right, key)))
    else if t.right.Nil? then t.left
    else Balance(Branch(t.left, MinKey(t.right), t.height, DetachMin(t.right)))
  }

  // ---------------------------------------------------------------------------
  // Properties

  /** The stored heights of a tree that keeps them up to date are its real heights. */
  lemma {:induction false} HeightIsDepth(t: Tree)
    requires HeightsCorrect(t)
    ensures Height(t) == Depth(t)
  {
    if t.Branch? {
      HeightIsDepth(t.left);
      HeightIsDepth(t.right);
    }
  }

  /** In a search-ordered tree the in-order sequence is strictly increasing
      and holds exactly the keys. */
  lemma {:induction false} OrderedInOrderIncreasing(t: Tree)
    requires Ordered(t)
    ensures forall i, j | 0 <= i < j < |InOrder(t)| :: InOrder(t)[i] < InOrder(t)[j]
    ensures forall x :: x in InOrder(t) <==> x in Keys(t)
  {
    if t.Branch? {
      OrderedInOrderIncreasing(t.left);
      OrderedInOrderIncreasing(t.right);
      var a, b := InOrder(t.left), InOrder(t.right);
      var s := InOrder(t);
      assert s == a + [t.key] + b;
      forall i, j | 0 <= i < j < |s| ensures s[i] < s[j] {
        if j < |a| {
        } else if i < |a| {
          assert s[i] in Keys(t.left);
          if j > |a| { assert s[j] == b[j - |a| - 1]; assert s[j] in Keys(t.right); }
        } else if i == |a| {
          assert s[j] == b[j - |a| - 1];
          assert s[j] in Keys(t.right);
        } else {
          assert s[i] == b[i - |a| - 1] && s[j] == b[j - |a| - 1];
        }
      }
    }
  }

  /** The minimum key is the leftmost one. */
  lemma {:induction false} MinKeyIsLeast(t: Tree)
    requires t.Branch? && Ordered(t)
    ensures MinKey(t) in Keys(t)
    ensures forall x | x in Keys(t) :: MinKey(t) <= x
  {
    if t.left.Branch? {
      MinKeyIsLeast(t.left);
    }
  }

  /** rotate_left keeps the in-order sequence, hence the key set. */
  lemma {:induction false} RotateLeftKeepsInOrder(t: Tree)
    requires t.Branch? && t.right.Branch?
    ensures InOrder(RotateLeft(t)) == InOrder(t) && Keys(RotateLeft(t)) == Keys(t)
  {
    var a, b, c := t.left, t.right.left, t.right.right;
    var r := RotateLeft(t);
    assert r.left.left == a && r.left.right == b && r.right == c;
    assert InOrder(r) == (InOrder(a) + [t.key] + InOrder(b)) + [t.right.key] + InOrder(c);
    assert Keys(r) == (Keys(a) + {t.key} + Keys(b)) + {t.right.key} + Keys(c);
  }

  /** rotate_right keeps the in-order sequence, hence the key set. */
  lemma {:induction false} RotateRightKeepsInOrder(t: Tree)
    requires t.Branch? && t.left.Branch?
    ensures InOrder(RotateRight(t)) == InOrder(t) && Keys(RotateRight(t)) == Keys(t)
  {
    var a, b, c := t.left.left, t.left.right, t.right;
    var r := RotateRight(t);
    assert r.left == a && r.right.left == b && r.right.right == c;
    assert InOrder(r) == InOrder(a) + [t.left.key] + (InOrder(b) + [t.key] + InOrder(c));
    assert Keys(r) == Keys(a) + {t.left.key} + (Keys(b) + {t.key} + Keys(c));
  }

  /** balance only restructures: the in-order sequence and the key set stay. */
  lemma {:induction false} BalanceKeepsInOrder(t: Tree)
    requires t.Branch? && Positive(t.left) && Positive(t.right)
    ensures InOrder(Balance(t)) == InOrder(t) && Keys(Balance(t)) == Keys(t)
  {
    var n := UpdateHeight(t);
    if BalanceFactor(n) == -2 {
      if BalanceFactor(n.left) == 1 {
        assert Positive(n.left.right);
        RotateLeftKeepsInOrder(n.left);
        RotateRightKeepsInOrder(n.(left := RotateLeft(n.left)));
      } else {
        RotateRightKeepsInOrder(n);
      }
    } else if BalanceFactor(n) == 2 {
      if BalanceFactor(n.right) == -1 {
        assert Positive(n.right.left);
        RotateRightKeepsInOrder(n.right);
        RotateLeftKeepsInOrder(n.(right := RotateRight(n.right)));
      } else {
        RotateLeftKeepsInOrder(n);
      }
    }
  }

  /** On a node that is already balanced with correct heights, balance
      changes nothing. */
  lemma {:induction false} BalanceKeepsValidNode(t: Tree)
    requires t.Branch? && HeightsCorrect(t) && Balanced(t)
    ensures Balance(t) == t
  {
  }

  /** The single rotation is right when the heavy child does not lean the
      other way. */
  lemma {:induction false} SingleLeftRotationRestores(n: Tree)
    requires n.Branch? && n.right.Branch?
    requires IsAvl(n.left) && IsAvl(n.right)
    requires Height(n.right) == Height(n.left) + 2
    requires BalanceFactor(n.right) != -1
    requires forall x | x in Keys(n.left) :: x < n.key
    requires forall x | x in Keys(n.right) :: n.key < x
    ensures IsAvl(RotateLeft(n))
    ensures Height(n.right) <= Height(RotateLeft(n)) <= Height(n.right) + 1
  {
    var a, y, b, c := n.left, n.right.key, n.right.left, n.right.right;
    var m := UpdateHeight(Branch(a, n.key, n.height, b));
    assert Keys(m) == Keys(a) + {n.key} + Keys(b);
    assert y in Keys(n.right);
    assert forall x | x in Keys(b) :: x in Keys(n.right);
  }

  lemma {:induction false} SingleRightRotationRestores(n: Tree)
    requires n.Branch? && n.left.Branch?
    requires IsAvl(n.left) && IsAvl(n.right)
    requires Height(n.left) == Height(n.right) + 2
    requires BalanceFactor(n.left) != 1
    requires forall x | x in Keys(n.left) :: x < n.key
    requires forall x | x in Keys(n.right) :: n.key < x
    ensures IsAvl(RotateRight(n))
    ensures Height(n.left) <= Height(RotateRight(n)) <= Height(n.left) + 1
  {
    var a, y, b, c := n.right, n.left.key, n.left.right, n.left.left;
    var m := UpdateHeight(Branch(b, n.key, n.height, a));
    assert Keys(m) == Keys(b) + {n.key} + Keys(a);
    assert y in Keys(n.left);
    assert forall x | x in Keys(b) :: x in Keys(n.left);
  }

  /** Joining two AVL trees of nearly equal height under a separating key and
      refreshing the height gives an AVL tree. */
  lemma {:induction false} JoinIsAvl(l: Tree, k: int, h: int, r: Tree)
    requires IsAvl(l) && IsAvl(r)
    requires -1 <= Height(r) - Height(l) <= 1
    requires forall x | x in Keys(l) :: x < k
    requires forall x | x in Keys(r) :: k < x
    ensures IsAvl(UpdateHeight(Branch(l, k, h, r)))
  {
  }

  /** The double rotation is right when the heavy child leans the other way. */
  lemma {:induction false} DoubleLeftRotationRestores(n: Tree)
    requires n.Branch? && n.right.Branch?
    requires IsAvl(n.left) && IsAvl(n.right)
    requires Height(n.right) == Height(n.left) + 2
    requires BalanceFactor(n.right) == -1
    requires forall x | x in Keys(n.left) :: x < n.key
    requires forall x | x in Keys(n.right) :: n.key < x
    ensures n.right.left.Branch?
    ensures IsAvl(RotateLeft(n.(right := RotateRight(n.right))))
    ensures Height(RotateLeft(n.(right := RotateRight(n.right)))) == Height(n.right)
  {
    var a, r := n.left, n.right;
    var b, y, c := r.left, r.key, r.right;
    assert Height(b) == Height(a) + 1 && Height(c) == Height(a);
    var b1, z, b2 := b.left, b.key, b.right;
    assert IsAvl(b) && IsAvl(c) && IsAvl(b1) && IsAvl(b2);
    assert z in Keys(b) && z in Keys(r) && n.key < z < y;
    forall x | x in Keys(a) ensures x < z {
    }
    forall x | x in Keys(b1) ensures n.key < x < z {
      assert x in Keys(b) && x in Keys(r);
    }
    forall x | x in Keys(b2) ensures z < x < y {
      assert x in Keys(b);
    }
    forall x | x in Keys(c) ensures y < x {
    }
    var inner := UpdateHeight(Branch(b2, y, r.height, c));
    JoinIsAvl(b2, y, r.height, c);
    var r' := UpdateHeight(Branch(b1, z, b.height, inner));
    assert RotateRight(r) == r';
    var outer := UpdateHeight(Branch(a, n.key, n.height, b1));
    JoinIsAvl(a, n.key, n.height, b1);
    assert Height(inner) == Height(a) + 1 && Height(outer) == Height(a) + 1;
    forall x | x in Keys(outer) ensures x < z {
      assert x in Keys(a) || x == n.key || x in Keys(b1);
    }
    forall x | x in Keys(inner) ensures z < x {
      assert x in Keys(b2) || x == y || x in Keys(c);
    }
    JoinIsAvl(outer, z, r'.height, inner);
    assert RotateLeft(n.(right := r')) == UpdateHeight(Branch(outer, z, r'.height, inner));
  }

  lemma {:induction false} DoubleRightRotationRestores(n: Tree)
    requires n.Branch? && n.left.Branch?
    requires IsAvl(n.left) && IsAvl(n.right)
    requires Height(n.left) == Height(n.right) + 2
    requires BalanceFactor(n.left) == 1
    requires forall x | x in Keys(n.left) :: x < n.key
    requires forall x | x in Keys(n.right) :: n.key < x
    ensures n.left.right.Branch?
    ensures IsAvl(RotateRight(n.(left := RotateLeft(n.left))))
    ensures Height(RotateRight(n.(left := RotateLeft(n.left)))) == Height(n.left)
  {
    var a, l := n.right, n.left;
    var b, y, c := l.right, l.key, l.left;
    assert Height(b) == Height(a) + 1 && Height(c) == Height(a);
    var b1, z, b2 := b.right, b.key, b.left;
    assert IsAvl(b) && IsAvl(c) && IsAvl(b1) && IsAvl(b2);
    assert z in Keys(b) && z in Keys(l) && y < z < n.key;
    forall x | x in Keys(a) ensures z < x {
    }
    forall x | x in Keys(b1) ensures z < x < n.key {
      assert x in Keys(b) && x in Keys(l);
    }
    forall x | x in Keys(b2) ensures y < x < z {
      assert x in Keys(b);
    }
    forall x | x in Keys(c) ensures x < y {
    }
    var inner := UpdateHeight(Branch(c, y, l.height, b2));
    JoinIsAvl(c, y, l.height, b2);
    var l' := UpdateHeight(Branch(inner, z, b.height, b1));
    assert RotateLeft(l) == l';
    var outer := UpdateHeight(Branch(b1, n.key, n.height, a));
    JoinIsAvl(b1, n.key, n.height, a);
    assert Height(inner) == Height(a) + 1 && Height(outer) == Height(a) + 1;
    forall x | x in Keys(inner) ensures x < z {
      assert x in Keys(c) || x == y || x in Keys(b2);
    }
    forall x | x in Keys(outer) ensures z < x {
      assert x in Keys(b1) || x == n.key || x in Keys(a);
    }
    JoinIsAvl(inner, z, l'.height, outer);
    assert RotateRight(n.(left := l')) == UpdateHeight(Branch(inner, z, l'.height, outer));
  }

  /** A single rotation would leave the tree unbalanced when the heavy child
      leans the other way: the double rotation is needed exactly there. */
  lemma {:induction false} SingleRotationFailsOnOppositeLean(n: Tree)
    requires n.Branch? && n.right.Branch?
    requires HeightsCorrect(n.left) && HeightsCorrect(n.right) && Balanced(n.right)
    requires Height(n.right) == Height(n.left) + 2
    requires BalanceFactor(n.right) == -1
    ensures !Balanced(RotateLeft(n))
  {
  }

  /** balance turns a node whose subtrees are AVL trees of heights differing
      by at most 2 into an AVL tree over the same keys; its height grows by at
      most one over the taller subtree, and not at all when no rotation was due. */
  lemma {:induction false} BalanceRestores(t: Tree)
    requires t.Branch? && IsAvl(t.left) && IsAvl(t.right)
    requires -2 <= Height(t.right) - Height(t.left) <= 2
    requires forall x | x in Keys(t.left) :: x < t.key
    requires forall x | x in Keys(t.right) :: t.key < x
    ensures IsAvl(Balance(t)) && Keys(Balance(t)) == Keys(t)
    ensures Max(Height(t.left), Height(t.right)) <= Height(Balance(t))
    ensures Height(Balance(t)) <= Max(Height(t.left), Height(t.right)) + 1
    ensures -1 <= Height(t.right) - Height(t.left) <= 1 ==>
              Height(Balance(t)) == 1 + Max(Height(t.left), Height(t.right))
  {
    BalanceKeepsInOrder(t);
    var n := UpdateHeight(t);
    if BalanceFactor(n) == -2 {
      if BalanceFactor(n.left) == 1 {
        DoubleRightRotationRestores(n);
      } else {
        SingleRightRotationRestores(n);
      }
    } else if BalanceFactor(n) == 2 {
      if BalanceFactor(n.right) == -1 {
        DoubleLeftRotationRestores(n);
      } else {
        SingleLeftRotationRestores(n);
      }
    }
  }

  /** The step every recursive case of insertion and removal ends with: the
      right subtree of an AVL node was replaced by an AVL tree over keys still
      above the node's, at most one level taller or shorter; balance then
      gives an AVL tree whose height moved the same way by at most one. */
  lemma {:induction false} RebalanceRight(t: Tree, r: Tree)
    requires t.Branch? && IsAvl(t) && IsAvl(r)
    requires forall x | x in Keys(r) :: t.key < x
    requires Height(t.right) - 1 <= Height(r) <= Height(t.right) + 1
    ensures IsAvl(Balance(t.(right := r)))
    ensures Keys(Balance(t.(right := r))) == Keys(t.left) + {t.key} + Keys(r)
    ensures Height(r) >= Height(t.right) ==>
              Height(t) <= Height(Balance(t.(right := r))) <= Height(t) + 1
    ensures Height(r) <= Height(t.right) ==>
              Height(t) - 1 <= Height(Balance(t.(right := r))) <= Height(t)
  {
    BalanceRestores(t.(right := r));
  }

  /** The mirror image of RebalanceRight, for the left subtree. */
  lemma {:induction false} RebalanceLeft(t: Tree, l: Tree)
    requires t.Branch? && IsAvl(t) && IsAvl(l)
    requires forall x | x in Keys(l) :: x < t.key
    requires Height(t.left) - 1 <= Height(l) <= Height(t.left) + 1
    ensures IsAvl(Balance(t.(left := l)))
    ensures Keys(Balance(t.(left := l))) == Keys(l) + {t.key} + Keys(t.right)
    ensures Height(l) >= Height(t.left) ==>
              Height(t) <= Height(Balance(t.(left := l))) <= Height(t) + 1
    ensures Height(l) <= Height(t.left) ==>
              Height(t) - 1 <= Height(Balance(t.(left := l))) <= Height(t)
  {
    BalanceRestores(t.(left := l));
  }

  /** node_insert keeps an AVL tree an AVL tree, adds exactly the key, and
      grows the height by at most one. */
  lemma {:induction false} InsertCorrect(t: Tree, key: int)
    requires IsAvl(t)
    ensures IsAvl(Insert(t, key))
    ensures Keys(Insert(t, key)) == Keys(t) + {key}
    ensures Height(t) <= Height(Insert(t, key)) <= Height(t) + 1
  {
    if t.Nil? {
    } else if key == t.key {
    } else if key > t.key {
      var r := Insert(t.right, key);
      InsertCorrect(t.right, key);
      forall x | x in Keys(r) ensures t.key < x {
        assert x == key || x in Keys(t.right);
      }
      assert Insert(t, key) == Balance(t.(right := r));
      RebalanceRight(t, r);
    } else {
      var l := Insert(t.left, key);
      InsertCorrect(t.left, key);
      forall x | x in Keys(l) ensures x < t.key {
        assert x == key || x in Keys(t.left);
      }
      assert Insert(t, key) == Balance(t.(left := l));
      RebalanceLeft(t, l);
    }
  }

  /** Inserting a key that is already present returns the tree unchanged. */
  lemma {:induction false} InsertPresentIsIdentity(t: Tree, key: int)
    requires IsAvl(t) && key in Keys(t)
    ensures Insert(t, key) == t
  {
    if key > t.key {
      assert key in Keys(t.right);
      InsertPresentIsIdentity(t.right, key);
      BalanceKeepsValidNode(t);
    } else if key < t.key {
      assert key in Keys(t.left);
      InsertPresentIsIdentity(t.left, key);
      BalanceKeepsValidNode(t);
    }
  }

  /** detach_min removes exactly the minimum key of an AVL tree, keeps it an
      AVL tree and lowers its height by at most one. */
  lemma {:induction false} DetachMinCorrect(t: Tree)
    requires t.Branch? && IsAvl(t)
    ensures IsAvl(DetachMin(t))
    ensures Keys(DetachMin(t)) == Keys(t) - {MinKey(t)}
    ensures Height(t) - 1 <= Height(DetachMin(t)) <= Height(t)
  {
    if t.left.Branch? {
      var l := DetachMin(t.left);
      DetachMinCorrect(t.left);
      MinKeyIsLeast(t.left);
      assert DetachMin(t) == Balance(t.(left := l));
      RebalanceLeft(t, l);
    }
  }

  /** node_remove keeps an AVL tree an AVL tree, removes exactly the key, and
      lowers the height by at most one. */
  lemma {:induction false} RemoveCorrect(t: Tree, key: int)
    requires IsAvl(t)
    ensures IsAvl(Remove(t, key))
    ensures Keys(Remove(t, key)) == Keys(t) - {key}
    ensures Height(t) - 1 <= Height(Remove(t, key)) <= Height(t)
  {
    if t.Nil? {
    } else if key < t.key {
      var l := Remove(t.left, key);
      RemoveCorrect(t.left, key);
      assert Remove(t, key) == Balance(t.(left := l));
      RebalanceLeft(t, l);
    } else if key > t.key {
      var r := Remove(t.right, key);
      RemoveCorrect(t.right, key);
      assert Remove(t, key) == Balance(t.(right := r));
      RebalanceRight(t, r);
    } else if t.right.Nil? {
    } else {
      assert Remove(t, key) == Balance(Branch(t.left, MinKey(t.right), t.height, DetachMin(t.right)));
      SuccessorReplaceCorrect(t);
    }
  }

  /** The two-child case of node_remove: the matched key gives way to the
      minimum of the right subtree, which is detached from there. */
  lemma {:induction false} SuccessorReplaceCorrect(t: Tree)
    requires t.Branch? && t.right.Branch? && IsAvl(t)
    ensures var r := Balance(Branch(t.left, MinKey(t.right), t.height, DetachMin(t.right)));
      IsAvl(r) && Keys(r) == Keys(t) - {t.key} && Height(t) - 1 <= Height(r) <= Height(t)
  {
    var l, m, r := t.left, MinKey(t.right), DetachMin(t.right);
    DetachMinCorrect(t.right);
    MinKeyIsLeast(t.right);
    assert Keys(r) == Keys(t.right) - {m};
    assert t.key < m;
    forall x | x in Keys(l) ensures x < m {
      assert x < t.key;
    }
    forall x | x in Keys(r) ensures m < x {
      assert x in Keys(t.right) && x != m;
    }
    assert Keys(l) + {m} + Keys(r) == Keys(t) - {t.key};
    var n := Branch(l, m, t.height, r);
    BalanceRestores(n);
    assert IsAvl(Balance(n)) && Keys(Balance(n)) == Keys(t) - {t.key};
  }

  /** Removing a key that is absent returns the tree unchanged. */
  lemma {:induction false} RemoveAbsentIsIdentity(t: Tree, key: int)
    requires HeightsCorrect(t) && Balanced(t) && key !in Keys(t)
    ensures Remove(t, key) == t
  {
    if t.Branch? {
      if key < t.key {
        RemoveAbsentIsIdentity(t.left, key);
        BalanceKeepsValidNode(t);
      } else if key > t.key {
        RemoveAbsentIsIdentity(t.right, key);
        BalanceKeepsValidNode(t);
      }
    }
  }
}
