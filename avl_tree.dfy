/** The pointer-linked AVL tree of avl_tree.cpp.

    Each C `Node` is an object whose `left`, `right`, `height` and `key`
    fields the operations rewrite in place, and every operation returns the
    new subtree root for its caller to store, as the C functions do.  A node's
    ghost `Model` is the value of its subtree in AvlModel and its ghost `Repr`
    the set of nodes it owns; `Valid()` says that the heap really holds that
    value.  Each method is proved to leave behind exactly the value that the
    corresponding AvlModel function computes, so the lemmas of AvlModel carry
    over to the heap. */
module AvlTree {
  import AvlModel

  class Node {
    var height: int
    var key: int
    var left: Node?
    var right: Node?
    ghost var Model: AvlModel.Tree
    ghost var Repr: set<Node>

    /** The subtree below this node is a tree (no sharing, no cycles) whose
        value is `Model`. */
    ghost predicate Valid()
      reads this, Repr
      decreases Repr
    {
      && this in Repr
      && (left != null ==>
            left in Repr && left.Repr <= Repr && this !in left.Repr && left.Valid())
      && (right != null ==>
            right in Repr && right.Repr <= Repr && this !in right.Repr && right.Valid())
      && (left != null && right != null ==> left.Repr !! right.Repr)
      && Model == AvlModel.Branch(ModelOf(left), key, height, ModelOf(right))
    }

    /** The children are valid, disjoint subtrees not containing this node;
        this node's own ghost fields may be stale (a child pointer or the
        height was just rewritten). */
    ghost predicate ChildrenValid()
      reads this, left, right, ReprOf(left), ReprOf(right)
    {
      && (left != null ==> this !in left.Repr && left.Valid())
      && (right != null ==> this !in right.Repr && right.Valid())
      && (left != null && right != null ==> left.Repr !! right.Repr)
    }

    /** create_node: a fresh leaf holding the key, with height 1. */
    constructor (key: int)
      ensures Valid() && fresh(Repr) && Repr == {this}
      ensures Model == AvlModel.Branch(AvlModel.Nil, key, 1, AvlModel.Nil)
    {
      this.height := 1;
      this.key := key;
      this.left := null;
      this.right := null;
      Model := AvlModel.Branch(AvlModel.Nil, key, 1, AvlModel.Nil);
      Repr := {this};
    }
  }

  ghost function ReprOf(n: Node?): set<Node>
    reads n
  {
    if n == null then {} else n.Repr
  }

  ghost function ModelOf(n: Node?): AvlModel.Tree
    reads n
  {
    if n == null then AvlModel.Nil else n.Model
  }

  /** The value a node with valid children stands for, from its fields. */
  ghost function Shape(n: Node): AvlModel.Tree
    reads n, n.left, n.right
  {
    AvlModel.Branch(ModelOf(n.left), n.key, n.height, ModelOf(n.right))
  }

  /** The nodes a node with valid children owns, from its fields. */
  ghost function Footprint(n: Node): set<Node>
    reads n, n.left, n.right
  {
    {n} + ReprOf(n.left) + ReprOf(n.right)
  }

  /** height: an absent subtree has height 0, a node its stored height. */
  function Height(n: Node?): (h: int)
    reads n, if n == null then {} else n.Repr
    requires n != null ==> n.Valid()
    ensures h == AvlModel.Height(ModelOf(n))
    ensures n == null ==> h == 0
  {
    if n == null then 0 else n.height
  }

  /** balance_factor: the right subtree's height minus the left one's. */
  function BalanceFactor(n: Node): (bf: int)
    reads n, n.Repr
    requires n.Valid()
    ensures bf == AvlModel.BalanceFactor(n.Model)
  {
    Height(n.right) - Height(n.left)
  }

  /** update_height: refresh the stored height from the children's.  This is
      also where the node's ghost value and footprint are brought up to date. */
  method UpdateHeight(node: Node)
    requires node.ChildrenValid()
    modifies node
    ensures node.Valid() && node.Repr == old(Footprint(node))
    ensures node.Model == AvlModel.UpdateHeight(old(Shape(node)))
    ensures node.left == old(node.left) && node.right == old(node.right)
    ensures node.key == old(node.key)
  {
    var hl, hr := Height(node.left), Height(node.right);
    var heightMax := if hl > hr then hl else hr;
    node.height := heightMax + 1;
    node.Repr := {node} + ReprOf(node.left) + ReprOf(node.right);
    node.Model := AvlModel.Branch(ModelOf(node.left), node.key, node.height, ModelOf(node.right));
  }

  /** rotate_left: the right child becomes the subtree root; the old root's
      height is refreshed before the new root's. */
  method RotateLeft(node: Node) returns (r: Node)
    requires node.ChildrenValid() && node.right != null
    modifies node, node.right
    ensures r == old(node.right)
    ensures r.Valid() && r.Repr <= old(Footprint(node))
    ensures r.Model == AvlModel.RotateLeft(old(Shape(node)))
    ensures node.key == old(node.key) && r.key == old(r.key)
  {
    var right := node.right;
    node.right := right.left;
    right.left := node;
    UpdateHeight(node);
    UpdateHeight(right);
    r := right;
  }

  /** rotate_right: the left child becomes the subtree root; the old root's
      height is refreshed before the new root's. */
  method RotateRight(node: Node) returns (r: Node)
    requires node.ChildrenValid() && node.left != null
    modifies node, node.left
    ensures r == old(node.left)
    ensures r.Valid() && r.Repr <= old(Footprint(node))
    ensures r.Model == AvlModel.RotateRight(old(Shape(node)))
    ensures node.key == old(node.key) && r.key == old(r.key)
  {
    var left := node.left;
    node.left := left.right;
    left.right := node;
    UpdateHeight(node);
    UpdateHeight(left);
    r := left;
  }

  /** balance: refresh the height and, when the balance factor is -2 or 2,
      rotate, first rotating the heavy child when it leans the other way. */
  method Balance(node: Node) returns (r: Node)
    requires node.ChildrenValid()
    requires AvlModel.Positive(ModelOf(node.left)) && AvlModel.Positive(ModelOf(node.right))
    modifies Footprint(node)
    ensures r.Valid() && r.Repr <= old(Footprint(node))
    ensures r.Model == AvlModel.Balance(old(Shape(node)))
    ensures forall n | n in old(Footprint(node)) :: n.key == old(n.key)
  {
    UpdateHeight(node);
    var bf := BalanceFactor(node);
    if bf == -2 {
      r := FixLeftHeavy(node);
    } else if bf == 2 {
      r := FixRightHeavy(node);
    } else {
      r := node;
    }
  }

  /** The bf == -2 branch of balance: a left child leaning right is rotated
      left first, then the node is rotated right. */
  method FixLeftHeavy(node: Node) returns (r: Node)
    requires node.Valid() && node.left != null
    requires node.Model.left == node.left.Model && node.Model.left.Branch?
    requires AvlModel.Positive(node.left.Model) && AvlModel.Positive(node.left.Model.left)
    modifies node.Repr
    ensures r.Valid() && r.Repr <= old(node.Repr)
    ensures r.Model == AvlModel.RotateRight(
      if AvlModel.BalanceFactor(old(node.Model).left) == 1
      then old(node.Model).(left := AvlModel.RotateLeft(old(node.Model).left))
      else old(node.Model))
    ensures forall n | n in old(node.Repr) :: n.key == old(n.key)
  {
    ghost var m := node.Model;
    if BalanceFactor(node.left) == 1 {
      var l := RotateLeft(node.left);
      node.left := l;
      assert Shape(node) == m.(left := AvlModel.RotateLeft(m.left));
    } else {
      assert Shape(node) == m;
    }
    r := RotateRight(node);
  }

  /** The bf == 2 branch of balance: a right child leaning left is rotated
      right first, then the node is rotated left. */
  method FixRightHeavy(node: Node) returns (r: Node)
    requires node.Valid() && node.right != null
    requires node.Model.right == node.right.Model && node.Model.right.Branch?
    requires AvlModel.Positive(node.right.Model) && AvlModel.Positive(node.right.Model.right)
    modifies node.Repr
    ensures r.Valid() && r.Repr <= old(node.Repr)
    ensures r.Model == AvlModel.RotateLeft(
      if AvlModel.BalanceFactor(old(node.Model).right) == -1
      then old(node.Model).(right := AvlModel.RotateRight(old(node.Model).right))
      else old(node.Model))
    ensures forall n | n in old(node.Repr) :: n.key == old(n.key)
  {
    ghost var m := node.Model;
    if BalanceFactor(node.right) == -1 {
      var rt := RotateRight(node.right);
      node.right := rt;
      assert Shape(node) == m.(right := AvlModel.RotateRight(m.right));
    } else {
      assert Shape(node) == m;
    }
    r := RotateLeft(node);
  }

  /** node_insert: insert below `node` and return the new subtree root. */
  method NodeInsert(node: Node?, key: int) returns (r: Node)
    requires node != null ==> node.Valid()
    requires AvlModel.Positive(ModelOf(node))
    modifies ReprOf(node)
    ensures r.Valid() && fresh(r.Repr - old(ReprOf(node)))
    ensures r.Model == AvlModel.Insert(old(ModelOf(node)), key)
    decreases ReprOf(node)
  {
    if node == null {
      r := new Node(key);
      return;
    }
    if key == node.key {
      return node;
    }
    if key > node.key {
      var t := NodeInsert(node.right, key);
      node.right := t;
    } else {
      var t := NodeInsert(node.left, key);
      node.left := t;
    }
    r := Balance(node);
  }

  /** find_min: walk left from `node` to the leftmost node. */
  method FindMin(node: Node?) returns (r: Node?)
    requires node != null ==> node.Valid()
    ensures r == null <==> node == null
    ensures r != null ==> r in node.Repr && r.left == null
    ensures r != null ==> r.key == AvlModel.MinKey(node.Model)
  {
    r := node;
    while r != null && r.left != null
      invariant r == null <==> node == null
      invariant r != null ==> r.Valid() && r in node.Repr && r.Repr <= node.Repr
      invariant r != null ==> AvlModel.MinKey(r.Model) == AvlModel.MinKey(node.Model)
      decreases ReprOf(r)
    {
      r := r.left;
    }
  }

  /** detach_min: unlink the leftmost node below `node`, rebalancing on the
      way back, and return the new subtree root. */
  method DetachMin(node: Node?) returns (r: Node?)
    requires node != null ==> node.Valid()
    requires AvlModel.Positive(ModelOf(node))
    modifies ReprOf(node)
    ensures r != null ==> r.Valid()
    ensures ReprOf(r) <= old(ReprOf(node))
    ensures ModelOf(r) == AvlModel.DetachMin(old(ModelOf(node)))
    ensures forall n | n in old(ReprOf(node)) :: n.key == old(n.key)
    decreases ReprOf(node)
  {
    if node == null {
      return null;
    }
    if node.left == null {
      return node.right;
    }
    var t := DetachMin(node.left);
    node.left := t;
    r := Balance(node);
  }

  /** node_remove: remove the key below `node` and return the new subtree root. */
  method NodeRemove(node: Node?, key: int) returns (r: Node?)
    requires node != null ==> node.Valid()
    requires AvlModel.Positive(ModelOf(node))
    modifies ReprOf(node)
    ensures r != null ==> r.Valid()
    ensures ReprOf(r) <= old(ReprOf(node))
    ensures ModelOf(r) == AvlModel.Remove(old(ModelOf(node)), key)
    decreases ReprOf(node)
  {
    if node == null {
      return null;
    }
    if key < node.key {
      var t := NodeRemove(node.left, key);
      node.left := t;
      r := Balance(node);
      return;
    }
    if key > node.key {
      var t := NodeRemove(node.right, key);
      node.right := t;
      r := Balance(node);
      return;
    }
    r := RemoveMatched(node);
  }

  /** The matched-node case of node_remove: without a right child the node
      gives way to its left child; otherwise it takes over the key of the
      right subtree's minimum, which is detached from that subtree. */
  method RemoveMatched(node: Node) returns (r: Node?)
    requires node.Valid() && AvlModel.Positive(node.Model)
    modifies node.Repr
    ensures r != null ==> r.Valid()
    ensures ReprOf(r) <= old(node.Repr)
    ensures ModelOf(r) == AvlModel.Remove(old(node.Model), old(node.key))
  {
    if node.right == null {
      return node.left;
    }
    var rightMin := FindMin(node.right);
    var t := DetachMin(node.right);
    node.right := t;
    node.key := rightMin.key;
    r := Balance(node);
  }

  /** The tree handle: a root that is absent for the empty set.  Its
      invariant is that the nodes form an AVL tree. */
  class Tree {
    var root: Node?
    ghost var Repr: set<Node>

    ghost function Model(): AvlModel.Tree
      reads this, root
    {
      ModelOf(root)
    }

    ghost predicate Valid()
      reads this, Repr
    {
      && (root == null ==> Repr == {})
      && (root != null ==> root in Repr && root.Repr == Repr && root.Valid())
      && AvlModel.IsAvl(Model())
    }

    /** tree_constructor: the empty tree. */
    constructor ()
      ensures Valid() && Model() == AvlModel.Nil && Repr == {}
    {
      root := null;
      Repr := {};
    }

    /** tree_insert: the key set gains the key and the tree stays AVL. */
    method Insert(key: int)
      requires Valid()
      modifies this, Repr
      ensures Valid() && fresh(Repr - old(Repr))
      ensures Model() == AvlModel.Insert(old(Model()), key)
      ensures AvlModel.Keys(Model()) == AvlModel.Keys(old(Model())) + {key}
    {
      AvlModel.InsertCorrect(Model(), key);
      root := NodeInsert(root, key);
      Repr := root.Repr;
    }

    /** tree_remove: the key set loses the key and the tree stays AVL. */
    method Remove(key: int)
      requires Valid()
      modifies this, Repr
      ensures Valid() && Repr <= old(Repr)
      ensures Model() == AvlModel.Remove(old(Model()), key)
      ensures AvlModel.Keys(Model()) == AvlModel.Keys(old(Model())) - {key}
    {
      AvlModel.RemoveCorrect(Model(), key);
      root := NodeRemove(root, key);
      Repr := ReprOf(root);
    }
  }
}
