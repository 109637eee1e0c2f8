/** The pointer-linked unbalanced search tree of naive_tree.cpp.

    Each C `Node` is an object whose `key`, `left` and `right` fields the
    operations rewrite in place.  A node's ghost `Model` is the value of its
    subtree in NaiveModel and its ghost `Repr` the set of nodes it owns;
    `Valid()` says that the heap really holds that value.  Insertion walks
    down with a cursor and hangs a new leaf on the empty slot it reaches;
    erasure is recursive and returns the new subtree root. */
module NaiveTree {
  import NaiveModel

  class Node {
    var key: int
    var left: Node?
    var right: Node?
    ghost var Model: NaiveModel.Tree
    ghost var Repr: set<Node>

    /** The subtree below this node is a tree (no sharing, no cycles) whose
        value is `Model`. */
    ghost predicate Valid()
      reads this, Repr
      decreases Repr
    {
      && this in Repr
      && (left != null ==>
            left in Repr && left.Repr <= Repr && this !in left.Repr && left.Valid())
      && (right != null ==>
            right in Repr && right.Repr <= Repr && this !in right.Repr && right.Valid())
      && (left != null && right != null ==> left.Repr !! right.Repr)
      && Model == NaiveModel.Branch(ModelOf(left), key, ModelOf(right))
    }

    /** The children are valid, disjoint subtrees not containing this node;
        this node's own ghost fields may be stale (its key or a child link
        was just rewritten). */
    ghost predicate ChildrenValid()
      reads this, left, right, ReprOf(left), ReprOf(right)
    {
      && (left != null ==> this !in left.Repr && left.Valid())
      && (right != null ==> this !in right.Repr && right.Valid())
      && (left != null && right != null ==> left.Repr !! right.Repr)
    }

    /** node_constructor: a fresh leaf holding the key. */
    constructor (key: int)
      ensures Valid() && fresh(Repr) && Repr == {this}
      ensures Model == NaiveModel.Branch(NaiveModel.Nil, key, NaiveModel.Nil)
      ensures this.key == key && left == null && right == null
    {
      this.key := key;
      this.left := null;
      this.right := null;
      Model := NaiveModel.Branch(NaiveModel.Nil, key, NaiveModel.Nil);
      Repr := {this};
    }
  }

  ghost function ReprOf(n: Node?): set<Node>
    reads n
  {
    if n == null then {} else n.Repr
  }

  ghost function ModelOf(n: Node?): NaiveModel.Tree
    reads n
  {
    if n == null then NaiveModel.Nil else n.Model
  }

  /** The value a node with valid children stands for, from its fields. */
  ghost function Shape(n: Node): NaiveModel.Tree
    reads n, n.left, n.right
  {
    NaiveModel.Branch(ModelOf(n.left), n.key, ModelOf(n.right))
  }

  /** The nodes a node with valid children owns, from its fields. */
  ghost function Footprint(n: Node): set<Node>
    reads n, n.left, n.right
  {
    {n} + ReprOf(n.left) + ReprOf(n.right)
  }

  /** The child that insertion of `key` descends to from `n`. */
  ghost function Next(n: Node, key: int): Node?
    reads n
  {
    if key > n.key then n.right else n.left
  }

  /** Bring a node's ghost value and footprint up to date after its key or
      one of its links was rewritten; the C code has nothing to do here. */
  ghost method Refresh(node: Node)
    requires node.ChildrenValid()
    modifies node`Model, node`Repr
    ensures node.Valid() && node.Repr == old(Footprint(node))
    ensures node.Model == old(Shape(node))
  {
    node.Repr := {node} + ReprOf(node.left) + ReprOf(node.right);
    node.Model := NaiveModel.Branch(ModelOf(node.left), node.key, ModelOf(node.right));
  }

  /** node_min: walk left from `node` (possibly absent) to the leftmost
      node, which holds the least key. */
  method NodeMin(node: Node?) returns (r: Node?)
    requires node != null ==> node.Valid()
    ensures r == null <==> node == null
    ensures r != null ==> r in node.Repr && r.left == null
    ensures r != null ==> r.key == NaiveModel.MinKey(node.Model)
  {
    r := node;
    while r != null && r.left != null
      invariant r == null <==> node == null
      invariant r != null ==> r.Valid() && r in node.Repr && r.Repr <= node.Repr
      invariant r != null ==> NaiveModel.MinKey(r.Model) == NaiveModel.MinKey(node.Model)
      decreases ReprOf(r)
    {
      r := r.left;
    }
  }

  /** node_erase: erase one copy of the key below `node` and return the new
      subtree root. */
  method NodeErase(node: Node?, key: int) returns (r: Node?)
    requires node != null ==> node.Valid()
    modifies ReprOf(node)
    ensures r != null ==> r.Valid()
    ensures ReprOf(r) <= old(ReprOf(node))
    ensures ModelOf(r) == NaiveModel.Erase(old(ModelOf(node)), key)
    decreases ReprOf(node), 1
  {
    if node == null {
      return null;
    }
    if key > node.key {
      EraseRight(node, key);
      r := node;
    } else if key < node.key {
      EraseLeft(node, key);
      r := node;
    } else if node.left != null && node.right != null {
      EraseSuccessor(node);
      r := node;
    } else if node.left != null {
      r := node.left;
    } else if node.right != null {
      r := node.right;
    } else {
      r := null;
    }
  }

  /** The branch of node_erase that goes on in the right subtree. */
  method EraseRight(node: Node, key: int)
    requires node.Valid()
    modifies node.Repr
    ensures node.Valid() && node.Repr <= old(node.Repr)
    ensures node.Model == old(node.Model).(right := NaiveModel.Erase(old(node.Model).right, key))
    decreases node.Repr, 0
  {
    ghost var m := node.Model;
    var t := NodeErase(node.right, key);
    assert node.left != null ==>
             node.left.Valid() && node.left.Repr !! ReprOf(t) && node.left.Model == m.left;
    node.right := t;
    Refresh(node);
  }

  /** The branch of node_erase that goes on in the left subtree. */
  method EraseLeft(node: Node, key: int)
    requires node.Valid()
    modifies node.Repr
    ensures node.Valid() && node.Repr <= old(node.Repr)
    ensures node.Model == old(node.Model).(left := NaiveModel.Erase(old(node.Model).left, key))
    decreases node.Repr, 0
  {
    ghost var m := node.Model;
    var t := NodeErase(node.left, key);
    assert node.right != null ==>
             node.right.Valid() && node.right.Repr !! ReprOf(t) && node.right.Model == m.right;
    node.left := t;
    Refresh(node);
  }

  /** The two-child branch of node_erase: the node takes over the key of
      the leftmost node of its right subtree, and that key is then erased
      from the right subtree. */
  method EraseSuccessor(node: Node)
    requires node.Valid() && node.left != null && node.right != null
    requires node.Model.right.Branch?
    modifies node.Repr
    ensures node.Valid() && node.Repr <= old(node.Repr)
    ensures var m := NaiveModel.MinKey(old(node.Model).right);
            node.Model == NaiveModel.Branch(old(node.Model).left, m,
                                            NaiveModel.Erase(old(node.Model).right, m))
    decreases node.Repr, 0
  {
    ghost var m := node.Model;
    var least := NodeMin(node.right);
    node.key := least.key;
    var t := NodeErase(node.right, node.key);
    assert node.left.Valid() && node.left.Repr !! ReprOf(t) && node.left.Model == m.left;
    node.right := t;
    Refresh(node);
  }

  /** The child that insertion of `key` does not descend to from `n`. */
  ghost function Other(n: Node, key: int): Node?
    reads n
  {
    if key > n.key then n.left else n.right
  }

  /** `n` is a valid node with a stale view of its child `c` on the key's
      side: its value and footprint are made of that child's and of the
      other child, a valid subtree away from `c`.  Only the ghost fields of
      `c` are read, so rewriting one of its links leaves this in place. */
  ghost predicate Linked(n: Node, c: Node, key: int)
    reads n, c`Model, c`Repr, Other(n, key), ReprOf(Other(n, key))
  {
    var s := Other(n, key);
    && Next(n, key) == c
    && n in n.Repr && c.Repr <= n.Repr && n !in c.Repr
    && (s != null ==>
          s in n.Repr && s.Repr <= n.Repr && n !in s.Repr && s.Repr !! c.Repr && s.Valid())
    && n.Model == (if key > n.key then NaiveModel.Branch(ModelOf(s), n.key, c.Model)
                   else NaiveModel.Branch(c.Model, n.key, ModelOf(s)))
  }

  /** `n` has just had `leaf` hung on its empty slot on the key's side; its
      ghost fields still describe it as it was, with that slot empty. */
  ghost predicate Hung(n: Node, leaf: Node, key: int)
    reads n, Other(n, key), ReprOf(Other(n, key))
  {
    var s := Other(n, key);
    && Next(n, key) == leaf
    && n in n.Repr
    && (s != null ==> s in n.Repr && s.Repr <= n.Repr && n !in s.Repr && s.Valid())
    && n.Model == (if key > n.key then NaiveModel.Branch(ModelOf(s), n.key, NaiveModel.Nil)
                   else NaiveModel.Branch(NaiveModel.Nil, n.key, ModelOf(s)))
  }

  /** The new leaf is not yet part of `n`'s subtree. */
  ghost predicate Away(n: Node, leaf: Node, key: int)
    reads n, Other(n, key)
  {
    n != leaf && leaf !in n.Repr && (Other(n, key) != null ==> leaf !in Other(n, key).Repr)
  }

  /** Bring the ghost values of `path[j..]` up to date after tree_insert
      hung `leaf` below the last node of the path, from the bottom up. */
  ghost method Repair(path: seq<Node>, j: int, leaf: Node, key: int)
    requires 0 <= j < |path|
    requires leaf.Valid() && leaf.Repr == {leaf} &&
             leaf.Model == NaiveModel.Branch(NaiveModel.Nil, key, NaiveModel.Nil)
    requires forall k | j <= k < |path| - 1 :: Linked(path[k], path[k + 1], key)
    requires forall k | j <= k < |path| :: Away(path[k], leaf, key)
    requires Hung(path[|path| - 1], leaf, key)
    modifies path[j].Repr
    ensures path[j].Valid() && path[j].Repr == old(path[j].Repr) + {leaf}
    ensures path[j].Model == NaiveModel.Insert(old(path[j].Model), key)
    decreases |path| - j
  {
    if j + 1 < |path| {
      assert Linked(path[j], path[j + 1], key);
      Repair(path, j + 1, leaf, key);
    }
    var n := path[j];
    n.Repr := n.Repr + {leaf};
    n.Model := Shape(n);
  }

  /** The loop of tree_insert: from a present root a cursor walks down,
      right when the key is greater than the cursor's and left otherwise,
      until the slot it would take is empty.  `path` lists the nodes
      visited, from the root to the returned cursor. */
  method FindSlot(root: Node, key: int) returns (node: Node, ghost path: seq<Node>)
    requires root.Valid()
    ensures node.Valid() && node in root.Repr && Next(node, key) == null
    ensures |path| >= 1 && path[0] == root && path[|path| - 1] == node
    ensures forall j | 0 <= j < |path| :: node.Repr <= path[j].Repr
    ensures forall j | 0 <= j < |path| - 1 :: Linked(path[j], path[j + 1], key)
  {
    node := root;
    path := [root];
    while (if key > node.key then node.right else node.left) != null
      invariant |path| >= 1 && path[0] == root && path[|path| - 1] == node && node.Valid()
      invariant forall j | 0 <= j < |path| :: node.Repr <= path[j].Repr
      invariant forall j | 0 <= j < |path| - 1 :: Linked(path[j], path[j + 1], key)
      decreases node.Repr
    {
      node := if key > node.key then node.right else node.left;
      path := path + [node];
    }
  }

  /** The attaching step of tree_insert: a new node for the key is hung on
      the empty slot of the cursor, on the key's side.  Only that link
      changes, so the nodes above the cursor on `path` keep their facts. */
  method Attach(node: Node, key: int, ghost path: seq<Node>) returns (added: Node)
    requires node.Valid() && Next(node, key) == null
    requires |path| >= 1 && path[|path| - 1] == node
    requires forall j | 0 <= j < |path| :: node.Repr <= path[j].Repr
    requires forall j | 0 <= j < |path| - 1 :: Linked(path[j], path[j + 1], key)
    modifies node
    ensures fresh(added) && added.Valid() && added.Repr == {added}
    ensures added.Model == NaiveModel.Branch(NaiveModel.Nil, key, NaiveModel.Nil)
    ensures added.key == key && added.left == null && added.right == null
    ensures node.key == old(node.key) && Other(node, key) == old(Other(node, key))
    ensures node.Model == old(node.Model) && node.Repr == old(node.Repr)
    ensures Hung(node, added, key)
    ensures forall j | 0 <= j < |path| :: Away(path[j], added, key)
    ensures forall j | 0 <= j < |path| - 1 :: Linked(path[j], path[j + 1], key)
  {
    ghost var other, om := Other(node, key), ModelOf(Other(node, key));
    assert other != null ==>
             other in node.Repr && other.Repr <= node.Repr && node !in other.Repr && other.Valid();
    assert node.Model == (if key > node.key then NaiveModel.Branch(om, node.key, NaiveModel.Nil)
                          else NaiveModel.Branch(NaiveModel.Nil, node.key, om));
    added := new Node(key);
    if key > node.key {
      node.right := added;
    } else {
      node.left := added;
    }
    forall k | 0 <= k < |path| - 1
      ensures Linked(path[k], path[k + 1], key) && Away(path[k], added, key)
    {
      assert node in path[k + 1].Repr;
      assert path[k] != node && node !in ReprOf(Other(path[k], key));
    }
    assert Other(node, key) == other && ModelOf(other) == om;
  }

  /** tree_insert below a present root: FindSlot walks down to an empty
      slot, Attach hangs the new leaf there, and the ghost values of the
      nodes passed are then brought up to date.  `leaf` names the new node
      for the contract. */
  method InsertBelow(root: Node, key: int) returns (ghost leaf: Node)
    requires root.Valid()
    modifies root.Repr
    ensures root.Valid() && fresh(leaf) && root.Repr == old(root.Repr) + {leaf}
    ensures root.Model == NaiveModel.Insert(old(root.Model), key)
    ensures leaf.key == key && leaf.left == null && leaf.right == null
    ensures forall n | n in old(root.Repr) :: n.key == old(n.key)
    ensures forall n | n in old(root.Repr) ::
              (n.left == old(n.left) || (old(n.left) == null && n.left == leaf)) &&
              (n.right == old(n.right) || (old(n.right) == null && n.right == leaf))
  {
    var node, path := FindSlot(root, key);
    var added := Attach(node, key, path);
    leaf := added;
    Repair(path, 0, leaf, key);
  }

  /** The tree handle: a root that is absent for the empty tree.  Its
      invariant is the order that insertion and erasure both keep. */
  class Tree {
    var root: Node?
    ghost var Repr: set<Node>

    ghost function Model(): NaiveModel.Tree
      reads this, root
    {
      ModelOf(root)
    }

    ghost predicate Valid()
      reads this, Repr
    {
      && (root == null ==> Repr == {})
      && (root != null ==> root in Repr && root.Repr == Repr && root.Valid())
      && NaiveModel.Ordered(Model())
    }

    /** tree_constructor: the empty tree. */
    constructor ()
      ensures Valid() && Model() == NaiveModel.Nil && Repr == {}
    {
      root := null;
      Repr := {};
    }

    /** tree_insert: an empty tree gets the new node as its root; otherwise
        the new leaf is hung below the root by InsertBelow, which also states
        that no key changes and that the only link that changes is an empty
        one, which now holds the new node. */
    method Insert(key: int)
      requires Valid()
      modifies this, Repr
      ensures Valid()
      ensures Model() == NaiveModel.Insert(old(Model()), key)
      ensures exists leaf: Node :: fresh(leaf) && Repr == old(Repr) + {leaf} &&
                leaf.key == key && leaf.left == null && leaf.right == null &&
                (old(root) == null ==> root == leaf)
    {
      ghost var leaf: Node;
      if root == null {
        root := new Node(key);
        Repr := {root};
        leaf := root;
      } else {
        leaf := InsertBelow(root, key);
        Repr := Repr + {leaf};
      }
      assert fresh(leaf) && Repr == old(Repr) + {leaf} &&
             leaf.key == key && leaf.left == null && leaf.right == null &&
             (old(root) == null ==> root == leaf);
      NaiveModel.InsertOrdered(old(Model()), key);
    }

    /** tree_erase: erase one copy of the key from the tree. */
    method Erase(key: int)
      requires Valid()
      modifies this, Repr
      ensures Valid() && Repr <= old(Repr)
      ensures Model() == NaiveModel.Erase(old(Model()), key)
    {
      NaiveModel.EraseOrdered(Model(), key);
      var t := NodeErase(root, key);
      Repr := ReprOf(t);
      root := t;
    }
  }
}
