/** The pointer-linked treap of treap.cpp.

    Each C `Node` is an object whose `left` and `right` links `merge` and
    `split` rewrite in place, returning the new subtree roots for their
    callers to store.  A node's ghost `Model` is the value of its subtree in
    TreapModel and its ghost `Repr` the set of nodes it owns; `Valid()` says
    that the heap really holds that value.  Each method is proved to leave
    behind exactly the value that the corresponding TreapModel function
    computes, so the lemmas of TreapModel carry over to the heap.  The
    priority that the C code draws from `rand()` is a parameter here. */
module Treap {
  import TreapModel

  class Node {
    var priority: int
    var key: int
    var left: Node?
    var right: Node?
    ghost var Model: TreapModel.Tree
    ghost var Repr: set<Node>

    /** The subtree below this node is a tree (no sharing, no cycles) whose
        value is `Model`. */
    ghost predicate Valid()
      reads this, Repr
      decreases Repr
    {
      && this in Repr
      && (left != null ==>
            left in Repr && left.Repr <= Repr && this !in left.Repr && left.Valid())
      && (right != null ==>
            right in Repr && right.Repr <= Repr && this !in right.Repr && right.Valid())
      && (left != null && right != null ==> left.Repr !! right.Repr)
      && Model == TreapModel.Branch(ModelOf(left), key, priority, ModelOf(right))
    }

    /** The children are valid, disjoint subtrees not containing this node;
        this node's own ghost fields may be stale (a child link was just
        rewritten). */
    ghost predicate ChildrenValid()
      reads this, left, right, ReprOf(left), ReprOf(right)
    {
      && (left != null ==> this !in left.Repr && left.Valid())
      && (right != null ==> this !in right.Repr && right.Valid())
      && (left != null && right != null ==> left.Repr !! right.Repr)
    }

    /** create_node: a fresh leaf holding the key and the given priority. */
    constructor (key: int, priority: int)
      ensures Valid() && fresh(Repr) && Repr == {this}
      ensures Model == TreapModel.Branch(TreapModel.Nil, key, priority, TreapModel.Nil)
    {
      this.priority := priority;
      this.key := key;
      this.left := null;
      this.right := null;
      Model := TreapModel.Branch(TreapModel.Nil, key, priority, TreapModel.Nil);
      Repr := {this};
    }
  }

  ghost function ReprOf(n: Node?): set<Node>
    reads n
  {
    if n == null then {} else n.Repr
  }

  ghost function ModelOf(n: Node?): TreapModel.Tree
    reads n
  {
    if n == null then TreapModel.Nil else n.Model
  }

  /** The value a node with valid children stands for, from its fields. */
  ghost function Shape(n: Node): TreapModel.Tree
    reads n, n.left, n.right
  {
    TreapModel.Branch(ModelOf(n.left), n.key, n.priority, ModelOf(n.right))
  }

  /** The nodes a node with valid children owns, from its fields. */
  ghost function Footprint(n: Node): set<Node>
    reads n, n.left, n.right
  {
    {n} + ReprOf(n.left) + ReprOf(n.right)
  }

  /** Bring a node's ghost value and footprint up to date after one of its
      links was rewritten; the C code has nothing to do here. */
  ghost method Refresh(node: Node)
    requires node.ChildrenValid()
    modifies node`Model, node`Repr
    ensures node.Valid() && node.Repr == old(Footprint(node))
    ensures node.Model == old(Shape(node))
  {
    node.Repr := {node} + ReprOf(node.left) + ReprOf(node.right);
    node.Model := TreapModel.Branch(ModelOf(node.left), node.key, node.priority, ModelOf(node.right));
  }

  /** merge: join two treaps, every key of `L` coming before every key of
      `R`.  An absent operand gives back the other one; otherwise the root
      with the higher priority, `R`'s on a tie, stays on top. */
  method Merge(L: Node?, R: Node?) returns (r: Node?)
    requires L != null ==> L.Valid()
    requires R != null ==> R.Valid()
    requires ReprOf(L) !! ReprOf(R)
    modifies ReprOf(L), ReprOf(R)
    ensures r != null ==> r.Valid()
    ensures ReprOf(r) <= old(ReprOf(L) + ReprOf(R))
    ensures ModelOf(r) == TreapModel.Merge(old(ModelOf(L)), old(ModelOf(R)))
    ensures L == null ==> r == R
    ensures R == null ==> r == L
    ensures L != null && R != null ==>
              r == if old(R.priority) >= old(L.priority) then R else L
    decreases ReprOf(L) + ReprOf(R), 1
  {
    if L == null {
      return R;
    }
    if R == null {
      return L;
    }
    if R.priority >= L.priority {
      MergeIntoLeft(L, R);
      r := R;
    } else {
      MergeIntoRight(L, R);
      r := L;
    }
  }

  /** The branch of merge where `R` stays on top: `L` is merged with `R`'s
      left subtree, and the result becomes `R`'s new left subtree. */
  method MergeIntoLeft(L: Node, R: Node)
    requires L.Valid() && R.Valid() && L.Repr !! R.Repr
    modifies L.Repr, R.Repr
    ensures R.Valid() && R.Repr <= old(L.Repr + R.Repr)
    ensures R.Model == old(R.Model).(left := TreapModel.Merge(old(L.Model), old(R.Model).left))
    decreases L.Repr + R.Repr, 0
  {
    ghost var m := R.Model;
    var t := Merge(L, R.left);
    assert R.right != null ==>
             R.right.Valid() && R.right.Repr !! ReprOf(t) && R.right.Model == m.right;
    R.left := t;
    Refresh(R);
  }

  /** The branch of merge where `L` stays on top: `L`'s right subtree is
      merged with `R`, and the result becomes `L`'s new right subtree. */
  method MergeIntoRight(L: Node, R: Node)
    requires L.Valid() && R.Valid() && L.Repr !! R.Repr
    modifies L.Repr, R.Repr
    ensures L.Valid() && L.Repr <= old(L.Repr + R.Repr)
    ensures L.Model == old(L.Model).(right := TreapModel.Merge(old(L.Model).right, old(R.Model)))
    decreases L.Repr + R.Repr, 0
  {
    ghost var m := L.Model;
    var t := Merge(L.right, R);
    assert L.left != null ==>
             L.left.Valid() && L.left.Repr !! ReprOf(t) && L.left.Model == m.left;
    L.right := t;
    Refresh(L);
  }

  /** split: cut the subtree at `key`, keys below it going to the first
      result and the rest to the second.  Each node goes to one of the two
      halves. */
  method Split(node: Node?, key: int) returns (L: Node?, R: Node?)
    requires node != null ==> node.Valid()
    modifies ReprOf(node)
    ensures L != null ==> L.Valid()
    ensures R != null ==> R.Valid()
    ensures ReprOf(L) !! ReprOf(R)
    ensures ReprOf(L) + ReprOf(R) <= old(ReprOf(node))
    ensures (ModelOf(L), ModelOf(R)) == TreapModel.Split(old(ModelOf(node)), key)
    decreases ReprOf(node), 1
  {
    if node == null {
      return null, null;
    }
    if key > node.key {
      R := SplitRightOf(node, key);
      L := node;
    } else {
      L := SplitLeftOf(node, key);
      R := node;
    }
  }

  /** The branch of split where `node` goes to the lower half: its right
      subtree is split, the lower part stays as its right subtree and the
      upper part is returned. */
  method SplitRightOf(node: Node, key: int) returns (R: Node?)
    requires node.Valid()
    modifies node.Repr
    ensures node.Valid() && (R != null ==> R.Valid())
    ensures node.Repr !! ReprOf(R)
    ensures node.Repr + ReprOf(R) <= old(node.Repr)
    ensures var p := TreapModel.Split(old(node.Model).right, key);
            node.Model == old(node.Model).(right := p.0) && ModelOf(R) == p.1
    decreases node.Repr, 0
  {
    ghost var m := node.Model;
    var l, r := Split(node.right, key);
    assert node.left != null ==>
             node.left.Valid() && node.left.Repr !! ReprOf(l) + ReprOf(r) && node.left.Model == m.left;
    node.right := l;
    Refresh(node);
    R := r;
  }

  /** The branch of split where `node` goes to the upper half: its left
      subtree is split, the upper part stays as its left subtree and the
      lower part is returned. */
  method SplitLeftOf(node: Node, key: int) returns (L: Node?)
    requires node.Valid()
    modifies node.Repr
    ensures node.Valid() && (L != null ==> L.Valid())
    ensures node.Repr !! ReprOf(L)
    ensures node.Repr + ReprOf(L) <= old(node.Repr)
    ensures var p := TreapModel.Split(old(node.Model).left, key);
            node.Model == old(node.Model).(left := p.1) && ModelOf(L) == p.0
    decreases node.Repr, 0
  {
    ghost var m := node.Model;
    var l, r := Split(node.left, key);
    assert node.right != null ==>
             node.right.Valid() && node.right.Repr !! ReprOf(l) + ReprOf(r) && node.right.Model == m.right;
    node.left := r;
    Refresh(node);
    L := l;
  }

  /** find_min: walk left from `node` (possibly absent) to the leftmost
      node. */
  method FindMin(node: Node?) returns (r: Node?)
    requires node != null ==> node.Valid()
    ensures r == null <==> node == null
    ensures r != null ==> r in node.Repr && r.left == null
    ensures r != null ==> r.key == TreapModel.MinKey(node.Model)
  {
    r := node;
    while r != null && r.left != null
      invariant r == null <==> node == null
      invariant r != null ==> r.Valid() && r in node.Repr && r.Repr <= node.Repr
      invariant r != null ==> TreapModel.MinKey(r.Model) == TreapModel.MinKey(node.Model)
      decreases ReprOf(r)
    {
      r := r.left;
    }
  }

  /** The body of tree_insert, on the root link: split at the key and
      merge a new node with the given priority in between. */
  method InsertAt(root: Node?, key: int, priority: int) returns (t: Node)
    requires root != null ==> root.Valid()
    modifies ReprOf(root)
    ensures t.Valid() && fresh(t.Repr - old(ReprOf(root)))
    ensures t.Model == TreapModel.Insert(old(ModelOf(root)), key, priority)
  {
    var l, r := Split(root, key);
    var n := new Node(key, priority);
    var m := Merge(l, n);
    t := Merge(m, r);
  }

  /** The second step of tree_remove, on the part at or above `key`:
      isolate the keys below `key + 1` and, if there are any, merge the two
      subtrees of that piece's root together and back onto the rest. */
  method DropPieceRoot(node: Node?, key: int) returns (t: Node?)
    requires node != null ==> node.Valid()
    modifies ReprOf(node)
    ensures t != null ==> t.Valid()
    ensures ReprOf(t) <= old(ReprOf(node))
    ensures ModelOf(t) == TreapModel.DropPieceRoot(old(ModelOf(node)), key)
  {
    ghost var upper := TreapModel.Split(ModelOf(node), key + 1);
    var upperL, upperR := Split(node, key + 1);
    if upperL != null {
      var piece := Merge(upperL.left, upperL.right);
      assert piece != null ==> ReprOf(piece) <= upperL.Repr;
      assert upperR != null ==> upperR.Valid() && upperR.Model == upper.1;
      t := Merge(piece, upperR);
    } else {
      t := upperR;
    }
  }

  /** The body of tree_remove, on the root link: split at the key, drop one
      copy from the upper part and merge the two parts again. */
  method RemoveAt(root: Node?, key: int) returns (t: Node?)
    requires root != null ==> root.Valid()
    modifies ReprOf(root)
    ensures t != null ==> t.Valid()
    ensures ReprOf(t) <= old(ReprOf(root))
    ensures ModelOf(t) == TreapModel.Remove(old(ModelOf(root)), key)
    ensures TreapModel.IsTreap(old(ModelOf(root))) ==> TreapModel.IsTreap(ModelOf(t))
  {
    if TreapModel.IsTreap(ModelOf(root)) {
      TreapModel.RemoveCorrect(ModelOf(root), key);
    }
    var lowerL, lowerR := Split(root, key);
    var rest := DropPieceRoot(lowerR, key);
    t := Merge(lowerL, rest);
  }

  /** The tree handle: a root that is absent for the empty treap.  Its
      invariant is that the nodes form a treap. */
  class Tree {
    var root: Node?
    ghost var Repr: set<Node>

    ghost function Model(): TreapModel.Tree
      reads this, root
    {
      ModelOf(root)
    }

    ghost predicate Valid()
      reads this, Repr
    {
      && (root == null ==> Repr == {})
      && (root != null ==> root in Repr && root.Repr == Repr && root.Valid())
      && TreapModel.IsTreap(Model())
    }

    /** tree_constructor: the empty treap. */
    constructor ()
      ensures Valid() && Model() == TreapModel.Nil && Repr == {}
    {
      root := null;
      Repr := {};
    }

    /** tree_insert: split at the key and merge a new node with the given
        priority in between; the tree gains one more copy of the key. */
    method Insert(key: int, priority: int)
      requires Valid()
      modifies this, Repr
      ensures Valid() && fresh(Repr - old(Repr))
      ensures Model() == TreapModel.Insert(old(Model()), key, priority)
      ensures TreapModel.Elems(Model()) == TreapModel.Elems(old(Model())) + multiset{key}
    {
      TreapModel.InsertAddsOne(Model(), key, priority);
      TreapModel.InsertTreap(Model(), key, priority);
      root := InsertAt(root, key, priority);
      Repr := ReprOf(root);
    }

    /** tree_remove: isolate the keys in [key, key + 1) and drop the root of
        that piece; the tree loses one copy of the key if it has one. */
    method Remove(key: int)
      requires Valid()
      modifies this, Repr
      ensures Valid() && Repr <= old(Repr)
      ensures Model() == TreapModel.Remove(old(Model()), key)
    {
      var t := RemoveAt(root, key);
      Repr := ReprOf(t);
      root := t;
    }

    /** tree_find: descend by comparing keys; in a treap the result is a
        node holding the key, and it is absent exactly when the key is. */
    method Find(key: int) returns (r: Node?)
      requires Valid()
      ensures r == null <==> key !in TreapModel.Elems(Model())
      ensures r != null ==> r in Repr && r.key == key
    {
      r := root;
      while r != null
        invariant r != null ==> r.Valid() && r in Repr && r.Repr <= Repr
        invariant TreapModel.Sorted(TreapModel.InOrder(ModelOf(r)))
        invariant key in TreapModel.Elems(Model()) <==> key in TreapModel.Elems(ModelOf(r))
        decreases ReprOf(r)
      {
        TreapModel.SearchStep(r.Model, key);
        if key < r.key {
          r := r.left;
        } else if key > r.key {
          r := r.right;
        } else {
          break;
        }
      }
      if r != null {
        assert key in TreapModel.InOrder(r.Model);
      }
    }
  }
}
