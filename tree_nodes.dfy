/**
 * The key trees as the program keeps them: each node a mutable
 * [key, left, right] record whose child links the insertions and the
 * rotations overwrite in place.  Every node carries, as ghost state,
 * the set of nodes below it (Repr) and the tree value it stands for
 * (Model), so each operation is specified by its counterpart on values.
 */
module TreeNodes {
  import KeyTrees
  import opened Wrappers

  class TreeNode {
    var key: int
    var left: TreeNode?
    var right: TreeNode?
    ghost var Repr: set<object>
    ghost var Model: KeyTrees.Tree

    /** The node and the nodes below it form a tree whose value is Model. */
    ghost predicate Valid()
      reads this, Repr
      ensures Valid() ==> this in Repr && Model.Node? && Model.key == key
      decreases Repr
    {
      (left != null ==> left in Repr) && (right != null ==> right in Repr) &&
      Repr == {this} + ReprOf(left) + ReprOf(right) &&
      this !in ReprOf(left) && this !in ReprOf(right) && ReprOf(left) !! ReprOf(right) &&
      (left != null ==> left.Valid()) && (right != null ==> right.Valid()) &&
      Model == KeyTrees.Node(key, ModelOf(left), ModelOf(right))
    }

    /** A new node [v, None, None]. */
    constructor (v: int)
      ensures Valid() && fresh(Repr)
      ensures key == v && left == null && right == null
      ensures Model == KeyTrees.Node(v, KeyTrees.Nil, KeyTrees.Nil)
    {
      key, left, right := v, null, null;
      Repr := {this};
      Model := KeyTrees.Node(v, KeyTrees.Nil, KeyTrees.Nil);
    }
  }

  ghost function ReprOf(n: TreeNode?): set<object>
    reads n
  {
    if n == null then {} else n.Repr
  }

  /** The tree value of a possibly missing node. */
  ghost function ModelOf(n: TreeNode?): KeyTrees.Tree
    reads n
  {
    if n == null then KeyTrees.Nil else n.Model
  }

  /** The height of the tree below a node: 0 for no node, else one more than the taller subtree. */
  function Height(n: TreeNode?): (h: nat)
    requires n != null ==> n.Valid()
    reads if n != null then n.Repr else {}
    decreases ReprOf(n)
    ensures h == KeyTrees.Height(ModelOf(n))
  {
    if n == null then 0 else KeyTrees.Max(Height(n.left), Height(n.right)) + 1
  }

  /**
   * The search of the tree below a node: the node holding v, or null, and
   * the number of nodes (and missing nodes) visited.
   */
  function Search(n: TreeNode?, v: int): (r: (TreeNode?, nat))
    requires n != null ==> n.Valid()
    reads if n != null then n.Repr else {}
    decreases ReprOf(n)
    ensures r.1 == KeyTrees.Search(ModelOf(n), v).1
    ensures r.0 == null <==> KeyTrees.Search(ModelOf(n), v).0.None?
    ensures r.0 != null ==> r.0 in ReprOf(n) && r.0.key == v
    ensures r.0 != null ==> KeyTrees.Search(ModelOf(n), v).0 == Some(ModelOf(r.0))
  {
    if n == null then (null, 1)
    else if v < n.key then
      var (found, comp) := Search(n.left, v);
      (found, comp + 1)
    else if v > n.key then
      var (found, comp) := Search(n.right, v);
      (found, comp + 1)
    else (n, 1)
  }

  /** What the validity of a node says about its two links. */
  lemma Unfold(n: TreeNode)
    requires n.Valid()
    ensures n.left != null ==> n.left.Valid() && n !in n.left.Repr
    ensures n.right != null ==> n.right.Valid() && n !in n.right.Repr
    ensures ReprOf(n.left) !! ReprOf(n.right)
    ensures n.Repr == {n} + ReprOf(n.left) + ReprOf(n.right)
    ensures n.Model == KeyTrees.Node(n.key, ModelOf(n.left), ModelOf(n.right))
  {
  }

  /**
   * Stores l and r in the links of n, which keeps its key, and brings
   * its ghost state up to date.
   */
  method Relink(n: TreeNode, l: TreeNode?, r: TreeNode?)
    requires l != null ==> l.Valid() && n !in l.Repr
    requires r != null ==> r.Valid() && n !in r.Repr
    requires ReprOf(l) !! ReprOf(r)
    modifies n
    ensures n.Valid() && n.key == old(n.key) && n.left == l && n.right == r
    ensures n.Repr == {n} + ReprOf(l) + ReprOf(r)
    ensures n.Model == KeyTrees.Node(n.key, ModelOf(l), ModelOf(r))
  {
    n.left, n.right := l, r;
    n.Repr := {n} + ReprOf(l) + ReprOf(r);
    n.Model := KeyTrees.Node(n.key, ModelOf(l), ModelOf(r));
  }

  /**
   * Plain insertion: a new node for an empty tree, otherwise the key goes
   * down the left or the right link and the returned subtree is stored
   * back in that link; an equal key changes nothing.  The root is kept.
   */
  method Insert(t: TreeNode?, v: int) returns (r: TreeNode)
    requires t != null ==> t.Valid()
    modifies ReprOf(t)
    ensures r.Valid()
    ensures r.Model == KeyTrees.BstInsert(old(ModelOf(t)), v)
    ensures t != null ==> r == t
    ensures fresh(r.Repr - old(ReprOf(t)))
    decreases ReprOf(t), 1
  {
    if t == null {
      r := new TreeNode(v);
      return;
    }
    if v < t.key {
      InsertLeft(t, v);
    } else if v > t.key {
      InsertRight(t, v);
    }
    r := t;
  }

  /** The left branch of a plain insertion: the key goes down the left link and the subtree returned is stored back. */
  method InsertLeft(t: TreeNode, v: int)
    requires t.Valid()
    modifies t.Repr
    ensures t.Valid() && fresh(t.Repr - old(t.Repr))
    ensures t.Model == KeyTrees.Node(old(t.key), KeyTrees.BstInsert(old(ModelOf(t.left)), v), old(ModelOf(t.right)))
    decreases t.Repr, 0
  {
    var l := Insert(t.left, v);
    Relink(t, l, t.right);
  }

  /** The right branch of a plain insertion: the key goes down the right link and the subtree returned is stored back. */
  method InsertRight(t: TreeNode, v: int)
    requires t.Valid()
    modifies t.Repr
    ensures t.Valid() && fresh(t.Repr - old(t.Repr))
    ensures t.Model == KeyTrees.Node(old(t.key), old(ModelOf(t.left)), KeyTrees.BstInsert(old(ModelOf(t.right)), v))
    decreases t.Repr, 0
  {
    var rt := Insert(t.right, v);
    Relink(t, t.left, rt);
  }

  /** A rotation regroups the same nodes. */
  lemma RotatedFootprint(x: object, y: object, ra: set<object>, rb: set<object>, rc: set<object>)
    ensures {x} + ra + ({y} + rb + rc) == {y} + ({x} + ra + rb) + rc
    ensures {y} + ({x} + ra + rb) + rc == {x} + ra + ({y} + rb + rc)
  {
  }

  /** The left child x of y becomes the root: y takes x's right subtree and becomes x's right child. */
  method RotateRight(y: TreeNode) returns (x: TreeNode)
    requires y.Valid() && y.left != null
    modifies y, y.left
    ensures x == old(y.left)
    ensures x.Valid() && x.Repr == old(y.Repr)
    ensures x.Model == KeyTrees.RotateRight(old(y.Model))
  {
    x := y.left;
    Unfold(y);
    Unfold(x);
    ghost var ra, rb, rc := ReprOf(x.left), ReprOf(x.right), ReprOf(y.right);
    Relink(y, x.right, y.right);
    Relink(x, x.left, y);
    RotatedFootprint(x, y, ra, rb, rc);
  }

  /** The right child y of x becomes the root: x takes y's left subtree and becomes y's left child. */
  method RotateLeft(x: TreeNode) returns (y: TreeNode)
    requires x.Valid() && x.right != null
    modifies x, x.right
    ensures y == old(x.right)
    ensures y.Valid() && y.Repr == old(x.Repr)
    ensures y.Model == KeyTrees.RotateLeft(old(x.Model))
  {
    y := x.right;
    Unfold(x);
    Unfold(y);
    ghost var ra, rb, rc := ReprOf(x.left), ReprOf(y.left), ReprOf(y.right);
    Relink(x, x.left, y.left);
    Relink(y, x, y.right);
    RotatedFootprint(x, y, ra, rb, rc);
  }

  /** The left child of t is rotated left and stored back, then t is rotated right. */
  method RotateLeftRight(t: TreeNode) returns (r: TreeNode)
    requires t.Valid() && t.Model.left.Node? && t.Model.left.right.Node?
    modifies t.Repr
    ensures r.Valid() && r.Repr == old(t.Repr)
    ensures r.Model == KeyTrees.DoubleRight(old(t.Model))
  {
    Unfold(t);
    Unfold(t.left);
    ghost var m, repr := t.Model, t.Repr;
    var l := RotateLeft(t.left);
    Relink(t, l, t.right);
    assert t.Model == KeyTrees.Node(m.key, KeyTrees.RotateLeft(m.left), m.right) && t.Repr == repr;
    r := RotateRight(t);
  }

  /** The right child of t is rotated right and stored back, then t is rotated left. */
  method RotateRightLeft(t: TreeNode) returns (r: TreeNode)
    requires t.Valid() && t.Model.right.Node? && t.Model.right.left.Node?
    modifies t.Repr
    ensures r.Valid() && r.Repr == old(t.Repr)
    ensures r.Model == KeyTrees.DoubleLeft(old(t.Model))
  {
    Unfold(t);
    Unfold(t.right);
    ghost var m, repr := t.Model, t.Repr;
    var rt := RotateRight(t.right);
    Relink(t, t.left, rt);
    assert t.Model == KeyTrees.Node(m.key, m.left, KeyTrees.RotateRight(m.right)) && t.Repr == repr;
    r := RotateLeft(t);
  }

  /**
   * The rebalancing step after an insertion of v below t, four cases
   * tried in order on the balance factor and on v against the key of the
   * taller child.  A double rotation whose inner grandchild is missing
   * fails, and the result is null.
   */
  method Rebalance(t: TreeNode, v: int) returns (r: TreeNode?)
    requires t.Valid()
    modifies t.Repr
    ensures r == null <==> KeyTrees.Rebalance(old(t.Model), v).None?
    ensures r != null ==> r.Valid() && r.Repr == old(t.Repr)
    ensures r != null ==> r.Model == KeyTrees.Rebalance(old(t.Model), v).value
  {
    Unfold(t);
    var fb := Height(t.right) - Height(t.left);
    if fb < -1 && v < t.left.key {
      r := RotateRight(t);
    } else if fb > 1 && v > t.right.key {
      r := RotateLeft(t);
    } else if fb < -1 && v > t.left.key {
      Unfold(t.left);
      if t.left.right == null {
        return null;
      }
      r := RotateLeftRight(t);
    } else if fb > 1 && v < t.right.key {
      Unfold(t.right);
      if t.right.left == null {
        return null;
      }
      r := RotateRightLeft(t);
    } else {
      r := t;
    }
  }

  /**
   * AVL insertion: a new node for an empty tree; otherwise a smaller key
   * goes down the left link and any other key down the right one, the
   * returned subtree is stored back, and the node is rebalanced.  A
   * failed rotation anywhere below makes the whole insertion fail (null).
   */
  method InsertAvl(t: TreeNode?, v: int) returns (r: TreeNode?)
    requires t != null ==> t.Valid()
    modifies ReprOf(t)
    ensures r == null <==> KeyTrees.AvlInsert(old(ModelOf(t)), v).None?
    ensures r != null ==> r.Valid() && fresh(r.Repr - old(ReprOf(t)))
    ensures r != null ==> r.Model == KeyTrees.AvlInsert(old(ModelOf(t)), v).value
    decreases ReprOf(t), 1
  {
    if t == null {
      r := new TreeNode(v);
      return;
    }
    var ok;
    if v < t.key {
      ok := InsertAvlLeft(t, v);
    } else {
      ok := InsertAvlRight(t, v);
    }
    if !ok {
      return null;
    }
    r := Rebalance(t, v);
  }

  /** The left branch of an AVL insertion; false when the insertion below failed. */
  method InsertAvlLeft(t: TreeNode, v: int) returns (ok: bool)
    requires t.Valid()
    modifies t.Repr
    ensures ok <==> KeyTrees.AvlInsert(old(ModelOf(t.left)), v).Some?
    ensures ok ==> t.Valid() && fresh(t.Repr - old(t.Repr))
    ensures ok ==>
      t.Model == KeyTrees.Node(old(t.key), KeyTrees.AvlInsert(old(ModelOf(t.left)), v).value, old(ModelOf(t.right)))
    decreases t.Repr, 0
  {
    var l := InsertAvl(t.left, v);
    if l == null {
      return false;
    }
    Relink(t, l, t.right);
    ok := true;
  }

  /** The right branch of an AVL insertion; false when the insertion below failed. */
  method InsertAvlRight(t: TreeNode, v: int) returns (ok: bool)
    requires t.Valid()
    modifies t.Repr
    ensures ok <==> KeyTrees.AvlInsert(old(ModelOf(t.right)), v).Some?
    ensures ok ==> t.Valid() && fresh(t.Repr - old(t.Repr))
    ensures ok ==>
      t.Model == KeyTrees.Node(old(t.key), old(ModelOf(t.left)), KeyTrees.AvlInsert(old(ModelOf(t.right)), v).value)
    decreases t.Repr, 0
  {
    var rt := InsertAvl(t.right, v);
    if rt == null {
      return false;
    }
    Relink(t, t.left, rt);
    ok := true;
  }
}
