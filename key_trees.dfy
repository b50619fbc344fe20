/**
 * Binary search trees and AVL trees of integer keys, as values: the
 * plain insertion that ignores duplicates, the AVL insertion with its
 * single and double rotations, the height, and the search that counts
 * the nodes it visits.
 */
module KeyTrees {
  import opened Wrappers

  /** A key tree: empty, or a key with a left and a right subtree. */
  datatype Tree = Nil | Node(key: int, left: Tree, right: Tree)

  function Max(a: nat, b: nat): nat
  {
    if a >= b then a else b
  }

  /** The number of nodes on the longest path from the root; 0 for the empty tree. */
  function Height(t: Tree): nat
  {
    match t
    case Nil => 0
    case Node(_, l, r) => Max(Height(l), Height(r)) + 1
  }

  function Keys(t: Tree): set<int>
  {
    match t
    case Nil => {}
    case Node(k, l, r) => Keys(l) + {k} + Keys(r)
  }

  /** The keys in left-to-right order. */
  function Inorder(t: Tree): seq<int>
  {
    match t
    case Nil => []
    case Node(k, l, r) => Inorder(l) + [k] + Inorder(r)
  }

  /** Every key of a left subtree is below its node's key and every key of a right subtree above it. */
  ghost predicate Ordered(t: Tree)
  {
    t.Nil? ||
    ((forall x :: x in Keys(t.left) ==> x < t.key) &&
     (forall x :: x in Keys(t.right) ==> t.key < x) &&
     Ordered(t.left) && Ordered(t.right))
  }

  /** As Ordered, with equal keys allowed on either side. */
  ghost predicate LooselyOrdered(t: Tree)
  {
    t.Nil? ||
    ((forall x :: x in Keys(t.left) ==> x <= t.key) &&
     (forall x :: x in Keys(t.right) ==> t.key <= x) &&
     LooselyOrdered(t.left) && LooselyOrdered(t.right))
  }

  /** At every node the heights of the two subtrees differ by at most one. */
  ghost predicate Balanced(t: Tree)
  {
    t.Nil? ||
    (Height(t.left) <= Height(t.right) + 1 && Height(t.right) <= Height(t.left) + 1 &&
     Balanced(t.left) && Balanced(t.right))
  }

  lemma {:induction false} OrderedIsLoose(t: Tree)
    requires Ordered(t)
    ensures LooselyOrdered(t)
  {
    if t.Node? {
      OrderedIsLoose(t.left);
      OrderedIsLoose(t.right);
    }
  }

  lemma {:induction false} InorderKeys(t: Tree)
    ensures forall x :: x in Inorder(t) <==> x in Keys(t)
  {
    if t.Node? {
      InorderKeys(t.left);
      InorderKeys(t.right);
    }
  }

  // ---------------------------------------------------------------------
  // Plain insertion

  /** Inserts a key, going left when it is smaller and right when it is larger; an equal key changes nothing. */
  function BstInsert(t: Tree, v: int): (r: Tree)
    ensures Keys(r) == Keys(t) + {v}
    ensures t.Node? ==> r.Node? && r.key == t.key
  {
    match t
    case Nil => Node(v, Nil, Nil)
    case Node(k, l, rt) =>
      if v < k then Node(k, BstInsert(l, v), rt)
      else if v > k then Node(k, l, BstInsert(rt, v))
      else t
  }

  /** Insertion keeps a search tree ordered. */
  lemma {:induction false} BstInsertOrdered(t: Tree, v: int)
    requires Ordered(t)
    ensures Ordered(BstInsert(t, v))
  {
    if t.Node? {
      BstInsertOrdered(t.left, v);
      BstInsertOrdered(t.right, v);
    }
  }

  /** Inserting a key the ordered tree already holds gives the same tree. */
  lemma {:induction false} BstInsertExisting(t: Tree, v: int)
    requires Ordered(t) && v in Keys(t)
    ensures BstInsert(t, v) == t
  {
    if v < t.key {
      BstInsertExisting(t.left, v);
    } else if v > t.key {
      BstInsertExisting(t.right, v);
    }
  }

  // ---------------------------------------------------------------------
  // Search

  datatype Dir = L | R

  /** The subtree at the end of a path of left and right steps; None when the path leaves the tree. */
  function Subtree(t: Tree, path: seq<Dir>): Option<Tree>
  {
    if path == [] then Some(t)
    else if t.Nil? then None
    else Subtree(if path[0] == L then t.left else t.right, path[1..])
  }

  /**
   * Looks for a key, going left while it is smaller than the node's key
   * and right while it is larger; returns the subtree whose root holds
   * the key, or None after reaching an empty subtree, and the number of
   * subtrees visited.
   */
  function Search(t: Tree, v: int): (r: (Option<Tree>, nat))
    ensures r.0.Some? ==> r.0.value.Node? && r.0.value.key == v
    ensures 1 <= r.1 <= Height(t) + 1
  {
    match t
    case Nil => (None, 1)
    case Node(k, l, rt) =>
      if v < k then
        var (found, comp) := Search(l, v);
        (found, comp + 1)
      else if v > k then
        var (found, comp) := Search(rt, v);
        (found, comp + 1)
      else (Some(t), 1)
  }

  /** On an ordered tree (equal keys allowed), the search finds the key exactly when the tree holds it. */
  lemma {:induction false} SearchFinds(t: Tree, v: int)
    requires LooselyOrdered(t)
    ensures Search(t, v).0.Some? <==> v in Keys(t)
  {
    if t.Node? {
      SearchFinds(t.left, v);
      SearchFinds(t.right, v);
    }
  }

  /**
   * The count is one more than the length of the path walked: the path to
   * the subtree found, or to the empty subtree where the search stopped.
   * Each step of the path is the comparison made at a node on the way: a
   * node whose key differs from v, left exactly when v is smaller.
   */
  lemma {:induction false} SearchPath(t: Tree, v: int) returns (path: seq<Dir>)
    ensures |path| + 1 == Search(t, v).1
    ensures Subtree(t, path) == Some(if Search(t, v).0.Some? then Search(t, v).0.value else Nil)
    ensures forall k :: 0 <= k < |path| ==>
              Subtree(t, path[..k]).Some? && Subtree(t, path[..k]).value.Node? &&
              v != Subtree(t, path[..k]).value.key &&
              (path[k] == L <==> v < Subtree(t, path[..k]).value.key)
  {
    if t.Nil? || v == t.key {
      path := [];
    } else {
      var d := if v < t.key then L else R;
      var rest := SearchPath(if d == L then t.left else t.right, v);
      path := [d] + rest;
      assert path[1..] == rest;
      forall k | 0 < k < |path|
        ensures Subtree(t, path[..k]) == Subtree(if d == L then t.left else t.right, rest[..k - 1])
      {
        assert path[..k][1..] == rest[..k - 1];
      }
    }
  }

  // ---------------------------------------------------------------------
  // Rotations

  /** The left child becomes the root; its right subtree moves under the old root. */
  function RotateRight(t: Tree): (r: Tree)
    requires t.Node? && t.left.Node?
    ensures r.Node? && r.key == t.left.key
    ensures Inorder(r) == Inorder(t)
    ensures Keys(r) == Keys(t)
  {
    var x := t.left;
    assert Inorder(t) == Inorder(x.left) + [x.key] + (Inorder(x.right) + [t.key] + Inorder(t.right));
    Node(x.key, x.left, Node(t.key, x.right, t.right))
  }

  /** The right child becomes the root; its left subtree moves under the old root. */
  function RotateLeft(t: Tree): (r: Tree)
    requires t.Node? && t.right.Node?
    ensures r.Node? && r.key == t.right.key
    ensures Inorder(r) == Inorder(t)
    ensures Keys(r) == Keys(t)
  {
    var y := t.right;
    assert Inorder(t) == (Inorder(t.left) + [t.key] + Inorder(y.left)) + [y.key] + Inorder(y.right);
    Node(y.key, Node(t.key, t.left, y.left), y.right)
  }

  /** The left child is rotated left, then the tree is rotated right. */
  function DoubleRight(t: Tree): (r: Tree)
    requires t.Node? && t.left.Node? && t.left.right.Node?
    ensures r.Node? && r.key == t.left.right.key
    ensures Inorder(r) == Inorder(t) && Keys(r) == Keys(t)
  {
    RotateRight(Node(t.key, RotateLeft(t.left), t.right))
  }

  /** The right child is rotated right, then the tree is rotated left. */
  function DoubleLeft(t: Tree): (r: Tree)
    requires t.Node? && t.right.Node? && t.right.left.Node?
    ensures r.Node? && r.key == t.right.left.key
    ensures Inorder(r) == Inorder(t) && Keys(r) == Keys(t)
  {
    RotateLeft(Node(t.key, t.left, RotateRight(t.right)))
  }

  /** A rotation keeps a tree ordered. */
  lemma RotateRightOrdered(t: Tree)
    requires t.Node? && t.left.Node? && LooselyOrdered(t)
    ensures LooselyOrdered(RotateRight(t))
  {
    var x := t.left;
    var lower := Node(t.key, x.right, t.right);
    assert x.key in Keys(t.left);
    assert forall z :: z in Keys(x.right) ==> z in Keys(t.left);
    assert forall z :: z in Keys(lower) ==> x.key <= z;
    assert LooselyOrdered(lower);
  }

  lemma RotateLeftOrdered(t: Tree)
    requires t.Node? && t.right.Node? && LooselyOrdered(t)
    ensures LooselyOrdered(RotateLeft(t))
  {
    var y := t.right;
    var lower := Node(t.key, t.left, y.left);
    assert y.key in Keys(t.right);
    assert forall z :: z in Keys(y.left) ==> z in Keys(t.right);
    assert forall z :: z in Keys(lower) ==> z <= y.key;
    assert LooselyOrdered(lower);
  }

  // ---------------------------------------------------------------------
  // AVL insertion

  /**
   * The rebalancing step after an insertion of v below t, driven by the
   * balance factor (right height minus left height) and by comparing v
   * with the key of the taller child.  The double rotations first rotate
   * that child, which needs a grandchild on the inner side: without one
   * the rotation fails, and the result is None.  When no case applies,
   * the tree is left as it is, however unbalanced.
   */
  function Rebalance(t: Tree, v: int): (r: Option<Tree>)
    requires t.Node?
    ensures r.Some? ==> Keys(r.value) == Keys(t) && Inorder(r.value) == Inorder(t)
  {
    var fb := Height(t.right) - Height(t.left);
    if fb < -1 && v < t.left.key then Some(RotateRight(t))
    else if fb > 1 && v > t.right.key then Some(RotateLeft(t))
    else if fb < -1 && v > t.left.key then
      if t.left.right.Nil? then None
      else Some(DoubleRight(t))
    else if fb > 1 && v < t.right.key then
      if t.right.left.Nil? then None
      else Some(DoubleLeft(t))
    else Some(t)
  }

  /**
   * AVL insertion: a smaller key goes left, any other key (an equal one
   * too) goes right, and every node on the way back is rebalanced.  None
   * when a rotation fails.
   */
  function AvlInsert(t: Tree, v: int): (r: Option<Tree>)
    ensures r.Some? ==> Keys(r.value) == Keys(t) + {v}
  {
    match t
    case Nil => Some(Node(v, Nil, Nil))
    case Node(k, l, rt) =>
      if v < k then
        match AvlInsert(l, v)
        case None => None
        case Some(l2) => Rebalance(Node(k, l2, rt), v)
      else
        match AvlInsert(rt, v)
        case None => None
        case Some(r2) => Rebalance(Node(k, l, r2), v)
  }

  /** The key sequence with v placed before the first larger key. */
  function InsertSorted(s: seq<int>, v: int): seq<int>
  {
    if s == [] then [v]
    else if v < s[0] then [v] + s
    else [s[0]] + InsertSorted(s[1..], v)
  }

  /** InsertSorted adds exactly one v and keeps every other element. */
  lemma {:induction false} InsertSortedMultiset(s: seq<int>, v: int)
    ensures multiset(InsertSorted(s, v)) == multiset(s) + multiset{v}
  {
    if s != [] && v >= s[0] {
      InsertSortedMultiset(s[1..], v);
      assert s == [s[0]] + s[1..];
    }
  }

  lemma {:induction false} InsertSortedBefore(a: seq<int>, c: seq<int>, v: int)
    requires c == [] || v < c[0]
    ensures InsertSorted(a + c, v) == InsertSorted(a, v) + c
  {
    if a == [] {
      assert a + c == c;
    } else {
      assert (a + c)[0] == a[0] && (a + c)[1..] == a[1..] + c;
      if v < a[0] {
        assert [v] + (a + c) == ([v] + a) + c;
      } else {
        InsertSortedBefore(a[1..], c, v);
        assert [a[0]] + (InsertSorted(a[1..], v) + c) == ([a[0]] + InsertSorted(a[1..], v)) + c;
      }
    }
  }

  lemma {:induction false} InsertSortedAfter(a: seq<int>, c: seq<int>, v: int)
    requires forall x :: x in a ==> x <= v
    ensures InsertSorted(a + c, v) == a + InsertSorted(c, v)
  {
    if a == [] {
      assert a + c == c;
    } else {
      assert (a + c)[0] == a[0] && (a + c)[1..] == a[1..] + c;
      assert a[0] in a;
      assert forall x :: x in a[1..] ==> x in a;
      InsertSortedAfter(a[1..], c, v);
    }
  }

  /** A rebalancing step that succeeds keeps the tree ordered. */
  lemma RebalanceOrdered(t: Tree, v: int)
    requires t.Node? && LooselyOrdered(t) && Rebalance(t, v).Some?
    ensures LooselyOrdered(Rebalance(t, v).value)
  {
    var fb := Height(t.right) - Height(t.left);
    if fb < -1 && v < t.left.key {
      RotateRightOrdered(t);
    } else if fb > 1 && v > t.right.key {
      RotateLeftOrdered(t);
    } else if fb < -1 && v > t.left.key {
      RotateLeftOrdered(t.left);
      RotateRightOrdered(Node(t.key, RotateLeft(t.left), t.right));
    } else if fb > 1 && v < t.right.key {
      RotateRightOrdered(t.right);
      RotateLeftOrdered(Node(t.key, t.left, RotateRight(t.right)));
    }
  }

  /**
   * An AVL insertion that succeeds keeps the tree ordered (equal keys
   * allowed) and inserts v into the key sequence after the keys not
   * larger than it.
   */
  lemma {:induction false} AvlInsertOrdered(t: Tree, v: int)
    requires LooselyOrdered(t) && AvlInsert(t, v).Some?
    ensures LooselyOrdered(AvlInsert(t, v).value)
    ensures Inorder(AvlInsert(t, v).value) == InsertSorted(Inorder(t), v)
  {
    if t.Node? {
      if v < t.key {
        var l2 := AvlInsert(t.left, v).value;
        AvlInsertOrdered(t.left, v);
        InsertedLeftOrdered(t.key, t.left, l2, t.right, v);
        RebalanceOrdered(Node(t.key, l2, t.right), v);
      } else {
        var r2 := AvlInsert(t.right, v).value;
        AvlInsertOrdered(t.right, v);
        InsertedRightOrdered(t.key, t.left, t.right, r2, v);
        RebalanceOrdered(Node(t.key, t.left, r2), v);
      }
    }
  }

  /** The node over a left subtree that received v, before rebalancing. */
  lemma InsertedLeftOrdered(k: int, l: Tree, l2: Tree, r: Tree, v: int)
    requires LooselyOrdered(Node(k, l, r)) && v < k
    requires LooselyOrdered(l2) && Keys(l2) == Keys(l) + {v}
    requires Inorder(l2) == InsertSorted(Inorder(l), v)
    ensures LooselyOrdered(Node(k, l2, r))
    ensures Inorder(Node(k, l2, r)) == InsertSorted(Inorder(Node(k, l, r)), v)
  {
    JoinOrdered(k, l2, r);
    InsertedLeftInorder(k, l, l2, r, v);
  }

  lemma InsertedLeftInorder(k: int, l: Tree, l2: Tree, r: Tree, v: int)
    requires v < k
    requires Inorder(l2) == InsertSorted(Inorder(l), v)
    ensures Inorder(Node(k, l2, r)) == InsertSorted(Inorder(Node(k, l, r)), v)
  {
    var a, c := Inorder(l), [k] + Inorder(r);
    assert c[0] == k;
    InsertSortedBefore(a, c, v);
    assert InsertSorted(a + c, v) == Inorder(l2) + c;
    assert Inorder(Node(k, l, r)) == a + c;
    assert Inorder(Node(k, l2, r)) == Inorder(l2) + c;
  }

  /** The node over a right subtree that received v, before rebalancing. */
  lemma InsertedRightOrdered(k: int, l: Tree, r: Tree, r2: Tree, v: int)
    requires LooselyOrdered(Node(k, l, r)) && v >= k
    requires LooselyOrdered(r2) && Keys(r2) == Keys(r) + {v}
    requires Inorder(r2) == InsertSorted(Inorder(r), v)
    ensures LooselyOrdered(Node(k, l, r2))
    ensures Inorder(Node(k, l, r2)) == InsertSorted(Inorder(Node(k, l, r)), v)
  {
    JoinOrdered(k, l, r2);
    InorderKeys(l);
    var a := Inorder(l) + [k];
    assert forall x :: x in a ==> x <= v;
    InsertSortedAfter(a, Inorder(r), v);
    assert Inorder(Node(k, l, r)) == a + Inorder(r);
    assert Inorder(Node(k, l, r2)) == a + Inorder(r2);
  }

  lemma JoinOrdered(k: int, l: Tree, r: Tree)
    requires forall x :: x in Keys(l) ==> x <= k
    requires forall x :: x in Keys(r) ==> k <= x
    requires LooselyOrdered(l) && LooselyOrdered(r)
    ensures LooselyOrdered(Node(k, l, r))
  {
  }

  // ---------------------------------------------------------------------
  // Balance

  /**
   * What an insertion of v that made t one level taller left at the top:
   * a new node of v where t was empty, or else the same root key, v
   * different from it, and the side v went to taller by exactly one.
   */
  ghost predicate GrewAt(t: Tree, t2: Tree, v: int)
  {
    t2.Node? &&
    if t.Nil? then t2 == Node(v, Nil, Nil)
    else
      t2.key == t.key && v != t.key &&
      (v < t.key ==> Height(t2.left) == Height(t2.right) + 1) &&
      (v > t.key ==> Height(t2.right) == Height(t2.left) + 1)
  }

  /** The outcome of an insertion into a balanced tree: balanced, at most one level taller, and GrewAt when taller. */
  ghost predicate BalancedOutcome(t: Tree, t2: Tree, v: int)
  {
    Balanced(t2) && Height(t) <= Height(t2) <= Height(t) + 1 &&
    (Height(t2) == Height(t) + 1 ==> GrewAt(t, t2, v))
  }

  lemma RotateRightBalanced(k: int, x: Tree, r: Tree)
    requires x.Node? && Balanced(x) && Balanced(r)
    requires Height(x) == Height(r) + 2 && Height(x.left) == Height(x.right) + 1
    ensures Balanced(RotateRight(Node(k, x, r)))
    ensures Height(RotateRight(Node(k, x, r))) == Height(r) + 2
  {
    var lower := Node(k, x.right, r);
    assert Height(x.left) == Height(r) + 1 && Height(x.right) == Height(r);
    assert Balanced(x.left) && Balanced(x.right);
    assert Height(lower) == Height(r) + 1 && Balanced(lower);
    assert RotateRight(Node(k, x, r)) == Node(x.key, x.left, lower);
  }

  lemma RotateLeftBalanced(k: int, l: Tree, y: Tree)
    requires y.Node? && Balanced(y) && Balanced(l)
    requires Height(y) == Height(l) + 2 && Height(y.right) == Height(y.left) + 1
    ensures Balanced(RotateLeft(Node(k, l, y)))
    ensures Height(RotateLeft(Node(k, l, y))) == Height(l) + 2
  {
    var lower := Node(k, l, y.left);
    assert Height(y.right) == Height(l) + 1 && Height(y.left) == Height(l);
    assert Balanced(y.left) && Balanced(y.right);
    assert Height(lower) == Height(l) + 1 && Balanced(lower);
    assert RotateLeft(Node(k, l, y)) == Node(y.key, lower, y.right);
  }

  lemma DoubleRightBalanced(k: int, x: Tree, r: Tree)
    requires x.Node? && Balanced(x) && Balanced(r)
    requires Height(x) == Height(r) + 2 && Height(x.right) == Height(x.left) + 1
    ensures x.right.Node?
    ensures Balanced(RotateRight(Node(k, RotateLeft(x), r)))
    ensures Height(RotateRight(Node(k, RotateLeft(x), r))) == Height(r) + 2
  {
    var hr := Height(r);
    var a, b := x.left, x.right;
    assert Height(a) == hr && Height(b) == hr + 1;
    var b1, b2 := b.left, b.right;
    assert Balanced(a) && Balanced(b1) && Balanced(b2);
    assert hr - 1 <= Height(b1) <= hr && hr - 1 <= Height(b2) <= hr;
    var p, q := Node(x.key, a, b1), Node(k, b2, r);
    assert Height(p) == hr + 1 && Balanced(p);
    assert Height(q) == hr + 1 && Balanced(q);
    assert RotateLeft(x) == Node(b.key, p, b2);
    assert RotateRight(Node(k, RotateLeft(x), r)) == Node(b.key, p, q);
  }

  lemma DoubleLeftBalanced(k: int, l: Tree, y: Tree)
    requires y.Node? && Balanced(y) && Balanced(l)
    requires Height(y) == Height(l) + 2 && Height(y.left) == Height(y.right) + 1
    ensures y.left.Node?
    ensures Balanced(RotateLeft(Node(k, l, RotateRight(y))))
    ensures Height(RotateLeft(Node(k, l, RotateRight(y)))) == Height(l) + 2
  {
    var hl := Height(l);
    var b, c := y.left, y.right;
    assert Height(c) == hl && Height(b) == hl + 1;
    var b1, b2 := b.left, b.right;
    assert Balanced(c) && Balanced(b1) && Balanced(b2);
    assert hl - 1 <= Height(b1) <= hl && hl - 1 <= Height(b2) <= hl;
    var p, q := Node(k, l, b1), Node(y.key, b2, c);
    assert Height(p) == hl + 1 && Balanced(p);
    assert Height(q) == hl + 1 && Balanced(q);
    assert RotateRight(y) == Node(b.key, b1, q);
    assert RotateLeft(Node(k, l, RotateRight(y))) == Node(b.key, p, q);
  }

  /** Rebalancing after v went into the left subtree of a balanced node. */
  lemma RebalanceAfterLeft(k: int, l: Tree, l2: Tree, r: Tree, v: int)
    requires Balanced(Node(k, l, r)) && v < k
    requires BalancedOutcome(l, l2, v)
    ensures Rebalance(Node(k, l2, r), v).Some?
    ensures BalancedOutcome(Node(k, l, r), Rebalance(Node(k, l2, r), v).value, v)
  {
    if Height(l2) == Height(r) + 2 {
      assert l.Node?;
      if v < l2.key {
        RotateRightBalanced(k, l2, r);
      } else {
        DoubleRightBalanced(k, l2, r);
      }
    }
  }

  /** Rebalancing after v went into the right subtree of a balanced node. */
  lemma RebalanceAfterRight(k: int, l: Tree, r: Tree, r2: Tree, v: int)
    requires Balanced(Node(k, l, r)) && v > k
    requires BalancedOutcome(r, r2, v)
    ensures Rebalance(Node(k, l, r2), v).Some?
    ensures BalancedOutcome(Node(k, l, r), Rebalance(Node(k, l, r2), v).value, v)
  {
    if Height(r2) == Height(l) + 2 {
      assert r.Node?;
      if v > r2.key {
        RotateLeftBalanced(k, l, r2);
      } else {
        DoubleLeftBalanced(k, l, r2);
      }
    }
  }

  /**
   * AVL insertion that leaves the tree unchanged on an equal key, as the
   * plain insertion does.
   */
  function AvlInsertUnique(t: Tree, v: int): (r: Option<Tree>)
    ensures r.Some? ==> Keys(r.value) == Keys(t) + {v}
  {
    match t
    case Nil => Some(Node(v, Nil, Nil))
    case Node(k, l, rt) =>
      if v == k then Some(t)
      else if v < k then
        match AvlInsertUnique(l, v)
        case None => None
        case Some(l2) => Rebalance(Node(k, l2, rt), v)
      else
        match AvlInsertUnique(rt, v)
        case None => None
        case Some(r2) => Rebalance(Node(k, l, r2), v)
  }

  /** Inserting into a balanced tree, duplicates ignored, never fails and keeps it balanced. */
  lemma {:induction false} AvlInsertUniqueBalanced(t: Tree, v: int)
    requires Balanced(t)
    ensures AvlInsertUnique(t, v).Some?
    ensures BalancedOutcome(t, AvlInsertUnique(t, v).value, v)
  {
    if t.Node? && v != t.key {
      if v < t.key {
        AvlInsertUniqueBalanced(t.left, v);
        RebalanceAfterLeft(t.key, t.left, AvlInsertUnique(t.left, v).value, t.right, v);
      } else {
        AvlInsertUniqueBalanced(t.right, v);
        RebalanceAfterRight(t.key, t.left, t.right, AvlInsertUnique(t.right, v).value, v);
      }
    }
  }

  /** For a key not yet in the tree, the two insertions agree. */
  lemma {:induction false} AvlInsertNewKey(t: Tree, v: int)
    requires v !in Keys(t)
    ensures AvlInsert(t, v) == AvlInsertUnique(t, v)
  {
    if t.Node? {
      AvlInsertNewKey(t.left, v);
      AvlInsertNewKey(t.right, v);
    }
  }

  /** Inserting a new key into a balanced tree never fails and keeps it balanced, at most one level taller. */
  lemma AvlInsertBalanced(t: Tree, v: int)
    requires Balanced(t) && v !in Keys(t)
    ensures AvlInsert(t, v).Some?
    ensures Balanced(AvlInsert(t, v).value)
    ensures Height(t) <= Height(AvlInsert(t, v).value) <= Height(t) + 1
  {
    AvlInsertNewKey(t, v);
    AvlInsertUniqueBalanced(t, v);
  }

  // ---------------------------------------------------------------------
  // Trees built by successive insertions

  /** The AVL insertion of the keys one after the other; None once an insertion fails. */
  function InsertAll(t: Tree, keys: seq<int>): Option<Tree>
    decreases |keys|
  {
    if keys == [] then Some(t)
    else
      match AvlInsert(t, keys[0])
      case None => None
      case Some(t2) => InsertAll(t2, keys[1..])
  }

  ghost predicate DistinctKeys(keys: seq<int>)
  {
    forall i, j :: 0 <= i < j < |keys| ==> keys[i] != keys[j]
  }

  /**
   * Inserting distinct new keys into a balanced ordered tree never fails
   * and gives a balanced ordered tree holding the old and the new keys.
   */
  lemma {:induction false} InsertAllDistinct(t: Tree, keys: seq<int>)
    requires Balanced(t) && LooselyOrdered(t)
    requires DistinctKeys(keys)
    requires forall i :: 0 <= i < |keys| ==> keys[i] !in Keys(t)
    ensures InsertAll(t, keys).Some?
    ensures Balanced(InsertAll(t, keys).value) && LooselyOrdered(InsertAll(t, keys).value)
    ensures Keys(InsertAll(t, keys).value) == Keys(t) + set x | x in keys
    decreases |keys|
  {
    if keys != [] {
      AvlInsertBalanced(t, keys[0]);
      AvlInsertOrdered(t, keys[0]);
      var t2 := AvlInsert(t, keys[0]).value;
      var rest := keys[1..];
      DistinctRest(keys, Keys(t));
      InsertAllDistinct(t2, rest);
      KeySetSplit(keys);
    }
  }

  lemma DistinctRest(keys: seq<int>, old_keys: set<int>)
    requires keys != [] && DistinctKeys(keys)
    requires forall i :: 0 <= i < |keys| ==> keys[i] !in old_keys
    ensures DistinctKeys(keys[1..])
    ensures forall i :: 0 <= i < |keys| - 1 ==> keys[1..][i] !in old_keys + {keys[0]}
  {
    forall i | 0 <= i < |keys| - 1 ensures keys[1..][i] !in old_keys + {keys[0]} {
      assert keys[1..][i] == keys[i + 1];
    }
  }

  lemma KeySetSplit(keys: seq<int>)
    requires keys != []
    ensures (set x | x in keys) == {keys[0]} + set x | x in keys[1..]
  {
    assert keys == [keys[0]] + keys[1..];
  }

  /** With duplicates, a key equal to the root can end up in its left subtree. */
  lemma DuplicateMovesLeft()
    ensures InsertAll(Nil, [5, 5, 6]) == Some(Node(5, Node(5, Nil, Nil), Node(6, Nil, Nil)))
    ensures !Ordered(Node(5, Node(5, Nil, Nil), Node(6, Nil, Nil)))
  {
    assert AvlInsert(Nil, 5) == Some(Node(5, Nil, Nil));
    assert AvlInsert(Node(5, Nil, Nil), 5) == Some(Node(5, Nil, Node(5, Nil, Nil)));
    assert AvlInsert(Node(5, Nil, Node(5, Nil, Nil)), 6) == Some(Node(5, Node(5, Nil, Nil), Node(6, Nil, Nil)));
    assert 5 in Keys(Node(5, Nil, Nil));
  }

  /** Three equal keys make a chain that no rotation case matches. */
  lemma DuplicatesUnbalance()
    ensures InsertAll(Nil, [5, 5, 5]) == Some(Node(5, Nil, Node(5, Nil, Node(5, Nil, Nil))))
    ensures !Balanced(Node(5, Nil, Node(5, Nil, Node(5, Nil, Nil))))
  {
    var c1 := Node(5, Nil, Nil);
    var c2 := Node(5, Nil, c1);
    assert AvlInsert(Nil, 5) == Some(c1);
    assert AvlInsert(c1, 5) == Some(c2);
    assert AvlInsert(c2, 5) == Some(Node(5, Nil, c2));
  }

  /**
   * After four equal keys, a smaller key makes the double rotation on the
   * right side rotate a node that has no left child: the insertion fails.
   */
  lemma DuplicatesFail()
    ensures InsertAll(Nil, [5, 5, 5, 5, 3]) == None
  {
    var c1 := Node(5, Nil, Nil);
    var c2 := Node(5, Nil, c1);
    var c3 := Node(5, Nil, c2);
    var c4 := Node(5, Nil, c3);
    assert AvlInsert(Nil, 5) == Some(c1);
    assert AvlInsert(c1, 5) == Some(c2);
    assert AvlInsert(c2, 5) == Some(c3);
    assert AvlInsert(c3, 5) == Some(c4);
    assert AvlInsert(c4, 3) == None;
    assert InsertAll(Nil, [5, 5, 5, 5, 3]) == InsertAll(c4, [3]);
  }
}
