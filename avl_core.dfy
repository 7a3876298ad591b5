/**
 * The value model of an AVL node and of the per-node operations of AVLTree.java:
 * getHeight, getBalance, updateHeight, rotateLeft, rotateRight and rebalance.
 *
 * A node keeps the height it was last given (its STORED height); the number of
 * rebalancing actions that insert and delete report depends on whether updateHeight
 * changes that stored value, so the model keeps it too instead of recomputing it.
 */
module AvlCore {

  datatype Option<T> = None | Some(value: T)

  /** Leaf is the shared external leaf (key -1, height -1); a Node is a real node. */
  datatype Tree<V> = Leaf | Node(left: Tree<V>, key: int, info: V, height: int, right: Tree<V>)

  function Max(a: int, b: int): int { if a < b then b else a }

  /** 1 when updateHeight reported a change, 0 otherwise. */
  function Count(changed: bool): int { if changed then 1 else 0 }

  /** getHeight: the stored height, -1 on the external leaf. */
  function H<V>(t: Tree<V>): int { if t.Leaf? then -1 else t.height }

  /** getBalance: left height minus right height, 0 on the external leaf. */
  function Balance<V>(t: Tree<V>): int
  {
    if t.Leaf? then 0 else H(t.left) - H(t.right)
  }

  /** The (key, info) pairs of a tree in symmetric order (inOrderTraversal). */
  function InOrder<V>(t: Tree<V>): seq<(int, V)>
  {
    match t
    case Leaf => []
    case Node(l, k, v, _, r) => InOrder(l) + [(k, v)] + InOrder(r)
  }

  function Keys<V>(s: seq<(int, V)>): seq<int>
  {
    if s == [] then [] else [s[0].0] + Keys(s[1..])
  }

  function Infos<V>(s: seq<(int, V)>): seq<V>
  {
    if s == [] then [] else [s[0].1] + Infos(s[1..])
  }

  /** The keys held by a tree. */
  ghost function KeySet<V>(t: Tree<V>): set<int>
  {
    set e | e in InOrder(t) :: e.0
  }

  function Size<V>(t: Tree<V>): nat { |InOrder(t)| }

  ghost predicate Sorted<V>(s: seq<(int, V)>)
  {
    forall i, j :: 0 <= i < j < |s| ==> s[i].0 < s[j].0
  }

  /** Binary-search-tree order: the symmetric order is strictly increasing in the keys. */
  ghost predicate Bst<V>(t: Tree<V>) { Sorted(InOrder(t)) }

  /** Every stored height is 1 + the larger child height, and every balance is in [-1, 1]. */
  ghost predicate Avl<V>(t: Tree<V>)
  {
    match t
    case Leaf => true
    case Node(l, _, _, h, r) =>
      Avl(l) && Avl(r) && h == 1 + Max(H(l), H(r)) && -1 <= H(l) - H(r) <= 1
  }

  /** The invariant of a tree between two public operations. */
  ghost predicate Valid<V>(t: Tree<V>) { Bst(t) && Avl(t) }

  /** Every real node has a non-negative stored height: enough for rebalance to find the
      children it rotates. */
  ghost predicate Sane<V>(t: Tree<V>)
  {
    match t
    case Leaf => true
    case Node(l, _, _, h, r) => h >= 0 && Sane(l) && Sane(r)
  }

  lemma SaneHeights<V>(t: Tree<V>)
    requires Sane(t)
    ensures H(t) >= -1
    ensures t.Node? ==> H(t.left) >= -1 && H(t.right) >= -1
  {
  }

  lemma {:induction false} AvlSane<V>(t: Tree<V>)
    requires Avl(t)
    ensures Sane(t) && H(t) >= -1
  {
    match t
    case Leaf =>
    case Node(l, _, _, _, r) =>
      AvlSane(l);
      AvlSane(r);
  }

  /** updateHeight: recompute the stored height from the children's; report whether it changed. */
  function UpdateHeight<V>(t: Tree<V>): (r: (Tree<V>, bool))
    requires t.Node?
    ensures r.0.Node? && r.0.left == t.left && r.0.right == t.right
    ensures r.0.key == t.key && r.0.info == t.info
    ensures r.0.height == 1 + Max(H(t.left), H(t.right))
    ensures r.1 <==> t.height != r.0.height
  {
    var h := 1 + Max(H(t.left), H(t.right));
    (t.(height := h), t.height != h)
  }

  /** A second updateHeight right after the first reports no change, and on a node whose
      height is already right the first one changes nothing. */
  lemma UpdateHeightIdempotent<V>(t: Tree<V>)
    requires t.Node?
    ensures UpdateHeight(UpdateHeight(t).0) == (UpdateHeight(t).0, false)
    ensures Avl(t) ==> UpdateHeight(t) == (t, false)
  {
  }

  /** rotateRight: the left child becomes the subtree root, its right subtree z moves under
      the old root, and the old root's height is recomputed before the new root's. */
  function RotateRight<V>(t: Tree<V>): (r: Tree<V>)
    requires t.Node? && t.left.Node?
    ensures InOrder(r) == InOrder(t)
    ensures r.Node? && r.right.Node?
    ensures r.key == t.left.key && r.right.key == t.key
    ensures r.left == t.left.left && r.right.left == t.left.right && r.right.right == t.right
    ensures r.right.height == 1 + Max(H(t.left.right), H(t.right))
    ensures r.height == 1 + Max(H(t.left.left), H(r.right))
  {
    var Node(Node(a, nk, nv, nh, z), k, v, h, c) := t;
    var oldRoot := UpdateHeight(Node(z, k, v, h, c)).0;
    UpdateHeight(Node(a, nk, nv, nh, oldRoot)).0
  }

  /** rotateLeft: the mirror image of rotateRight. */
  function RotateLeft<V>(t: Tree<V>): (r: Tree<V>)
    requires t.Node? && t.right.Node?
    ensures InOrder(r) == InOrder(t)
    ensures r.Node? && r.left.Node?
    ensures r.key == t.right.key && r.left.key == t.key
    ensures r.right == t.right.right && r.left.right == t.right.left && r.left.left == t.left
    ensures r.left.height == 1 + Max(H(t.left), H(t.right.left))
    ensures r.height == 1 + Max(H(r.left), H(t.right.right))
  {
    var Node(a, k, v, h, Node(z, nk, nv, nh, c)) := t;
    var oldRoot := UpdateHeight(Node(a, k, v, h, z)).0;
    UpdateHeight(Node(oldRoot, nk, nv, nh, c)).0
  }

  lemma RotationsSane<V>(t: Tree<V>)
    requires t.Node? && Sane(t.left) && Sane(t.right)
    ensures t.left.Node? ==> Sane(RotateRight(t))
    ensures t.right.Node? ==> Sane(RotateLeft(t))
  {
    SaneHeights(t.left);
    SaneHeights(t.right);
  }

  /** Rotating right and then left restores the subtree when the two heights involved
      were already right. */
  lemma RotateRightThenLeft<V>(t: Tree<V>)
    requires t.Node? && t.left.Node?
    requires t.height == 1 + Max(H(t.left), H(t.right))
    requires t.left.height == 1 + Max(H(t.left.left), H(t.left.right))
    ensures RotateLeft(RotateRight(t)) == t
  {
  }

  lemma RotateLeftThenRight<V>(t: Tree<V>)
    requires t.Node? && t.right.Node?
    requires t.height == 1 + Max(H(t.left), H(t.right))
    requires t.right.height == 1 + Max(H(t.right.left), H(t.right.right))
    ensures RotateRight(RotateLeft(t)) == t
  {
  }

  /** rebalance: no change and 0 when the balance is in [-1, 1]; otherwise a single
      rotation (reported as 2) or a double rotation (reported as 5). */
  function Rebalance<V>(t: Tree<V>): (r: (Tree<V>, int))
    requires t.Node? && Sane(t.left) && Sane(t.right)
    ensures InOrder(r.0) == InOrder(t) && r.0.Node?
    ensures -1 <= Balance(t) <= 1 ==> r == (t, 0)
    ensures Balance(t) > 1 ==> r.1 == (if Balance(t.left) < 0 then 5 else 2) && r.0.right.Node? && r.0.right.key == t.key
    ensures Balance(t) < -1 ==> r.1 == (if Balance(t.right) > 0 then 5 else 2) && r.0.left.Node? && r.0.left.key == t.key
    ensures Sane(r.0.left) && Sane(r.0.right)
  {
    var b := Balance(t);
    SaneHeights(t.left);
    SaneHeights(t.right);
    if b > 1 then
      if Balance(t.left) < 0 then
        RotationsSane(t.left);
        (RotateRight(t.(left := RotateLeft(t.left))), 5)
      else
        (RotateRight(t), 2)
    else if b < -1 then
      if Balance(t.right) > 0 then
        RotationsSane(t.right);
        (RotateLeft(t.(right := RotateRight(t.right))), 5)
      else
        (RotateLeft(t), 2)
    else
      (t, 0)
  }

  /**
   * One pass of the body of the upward loop of insert and delete at p, the root of t:
   * rebalance(p), then updateHeight(p). When rebalance rotated, p is no longer the root
   * of the subtree but the child the rotation put it in; the third component says so.
   */
  function Visit<V>(t: Tree<V>): (r: (Tree<V>, int, bool))
    requires t.Node? && Sane(t.left) && Sane(t.right)
    ensures InOrder(r.0) == InOrder(t) && r.0.Node? && Sane(r.0)
    ensures r.1 >= 0
    ensures !r.2 ==> r.0 == UpdateHeight(t).0
  {
    var (t1, c) := Rebalance(t);
    if c == 0 then
      var (t2, changed) := UpdateHeight(t1);
      (t2, Count(changed), false)
    else if Balance(t) > 1 then
      var (o, changed) := UpdateHeight(t1.right);
      (t1.(right := o), c + Count(changed), true)
    else
      var (o, changed) := UpdateHeight(t1.left);
      (t1.(left := o), c + Count(changed), true)
  }

  /** On a node that is already balanced with a correct height the loop body does nothing. */
  lemma VisitValid<V>(t: Tree<V>)
    requires t.Node? && Avl(t)
    ensures Sane(t.left) && Sane(t.right)
    ensures Visit(t) == (t, 0, false)
  {
    AvlSane(t);
  }

  lemma {:induction false} SingleRightAvl<V>(t: Tree<V>)
    requires t.Node? && Avl(t.left) && Avl(t.right)
    requires Balance(t) == 2 && t.left.Node? && Balance(t.left) >= 0
    ensures Avl(RotateRight(t))
    ensures H(t.left) <= H(RotateRight(t)) <= H(t.left) + 1
  {
    var r := RotateRight(t);
    AvlSane(t.left.right);
    AvlSane(t.right);
    assert Avl(r.right);
  }

  lemma {:induction false} SingleLeftAvl<V>(t: Tree<V>)
    requires t.Node? && Avl(t.left) && Avl(t.right)
    requires Balance(t) == -2 && t.right.Node? && Balance(t.right) <= 0
    ensures Avl(RotateLeft(t))
    ensures H(t.right) <= H(RotateLeft(t)) <= H(t.right) + 1
  {
    var r := RotateLeft(t);
    AvlSane(t.right.left);
    AvlSane(t.left);
    assert Avl(r.left);
  }

  lemma {:induction false} DoubleRightAvl<V>(t: Tree<V>)
    requires t.Node? && Avl(t.left) && Avl(t.right)
    requires Balance(t) == 2 && t.left.Node? && t.left.right.Node? && Balance(t.left) < 0
    ensures Avl(RotateRight(t.(left := RotateLeft(t.left))))
    ensures H(RotateRight(t.(left := RotateLeft(t.left)))) == H(t.left)
  {
    var l := t.left;
    var g := l.right;
    AvlSane(l.left);
    AvlSane(g.left);
    AvlSane(g.right);
    AvlSane(t.right);
    var l1 := RotateLeft(l);
    assert Avl(l1.left);
    var r := RotateRight(t.(left := l1));
    assert Avl(r.left);
    assert Avl(r.right);
  }

  lemma {:induction false} DoubleLeftAvl<V>(t: Tree<V>)
    requires t.Node? && Avl(t.left) && Avl(t.right)
    requires Balance(t) == -2 && t.right.Node? && t.right.left.Node? && Balance(t.right) > 0
    ensures Avl(RotateLeft(t.(right := RotateRight(t.right))))
    ensures H(RotateLeft(t.(right := RotateRight(t.right)))) == H(t.right)
  {
    var r0 := t.right;
    var g := r0.left;
    AvlSane(r0.right);
    AvlSane(g.left);
    AvlSane(g.right);
    AvlSane(t.left);
    var r1 := RotateRight(r0);
    assert Avl(r1.right);
    var r := RotateLeft(t.(right := r1));
    assert Avl(r.left);
    assert Avl(r.right);
  }

  /**
   * The rebalancing step restores the AVL invariant at a node whose children are AVL trees
   * and whose balance is at most 2 away from 0, and leaves it at most one level lower than
   * 1 + its taller child.
   */
  lemma {:induction false} VisitRestores<V>(t: Tree<V>)
    requires t.Node? && Avl(t.left) && Avl(t.right) && -2 <= Balance(t) <= 2
    ensures Sane(t.left) && Sane(t.right)
    ensures Avl(Visit(t).0)
    ensures Max(H(t.left), H(t.right)) <= H(Visit(t).0) <= 1 + Max(H(t.left), H(t.right))
    ensures -1 <= Balance(t) <= 1 ==> H(Visit(t).0) == 1 + Max(H(t.left), H(t.right))
  {
    AvlSane(t.left);
    AvlSane(t.right);
    var b := Balance(t);
    if b == 2 {
      AvlSane(t.left.right);
      if Balance(t.left) < 0 {
        DoubleRightAvl(t);
      } else {
        SingleRightAvl(t);
      }
    } else if b == -2 {
      AvlSane(t.right.left);
      if Balance(t.right) > 0 {
        DoubleLeftAvl(t);
      } else {
        SingleLeftAvl(t);
      }
    }
  }
}
