/**
 * The scenarios of AVLTreeTest.java stated on the value model, for every info function where
 * the test builds infos from keys.
 */
module AvlScenarios {
  import opened AvlCore
  import opened AvlWalk
  import opened AvlOrder
  import opened AvlOps
  import opened AvlUpdate
  import opened AvlNodes
  import opened AvlTrees

  lemma InsertFirst()
    ensures Insert<string>(Leaf, 43, "43") == (Node(Leaf, 43, "43", 0, Leaf), 0)
  {
    var n := Node(Leaf, 43, "43", 0, Leaf);
    assert Locate<string>(Leaf, 43, []) == (Leaf, []);
    assert Visit(n) == (n, 0, false);
    assert Walk(n, [], false) == (n, 0);
    assert Hang(n, []) == (n, 0);
  }

  lemma InsertSecond()
    ensures Insert(Node(Leaf, 43, "43", 0, Leaf), 18, "18") ==
      (Node(Node(Leaf, 18, "18", 0, Leaf), 43, "43", 1, Leaf), 1)
  {
    var t := Node(Leaf, 43, "43", 0, Leaf);
    var n := Node(Leaf, 18, "18", 0, Leaf);
    var path := [LeftOf(43, "43", 0, Leaf)];
    assert [LeftOf(43, "43", 0, Leaf)] + [] == path;
    assert Locate(t, 18, []) == (Leaf, path);
    var path1 := Reheight(path, 1);
    assert path1 == [LeftOf(43, "43", 1, Leaf)];
    assert Visit(n) == (n, 0, false);
    var up := Node(n, 43, "43", 1, Leaf);
    assert Visit(up) == (up, 0, false);
    assert Walk(up, [], false) == (up, 0);
    assert Walk(n, path1, false) == (up, 0);
    assert Hang(n, path) == (up, 1);
  }

  lemma InsertThird()
    ensures Insert(Node(Node(Leaf, 18, "18", 0, Leaf), 43, "43", 1, Leaf), 22, "22") ==
      (Node(Node(Leaf, 18, "18", 0, Leaf), 22, "22", 1, Node(Leaf, 43, "43", 0, Leaf)), 6)
  {
    ThirdPath();
    ThirdWalk();
  }

  /** 22 goes right of 18, below 43. */
  lemma ThirdPath()
    ensures Locate(Node(Node(Leaf, 18, "18", 0, Leaf), 43, "43", 1, Leaf), 22, []) ==
      (Leaf, [RightOf(Leaf, 18, "18", 0), LeftOf(43, "43", 1, Leaf)])
  {
    var path := [RightOf(Leaf, 18, "18", 0), LeftOf(43, "43", 1, Leaf)];
    assert [LeftOf(43, "43", 1, Leaf)] + [] == [LeftOf(43, "43", 1, Leaf)];
    assert [RightOf(Leaf, 18, "18", 0)] + [LeftOf(43, "43", 1, Leaf)] == path;
  }

  /** From the new leaf 22, 18 grows and 43 is rotated twice, which puts 22 at the root. */
  lemma ThirdWalk()
    ensures Hang(Node(Leaf, 22, "22", 0, Leaf), [RightOf(Leaf, 18, "18", 0), LeftOf(43, "43", 1, Leaf)]) ==
      (Node(Node(Leaf, 18, "18", 0, Leaf), 22, "22", 1, Node(Leaf, 43, "43", 0, Leaf)), 6)
  {
    var path := [RightOf(Leaf, 18, "18", 0), LeftOf(43, "43", 1, Leaf)];
    assert Reheight(path, 1) == [RightOf(Leaf, 18, "18", 1), LeftOf(43, "43", 1, Leaf)];
    ThirdUp();
  }

  /** The walk from 22 with 18 already one high: nothing to do at 22 and 18, two rotations at 43. */
  lemma ThirdUp()
    ensures Walk(Node(Leaf, 22, "22", 0, Leaf), [RightOf(Leaf, 18, "18", 1), LeftOf(43, "43", 1, Leaf)], false) ==
      (Node(Node(Leaf, 18, "18", 0, Leaf), 22, "22", 1, Node(Leaf, 43, "43", 0, Leaf)), 5)
  {
    var n := Node(Leaf, 22, "22", 0, Leaf);
    assert Visit(n) == (n, 0, false);
    ThirdAt18();
  }

  /** The walk from 18, one high with 22 on its right, below 43. */
  lemma ThirdAt18()
    ensures Walk(Node(Leaf, 18, "18", 1, Node(Leaf, 22, "22", 0, Leaf)), [LeftOf(43, "43", 1, Leaf)], false) ==
      (Node(Node(Leaf, 18, "18", 0, Leaf), 22, "22", 1, Node(Leaf, 43, "43", 0, Leaf)), 5)
  {
    var b := Node(Leaf, 18, "18", 1, Node(Leaf, 22, "22", 0, Leaf));
    assert Visit(b) == (b, 0, false);
    ThirdTop();
  }

  /** The walk at 43: the double rotation, then a second visit of the new top that changes nothing. */
  lemma ThirdTop()
    ensures Walk(Node(Node(Leaf, 18, "18", 1, Node(Leaf, 22, "22", 0, Leaf)), 43, "43", 1, Leaf), [], false) ==
      (Node(Node(Leaf, 18, "18", 0, Leaf), 22, "22", 1, Node(Leaf, 43, "43", 0, Leaf)), 5)
  {
    var r := Node(Node(Leaf, 18, "18", 0, Leaf), 22, "22", 1, Node(Leaf, 43, "43", 0, Leaf));
    ThirdRotation();
    assert Visit(r) == (r, 0, false);
    assert Walk(r, [], true) == (r, 0);
  }

  /** 43 with 18 and 22 below it on the left is rotated left at 18 and then right at 43. */
  lemma ThirdRotation()
    ensures Visit(Node(Node(Leaf, 18, "18", 1, Node(Leaf, 22, "22", 0, Leaf)), 43, "43", 1, Leaf)) ==
      (Node(Node(Leaf, 18, "18", 0, Leaf), 22, "22", 1, Node(Leaf, 43, "43", 0, Leaf)), 5, true)
  {
  }

  /** Inserting 43, 18 and 22 into an empty tree (AVLTreeTest.java:46-50): no height change,
      then one, then one and a double rotation; 22 ends at the root. */
  lemma InsertThree()
    ensures var (t1, c1) := Insert<string>(Leaf, 43, "43");
      var (t2, c2) := Insert(t1, 18, "18");
      var (t3, c3) := Insert(t2, 22, "22");
      c1 == 0 && c2 == 1 && c3 == 6 && Size(t3) == 3 && t3.Node? && t3.key == 22 &&
      Keys(InOrder(t3)) == [18, 22, 43] && Valid(t3)
  {
    InsertFirst();
    InsertSecond();
    InsertThird();
    ThreeNodes();
  }

  /** The tree the three inserts build is a valid AVL tree holding 18, 22 and 43 in order. */
  lemma ThreeNodes()
    ensures var r := Node(Node(Leaf, 18, "18", 0, Leaf), 22, "22", 1, Node(Leaf, 43, "43", 0, Leaf));
      Size(r) == 3 && Keys(InOrder(r)) == [18, 22, 43] && Valid(r)
  {
    var a := Node(Leaf, 18, "18", 0, Leaf);
    var c := Node(Leaf, 43, "43", 0, Leaf);
    assert InOrder(a) == [(18, "18")];
    assert InOrder(c) == [(43, "43")];
  }

  /** The links of the rotate test (AVLTreeTest.java:57-70): ten new nodes, node i with
      children 2i+1 and 2i+2 where those exist (the external leaf otherwise) and parent
      (i-1)/2, node 0 the root. Their keys 0..9 do not make a search tree. */
  ghost function HeapLinks<V>(a: seq<AvlNode<V>>, ext: AvlNode<V>): LinkMap<V>
    requires |a| == 10
  {
    map[a[0] := Links(a[1], a[2], null), a[1] := Links(a[3], a[4], a[0]),
        a[2] := Links(a[5], a[6], a[0]), a[3] := Links(a[7], a[8], a[1]),
        a[4] := Links(a[9], ext, a[1]), a[5] := Links(ext, ext, a[2]),
        a[6] := Links(ext, ext, a[2]), a[7] := Links(ext, ext, a[3]),
        a[8] := Links(ext, ext, a[3]), a[9] := Links(ext, ext, a[4])]
  }

  ghost function HeapShape<V>(a: seq<AvlNode<V>>): Shape<V>
    requires |a| == 10
  {
    Real(Real(Real(Real(Ext, a[7], Ext), a[3], Real(Ext, a[8], Ext)), a[1], Real(Real(Ext, a[9], Ext), a[4], Ext)),
         a[0],
         Real(Real(Ext, a[5], Ext), a[2], Real(Ext, a[6], Ext)))
  }

  /** What the links of the rotate test record for each node. */
  lemma HeapLinksAt<V>(a: seq<AvlNode<V>>, ext: AvlNode<V>)
    requires |a| == 10 && ext !in a && forall i, j :: 0 <= i < j < 10 ==> a[i] != a[j]
    ensures var lk := HeapLinks(a, ext);
      && ext !in lk && lk.Keys == {a[0], a[1], a[2], a[3], a[4], a[5], a[6], a[7], a[8], a[9]}
      && lk[a[0]] == Links(a[1], a[2], null) && lk[a[1]] == Links(a[3], a[4], a[0])
      && lk[a[2]] == Links(a[5], a[6], a[0]) && lk[a[3]] == Links(a[7], a[8], a[1])
      && lk[a[4]] == Links(a[9], ext, a[1]) && lk[a[5]] == Links(ext, ext, a[2])
      && lk[a[6]] == Links(ext, ext, a[2]) && lk[a[7]] == Links(ext, ext, a[3])
      && lk[a[8]] == Links(ext, ext, a[3]) && lk[a[9]] == Links(ext, ext, a[4])
  {
    assert forall i :: 0 <= i < 10 ==> a[i] != ext;
  }

  /** The left subtree of the rotate test's root, rooted at node 1. */
  lemma HeapLeftLinked<V>(a: seq<AvlNode<V>>, ext: AvlNode<V>)
    requires |a| == 10 && ext !in a && forall i, j :: 0 <= i < j < 10 ==> a[i] != a[j]
    ensures Linked(HeapShape(a).left, a[0], ext, HeapLinks(a, ext))
  {
    var lk := HeapLinks(a, ext);
    HeapLinksAt(a, ext);
    var l3 := Real(Real(Ext, a[7], Ext), a[3], Real(Ext, a[8], Ext));
    var l4 := Real(Real(Ext, a[9], Ext), a[4], Ext);
    assert Linked(Real(Ext, a[7], Ext), a[3], ext, lk) && Linked(Real(Ext, a[8], Ext), a[3], ext, lk);
    assert Linked(Real(Ext, a[9], Ext), a[4], ext, lk);
    assert Linked(l3, a[1], ext, lk);
    assert Linked(l4, a[1], ext, lk);
    assert Objs(l3) == {a[3], a[7], a[8]} && Objs(l4) == {a[4], a[9]};
  }

  /** The links of the rotate test form the tree HeapShape under no parent. */
  lemma HeapShaped<V>(a: seq<AvlNode<V>>, ext: AvlNode<V>)
    requires |a| == 10 && ext !in a && forall i, j :: 0 <= i < j < 10 ==> a[i] != a[j]
    ensures Shaped(HeapShape(a), ext, HeapLinks(a, ext), HeapLinks(a, ext).Keys)
  {
    var lk := HeapLinks(a, ext);
    HeapLinksAt(a, ext);
    HeapLeftLinked(a, ext);
    var r2 := Real(Real(Ext, a[5], Ext), a[2], Real(Ext, a[6], Ext));
    assert Linked(Real(Ext, a[5], Ext), a[2], ext, lk) && Linked(Real(Ext, a[6], Ext), a[2], ext, lk);
    assert Linked(r2, a[0], ext, lk);
    assert Objs(HeapShape(a).left) == {a[1], a[3], a[4], a[7], a[8], a[9]};
    assert Objs(r2) == {a[2], a[5], a[6]};
  }

  /**
   * The rotate test (AVLTreeTest.java:57-82). The links it builds form a tree, so the
   * rotations accept it at its root. After rotateRight at node 0, node 1 has no parent (and
   * so becomes the root), node 0 hangs under node 1 and takes node 4 as its left child, and
   * node 4's parent is node 0. rotateLeft at node 1 then restores every link.
   */
  lemma RotateTest<V>(a: seq<AvlNode<V>>, ext: AvlNode<V>)
    requires |a| == 10 && ext !in a && forall i, j :: 0 <= i < j < 10 ==> a[i] != a[j]
    ensures Shaped(HeapShape(a), ext, HeapLinks(a, ext), HeapLinks(a, ext).Keys)
    ensures var lk1 := RelinkedRight(HeapLinks(a, ext), a[0], ext);
      && lk1[a[1]].parent == null && lk1[a[0]].parent == a[1] && lk1[a[1]].right == a[0]
      && lk1[a[0]].left == a[4] && lk1[a[4]].parent == a[0]
      && RelinkedLeft(lk1, a[1], ext) == HeapLinks(a, ext)
  {
    HeapShaped(a, ext);
  }
}
