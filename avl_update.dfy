/**
 * The value model of insert (AVLTree.java:127-183) and delete (AVLTree.java:240-296):
 * the tree afterwards and the number of rebalancing actions they report.
 */
module AvlUpdate {
  import opened AvlCore
  import opened AvlWalk
  import opened AvlOrder
  import opened AvlOps

  /** createNewNode (AVLTree.java:109-114): a real node of height 0 over two external leaves. */
  function NewNode<V>(k: int, v: V): (r: Tree<V>)
    ensures Valid(r) && InOrder(r) == [(k, v)] && H(r) == 0
  {
    var n := Node(Leaf, k, v, 0, Leaf);
    assert InOrder(n) == [] + [(k, v)] + [] == [(k, v)];
    assert H<V>(Leaf) == -1 && Max(-1, -1) == -1 && Avl(n);
    n
  }

  /** The first frame of a path with the ancestor's stored height replaced by h. */
  function Reheight<V>(path: seq<Frame<V>>, h: int): (r: seq<Frame<V>>)
    requires path != []
    ensures Follows(r, path) && (SanePath(path) ==> SanePath(r))
    ensures r[0].height == h
  {
    var r := [path[0].(height := h)] + path[1..];
    assert SanePath(path) ==> SanePath(r) by {
      if SanePath(path) {
        forall i | 0 <= i < |r| ensures SanePath([r[i]]) {
          assert SanePath([path[i]]);
        }
      }
    }
    r
  }

  /**
   * The new node n hung at the external leaf that `path` leads to (AVLTree.java:139-166):
   * updateHeight on its parent b, or on n itself when the tree was empty (AVLTree.java:167),
   * then the walk up from n (AVLTree.java:169-179). Every updateHeight that changes a
   * height adds 1 to the count.
   */
  function Hang<V>(n: Tree<V>, path: seq<Frame<V>>): (r: (Tree<V>, int))
    requires n.Node? && n.left.Leaf? && n.right.Leaf? && SanePath(path)
    ensures Sane(r.0) && r.1 >= 0
  {
    if path == [] then
      var (n1, ch) := UpdateHeight(n);
      var (t1, c) := Walk(n1, [], false);
      (t1, Count(ch) + c)
    else
      var (b, ch) := UpdateHeight(Attach(path[0], n));
      var (t1, c) := Walk(n, Reheight(path, b.height), false);
      (t1, Count(ch) + c)
  }

  lemma HangInOrder<V>(n: Tree<V>, path: seq<Frame<V>>)
    requires n.Node? && n.left.Leaf? && n.right.Leaf? && SanePath(path)
    ensures InOrder(Hang(n, path).0) == Before(path) + InOrder(n) + After(path)
  {
    if path == [] {
      WalkInOrder(UpdateHeight(n).0, [], false);
    } else {
      var path1 := Reheight(path, UpdateHeight(Attach(path[0], n)).0.height);
      WalkInOrder(n, path1, false);
      PlugInOrder(path1, n);
      FollowsOrder(path1, path);
    }
  }

  /** Hanging a new node of height 0 where an AVL tree had an external leaf, and walking up,
      gives an AVL tree. */
  lemma HangAvl<V>(n: Tree<V>, path: seq<Frame<V>>)
    requires n.Node? && n.left.Leaf? && n.right.Leaf? && n.height == 0
    requires Avl(Plug(path, Leaf)) && SanePath(path)
    ensures Avl(Hang(n, path).0)
  {
    assert H<V>(Leaf) == -1 && Max(-1, -1) == -1;
    if path == [] {
      assert UpdateHeight(n).0 == n;
      WalkRestores(n, [], false, n, []);
    } else {
      var path1 := Reheight(path, UpdateHeight(Attach(path[0], n)).0.height);
      WalkRestores(n, path1, false, Leaf, path);
    }
  }

  /**
   * insert(k, i) (AVLTree.java:127-183). A present key gives -1 and no change
   * (AVLTree.java:134, 148-151). Otherwise the new node is hung where the descent stopped and
   * the walk runs (Hang), then updateHeight runs on the final root (AVLTree.java:180).
   */
  function Insert<V>(t: Tree<V>, k: int, v: V): (r: (Tree<V>, int))
    requires Sane(t)
    ensures Sane(r.0) && r.1 >= -1
  {
    var (spot, path) := Locate(t, k, []);
    if spot.Node? then (t, -1)
    else
      PlugSane(path, spot);
      var (t1, c1) := Hang(NewNode(k, v), path);
      SaneHeights(t1);
      var (t2, ch2) := UpdateHeight(t1);
      (t2, c1 + Count(ch2))
  }

  /** A fresh key's entry lands between what lies before and after the external leaf the
      descent stopped at. */
  lemma InsertPlaces<V>(t: Tree<V>, k: int, v: V)
    requires Sane(t) && Locate(t, k, []).0.Leaf?
    ensures Insert(t, k, v).1 >= 0
    ensures InOrder(Insert(t, k, v).0) ==
      Before(Locate(t, k, []).1) + [(k, v)] + After(Locate(t, k, []).1)
  {
    var (spot, path) := Locate(t, k, []);
    PlugSane(path, spot);
    HangInOrder(NewNode(k, v), path);
  }

  /** Inserting at the external leaf the descent stops at puts the entry in its place in
      symmetric order. */
  lemma InsertFreshOrder<V>(t: Tree<V>, k: int, v: V)
    requires Bst(t) && Sane(t) && Locate(t, k, []).0.Leaf?
    ensures Bst(Insert(t, k, v).0) && Insert(t, k, v).1 >= 0
    ensures InOrder(Insert(t, k, v).0) == InsertEntry(InOrder(t), k, v)
    ensures Size(Insert(t, k, v).0) == Size(t) + 1
  {
    var path := Locate(t, k, []).1;
    var before, after := Before(path), After(path);
    assert Below(before, k) && Above(after, k) && InOrder(t) == before + after by {
      LocateOrder(t, k);
    }
    InsertPlaces(t, k, v);
    InsertBetween(before, after, k, v);
  }

  /** Inserting a key the tree does not hold keeps it an AVL tree. */
  lemma InsertFreshAvl<V>(t: Tree<V>, k: int, v: V)
    requires Avl(t) && Sane(t)
    ensures Avl(Insert(t, k, v).0)
  {
    var (spot, path) := Locate(t, k, []);
    if spot.Leaf? {
      PlugSane(path, spot);
      HangAvl(NewNode(k, v), path);
      UpdateHeightIdempotent(Hang(NewNode(k, v), path).0);
    }
  }

  /** Inserting a fresh key adds exactly that entry and keeps the tree a valid AVL tree;
      a present key gives -1 and leaves the tree as it was. */
  lemma InsertCorrect<V>(t: Tree<V>, k: int, v: V)
    requires Valid(t)
    ensures Sane(t)
    ensures Valid(Insert(t, k, v).0)
    ensures InOrder(Insert(t, k, v).0) == InsertEntry(InOrder(t), k, v)
    ensures Insert(t, k, v).1 == -1 <==> k in KeySet(t)
    ensures k in KeySet(t) ==> Insert(t, k, v).0 == t
    ensures Size(Insert(t, k, v).0) == if k in KeySet(t) then Size(t) else Size(t) + 1
  {
    AvlSane(t);
    LocateFinds(t, k);
    InsertFreshAvl(t, k, v);
    if k in KeySet(t) {
      var s := InOrder(t);
      var e :| e in s && e.0 == k;
      var j :| 0 <= j < |s| && s[j] == e;
      InsertEntryPresent(s, j, v);
    } else {
      InsertFreshOrder(t, k, v);
    }
  }

  /**
   * The node that takes the place of the removed one, and the path above the node the
   * upward walk starts from (the parent p of AVLTree.java:251 and 272):
   * a leaf is replaced by the external leaf (deleteLeaf, AVLTree.java:304-313), a unary node by
   * its only child (deleteUnary, AVLTree.java:322-341); a binary node takes the key and info of
   * its successor (AVLTree.java:269-271), the leftmost node of its right subtree, and that
   * successor, which has no left child, is replaced by its right child (AVLTree.java:273-276).
   */
  function Unlink<V>(spot: Tree<V>, path: seq<Frame<V>>): (r: (Tree<V>, seq<Frame<V>>))
    requires spot.Node?
    ensures Size(r.0) < Size(spot)
  {
    var Node(l, k, v, h, rt) := spot;
    if l.Leaf? && rt.Leaf? then (Leaf, path)
    else if rt.Leaf? then (l, path)
    else if l.Leaf? then (rt, path)
    else
      var (suc, sp) := MinSubtree(rt, []);
      (suc.right, sp + [RightOf(l, suc.key, suc.info, h)] + path)
  }

  /**
   * The climb of delete from the parent p of the removed node (AVLTree.java:280-291):
   * updateHeight(p), then the walk from p. With no parent the replacement is the whole tree.
   */
  function Climb<V>(repl: Tree<V>, path: seq<Frame<V>>): (r: (Tree<V>, int))
    requires Sane(repl) && SanePath(path)
    ensures Sane(r.0) && r.1 >= 0
  {
    if path == [] then (repl, 0)
    else
      var (p, ch) := UpdateHeight(Attach(path[0], repl));
      SanePathTail(path);
      var (t1, c1) := Walk(p, path[1..], false);
      (t1, Count(ch) + c1)
  }

  /**
   * delete(k). An absent key gives -1 and no change (AVLTree.java:241-247). Otherwise the node
   * is unlinked and the climb runs from its parent.
   * When the removed node was the root and had at most one child, p is null: as written,
   * deleteLeaf then dereferences null (AVLTree.java:306-312), deleteUnary leaves the root field
   * on the removed node (AVLTree.java:332-340) and updateHeight(p) dereferences null
   * (AVLTree.java:280). Here the child becomes the whole tree and the count is 0.
   */
  function Delete<V>(t: Tree<V>, k: int): (r: (Tree<V>, int))
    requires Sane(t)
    ensures Sane(r.0) && r.1 >= -1
  {
    var (spot, path) := Locate(t, k, []);
    if spot.Leaf? then (t, -1)
    else
      UnlinkSane(spot, path);
      var (repl, path1) := Unlink(spot, path);
      Climb(repl, path1)
  }

  /** Where the climb of delete starts: at the parent of a removed leaf or node with one
      child, and strictly below a binary node, on the path through it. */
  lemma UnlinkStart<V>(spot: Tree<V>, path: seq<Frame<V>>)
    requires spot.Node?
    ensures var p1 := Unlink(spot, path).1;
      && |p1| >= |path| && p1[|p1| - |path|..] == path
      && (spot.left.Leaf? || spot.right.Leaf? ==> p1 == path)
      && (spot.left.Node? && spot.right.Node? ==> |p1| > |path|)
  {
    if spot.left.Node? && spot.right.Node? {
      var (suc, sp) := MinSubtree(spot.right, []);
      var p1 := sp + [RightOf(spot.left, suc.key, suc.info, spot.height)] + path;
      assert p1[|p1| - |path|..] == path;
    }
  }

  lemma UnlinkSane<V>(spot: Tree<V>, path: seq<Frame<V>>)
    requires spot.Node? && Sane(Plug(path, spot))
    ensures Sane(Unlink(spot, path).0) && SanePath(Unlink(spot, path).1)
  {
    PlugSane(path, spot);
    var Node(l, k, v, h, rt) := spot;
    if l.Node? && rt.Node? {
      var (suc, sp) := MinSubtree(rt, []);
      PlugSane(sp, suc);
      SanePathAppend(sp, [RightOf(l, suc.key, suc.info, h)]);
      SanePathAppend(sp + [RightOf(l, suc.key, suc.info, h)], path);
    }
  }

  /** The climb keeps the symmetric order. */
  lemma ClimbInOrder<V>(repl: Tree<V>, path: seq<Frame<V>>)
    requires Sane(repl) && SanePath(path)
    ensures InOrder(Climb(repl, path).0) == Before(path) + InOrder(repl) + After(path)
  {
    PlugInOrder(path, repl);
    if path != [] {
      var p := UpdateHeight(Attach(path[0], repl)).0;
      SanePathTail(path);
      WalkInOrder(p, path[1..], false);
      PlugInOrder(path[1..], p);
      PlugInOrder(path[1..], Attach(path[0], repl));
    }
  }

  /** The entries around a path that runs through a RightOf frame. */
  lemma SplicePath<V>(sp: seq<Frame<V>>, l: Tree<V>, k: int, v: V, h: int, path: seq<Frame<V>>)
    ensures Before(sp + [RightOf(l, k, v, h)] + path) == Before(path) + (InOrder(l) + [(k, v)] + Before(sp))
    ensures After(sp + [RightOf(l, k, v, h)] + path) == After(sp) + [] + After(path)
  {
    var f := [RightOf(l, k, v, h)];
    assert Before(f) == InOrder(l) + [(k, v)] && After(f) == [] by {
      assert f[1..] == [];
    }
    BeforeAfterAppend(sp, f);
    BeforeAfterAppend(sp + f, path);
  }

  /** The successor's right subtree hung where the successor was leaves, around it, the
      entries of the binary node's two subtrees without its own. */
  lemma UnlinkBinaryOrder<V>(l: Tree<V>, rt: Tree<V>, h: int, path: seq<Frame<V>>)
    requires rt.Node?
    ensures var (suc, sp) := MinSubtree(rt, []);
      var path1 := sp + [RightOf(l, suc.key, suc.info, h)] + path;
      Before(path1) + InOrder(suc.right) + After(path1) == Before(path) + (InOrder(l) + InOrder(rt)) + After(path)
  {
    var (suc, sp) := MinSubtree(rt, []);
    var e := (suc.key, suc.info);
    assert Before<V>([]) == [] && After<V>([]) == [];
    assert InOrder(rt) == [e] + InOrder(suc.right) + After(sp) by {
      assert InOrder(rt) + After<V>([]) == InOrder(rt);
    }
    SplicePath(sp, l, suc.key, suc.info, h, path);
    JoinAround(Before(path), InOrder(l), e, InOrder(suc.right), After(sp), After(path));
  }

  /** Unlinking keeps every entry but the removed one, in order. */
  lemma UnlinkOrder<V>(spot: Tree<V>, path: seq<Frame<V>>)
    requires spot.Node?
    ensures Before(Unlink(spot, path).1) + InOrder(Unlink(spot, path).0) + After(Unlink(spot, path).1) ==
      Before(path) + (InOrder(spot.left) + InOrder(spot.right)) + After(path)
  {
    var Node(l, k, v, h, rt) := spot;
    if l.Node? && rt.Node? {
      UnlinkBinaryOrder(l, rt, h, path);
    } else {
      assert InOrder<V>(Leaf) == [];
    }
  }

  lemma JoinAround<V>(p: seq<(int, V)>, l: seq<(int, V)>, e: (int, V), sr: seq<(int, V)>,
                      a: seq<(int, V)>, q: seq<(int, V)>)
    ensures (p + (l + [e] + [])) + sr + (a + [] + q) == p + (l + ([e] + sr + a)) + q
  {
  }

  /** Removing a present key deletes exactly its entry. */
  lemma DeletePresentOrder<V>(t: Tree<V>, k: int)
    requires Bst(t) && Sane(t) && Locate(t, k, []).0.Node?
    ensures Bst(Delete(t, k).0) && Delete(t, k).1 >= 0
    ensures InOrder(Delete(t, k).0) == RemoveEntry(InOrder(t), k)
    ensures Size(Delete(t, k).0) == Size(t) - 1
  {
    var (spot, path) := Locate(t, k, []);
    UnlinkSane(spot, path);
    var (repl, path1) := Unlink(spot, path);
    ClimbInOrder(repl, path1);
    UnlinkOrder(spot, path);
    assert InOrder(t) == Before(path) + InOrder(spot) + After(path) by {
      LocateOrder(t, k);
    }
    DropBetween(Before(path), InOrder(spot.left), (k, spot.info), InOrder(spot.right), After(path));
  }

  /** The entry between l and r of a sorted list is the one its key removes. */
  lemma DropBetween<V>(p: seq<(int, V)>, l: seq<(int, V)>, e: (int, V), r: seq<(int, V)>, q: seq<(int, V)>)
    requires Sorted(p + (l + [e] + r) + q)
    ensures RemoveEntry(p + (l + [e] + r) + q, e.0) == p + (l + r) + q
    ensures Sorted(p + (l + r) + q)
  {
    assert p + (l + [e] + r) + q == (p + l) + [e] + (r + q);
    assert p + (l + r) + q == (p + l) + (r + q);
    RemoveEntryBetween(p + l, e, r + q);
    SortedDropMiddle(p + l, e, r + q);
  }

  /** A node x with at most one child, in an AVL tree, is replaced by that child (or the
      external leaf): the climb starts in a Near state at x's parent. */
  ghost predicate Unary<V>(x: Tree<V>, repl: Tree<V>)
  {
    x.Node? && ((x.left.Leaf? && repl == x.right) || (x.right.Leaf? && repl == x.left))
  }

  lemma StartNear<V>(f: Frame<V>, x: Tree<V>, repl: Tree<V>)
    requires Avl(Attach(f, x)) && Unary(x, repl)
    ensures Avl(repl)
    ensures Near(UpdateHeight(Attach(f, repl)).0, Attach(f, x))
  {
    AvlSane(x.left);
    AvlSane(x.right);
    assert H<V>(Leaf) == -1;
  }

  /** The climb from the parent of a removed unary node restores the AVL invariant. */
  lemma ClimbAvl<V>(x: Tree<V>, repl: Tree<V>, path: seq<Frame<V>>)
    requires Avl(Plug(path, x)) && Unary(x, repl) && SanePath(path)
    ensures Sane(repl) && Avl(Climb(repl, path).0)
  {
    PlugAvl(path, x);
    AvlSane(x);
    if path != [] {
      var o := Attach(path[0], x);
      assert Plug(path, x) == Plug(path[1..], o);
      PlugAvl(path[1..], o);
      StartNear(path[0], x, repl);
      SanePathTail(path);
      FollowsRefl(path[1..]);
      WalkRestores(UpdateHeight(Attach(path[0], repl)).0, path[1..], false, o, path[1..]);
    }
  }

  /** In the binary case the successor node, once it holds the removed node's place in the
      key-replaced tree, is a unary node on the path the climb starts from. */
  lemma BinaryAvl<V>(spot: Tree<V>, path: seq<Frame<V>>)
    requires spot.Node? && spot.left.Node? && spot.right.Node? && Avl(Plug(path, spot))
    ensures var (suc, sp) := MinSubtree(spot.right, []);
      Avl(Plug(sp + [RightOf(spot.left, suc.key, suc.info, spot.height)] + path, suc)) &&
      Unary(suc, suc.right)
  {
    var Node(l, k, v, h, rt) := spot;
    var (suc, sp) := MinSubtree(rt, []);
    var f := [RightOf(l, suc.key, suc.info, h)];
    PlugAppend(sp + f, path, suc);
    PlugAppend(sp, f, suc);
    assert Plug(f, rt) == Node(l, suc.key, suc.info, h, rt) by {
      assert f[1..] == [];
    }
    PlugAvl(path, spot);
    PlugAvlReplace(path, spot, Node(l, suc.key, suc.info, h, rt));
  }

  /** Removing a key keeps the tree AVL. */
  lemma DeleteAvl<V>(t: Tree<V>, k: int)
    requires Avl(t)
    ensures Sane(t) && Avl(Delete(t, k).0)
  {
    AvlSane(t);
    var (spot, path) := Locate(t, k, []);
    if spot.Node? {
      UnlinkSane(spot, path);
      var (repl, path1) := Unlink(spot, path);
      if spot.left.Node? && spot.right.Node? {
        BinaryAvl(spot, path);
        var suc := MinSubtree(spot.right, []).0;
        ClimbAvl(suc, repl, path1);
      } else {
        ClimbAvl(spot, repl, path1);
      }
    }
  }

  /** Removing a present key deletes exactly its entry and keeps the tree a valid AVL tree;
      an absent key gives -1 and leaves the tree as it was. */
  lemma DeleteCorrect<V>(t: Tree<V>, k: int)
    requires Valid(t)
    ensures Sane(t)
    ensures Valid(Delete(t, k).0)
    ensures InOrder(Delete(t, k).0) == RemoveEntry(InOrder(t), k)
    ensures Delete(t, k).1 == -1 <==> k !in KeySet(t)
    ensures k !in KeySet(t) ==> Delete(t, k).0 == t
    ensures Size(Delete(t, k).0) == if k in KeySet(t) then Size(t) - 1 else Size(t)
  {
    AvlSane(t);
    LocateFinds(t, k);
    DeleteAvl(t, k);
    if k in KeySet(t) {
      DeletePresentOrder(t, k);
    } else {
      var s := InOrder(t);
      forall i | 0 <= i < |s| ensures s[i].0 != k {
        assert s[i] in s;
      }
      RemoveEntryAbsent(s, k);
    }
  }

  /**
   * A new node n can be hung where `path` leads: the tree with n there is a search tree,
   * also once the parent's height has been updated, and the walk up from n is Steady.
   */
  ghost predicate Hangable<V>(n: Tree<V>, path: seq<Frame<V>>)
  {
    && n.Node? && n.left.Leaf? && n.right.Leaf? && SanePath(path) && Bst(Plug(path, n))
    && (path == [] ==> UpdateHeight(n).0 == n && Steady(n, [], false))
    && (path != [] ==>
          var path1 := Reheight(path, UpdateHeight(Attach(path[0], n)).0.height);
          Bst(Plug(path1, n)) && SanePath(path1) && Steady(n, path1, false))
  }

  /** In a valid tree the new node can be hung at the external leaf the descent reaches. */
  lemma HangReady<V>(t: Tree<V>, k: int, v: V)
    requires Valid(t) && Locate(t, k, []).0.Leaf?
    ensures Sane(t) && Hangable(NewNode(k, v), Locate(t, k, []).1)
  {
    AvlSane(t);
    var (spot, path) := Locate(t, k, []);
    var n := NewNode(k, v);
    PlugSane(path, spot);
    LocateOrder(t, k);
    assert InOrder(t) == Before(path) + After(path);
    InsertBetween(Before(path), After(path), k, v);
    PlugInOrder(path, n);
    assert H<V>(Leaf) == -1 && Max(-1, -1) == -1;
    if path == [] {
      WalkSteady(n, [], false, Leaf, []);
    } else {
      var path1 := Reheight(path, UpdateHeight(Attach(path[0], n)).0.height);
      PlugInOrder(path1, n);
      FollowsOrder(path1, path);
      WalkSteady(n, path1, false, Leaf, path);
    }
  }

  /**
   * Insert of a fresh key is the hanging followed by updateHeight on the root, and gives a
   * valid tree one node larger.
   */
  lemma InsertSteps<V>(t: Tree<V>, k: int, v: V)
    requires Valid(t) && Locate(t, k, []).0.Leaf?
    ensures Sane(t) && Hangable(NewNode(k, v), Locate(t, k, []).1)
    ensures var hung := Hang(NewNode(k, v), Locate(t, k, []).1);
      && hung.0.Node?
      && var top := UpdateHeight(hung.0);
      && Insert(t, k, v).0 == top.0 && Insert(t, k, v).1 == hung.1 + Count(top.1)
      && Valid(top.0) && Size(top.0) == Size(t) + 1
  {
    HangReady(t, k, v);
    InsertCorrect(t, k, v);
    LocateFinds(t, k);
  }

  /** The climb from the parent of a removed unary node is Steady. */
  lemma ClimbSteady<V>(x: Tree<V>, repl: Tree<V>, path: seq<Frame<V>>)
    requires Avl(Plug(path, x)) && Unary(x, repl) && SanePath(path) && path != []
    ensures Sane(repl) && SanePath(path[1..])
    ensures var up := UpdateHeight(Attach(path[0], repl)).0;
      Sane(up.left) && Sane(up.right) && Steady(up, path[1..], false)
  {
    PlugAvl(path, x);
    AvlSane(x);
    var o := Attach(path[0], x);
    assert Plug(path, x) == Plug(path[1..], o);
    PlugAvl(path[1..], o);
    StartNear(path[0], x, repl);
    SanePathTail(path);
    FollowsRefl(path[1..]);
    WalkSteady(UpdateHeight(Attach(path[0], repl)).0, path[1..], false, o, path[1..]);
  }

  /**
   * What the climb of delete needs once updateHeight has run on the parent p
   * (AVLTree.java:280-291): the tree is still a search tree, p's subtree is the one
   * UpdateHeight gives, and the walk from p is Steady and gives what Climb computes.
   */
  lemma ClimbReady<V>(x: Tree<V>, repl: Tree<V>, path: seq<Frame<V>>)
    requires Avl(Plug(path, x)) && Unary(x, repl) && SanePath(path) && path != []
    requires Sane(repl) && Bst(Plug(path, repl))
    ensures var (up, ch) := UpdateHeight(Attach(path[0], repl));
      var path1 := Reheight(path, up.height);
      && Sane(up.left) && Sane(up.right) && SanePath(path[1..]) && path1[1..] == path[1..]
      && Attach(path1[0], repl) == up && Steady(up, path[1..], false) && Bst(Plug(path1, repl))
      && Climb(repl, path).0 == Walk(up, path[1..], false).0
      && Climb(repl, path).1 == Count(ch) + Walk(up, path[1..], false).1
  {
    ClimbSteady(x, repl, path);
    var up := UpdateHeight(Attach(path[0], repl)).0;
    var path1 := Reheight(path, up.height);
    PlugInOrder(path1, repl);
    PlugInOrder(path, repl);
    FollowsOrder(path1, path);
  }

  /** The node delete takes out of the tree: the one holding the key when it has at most one
      child, its successor otherwise. */
  function Removed<V>(spot: Tree<V>): (r: Tree<V>)
    requires spot.Node?
    ensures r.Node?
  {
    if spot.left.Node? && spot.right.Node? then MinSubtree(spot.right, []).0 else spot
  }

  /**
   * What the delete of the heap needs once the node is unlinked: the tree is a search tree
   * with the removed node's replacement in its place, and the removed node, put back there,
   * would give an AVL tree in which it is unary, so that the climb is Steady.
   */
  lemma DeleteReady<V>(t: Tree<V>, k: int)
    requires Valid(t) && Locate(t, k, []).0.Node?
    ensures var (spot, path) := Locate(t, k, []); var (repl, path1) := Unlink(spot, path);
      && Sane(repl) && SanePath(path1) && Bst(Plug(path1, repl))
      && Avl(Plug(path1, Removed(spot))) && Unary(Removed(spot), repl)
  {
    AvlSane(t);
    var (spot, path) := Locate(t, k, []);
    UnlinkSane(spot, path);
    var (repl, path1) := Unlink(spot, path);
    PlugInOrder(path1, repl);
    UnlinkOrder(spot, path);
    assert InOrder(t) == Before(path) + InOrder(spot) + After(path) by {
      LocateOrder(t, k);
    }
    DropBetween(Before(path), InOrder(spot.left), (k, spot.info), InOrder(spot.right), After(path));
    if spot.left.Node? && spot.right.Node? {
      BinaryAvl(spot, path);
    }
  }
}
