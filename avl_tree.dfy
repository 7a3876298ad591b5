/**
 * The AVLTree class of AVLTree.java over linked node objects: the root field, the node
 * counter `nodes` and the shared external leaf, with the methods of the source proved to
 * compute, on the heap, what the value model of AvlCore, AvlWalk, AvlOps and AvlUpdate
 * computes on trees.
 */
module AvlTrees {
  import opened AvlCore
  import opened AvlWalk
  import opened AvlOrder
  import opened AvlOps
  import opened AvlUpdate
  import opened AvlNodes

  /** The recorded links form shape s, with exactly its objects recorded (`keys` being the
      objects whose fields are recorded) and the external leaf not among them. */
  ghost predicate Shaped<V>(s: Shape<V>, ext: AvlNode<V>, lk: LinkMap<V>, keys: set<AvlNode<V>>)
  {
    ext !in lk && lk.Keys == Objs(s) && keys == lk.Keys && Linked(s, null, ext, lk)
  }

  /** What a linked tree whose objects are all recorded says of a subtree at a path. */
  lemma {:induction false} Focus<V>(p: seq<SFrame<V>>, s: Shape<V>, ext: AvlNode<V>, lk: LinkMap<V>, fm: FieldMap<V>)
    requires Shaped(SPlug(p, s), ext, lk, fm.Keys)
    ensures Linked(s, ParentOf(p), ext, lk) && LinkedPath(p, TopOf(s, ext), ext, lk)
    ensures Objs(s) <= fm.Keys && PathObjs(p) <= fm.Keys && Objs(s) !! PathObjs(p)
    ensures ext !in Objs(s) && ext !in PathObjs(p)
    ensures s.Real? ==>
      && s.node in lk && lk[s.node] == Links(TopOf(s.left, ext), TopOf(s.right, ext), ParentOf(p))
      && s.node !in Objs(s.left) && s.node !in Objs(s.right) && s.node !in PathObjs(p)
      && (s.left.Real? ==> s.left.node in fm) && (s.right.Real? ==> s.right.node in fm)
  {
    LinkedZip(p, s, ext, lk);
    PlugObjs(p, s);
  }

  /** The node just above a position belongs to the tree. */
  lemma PathTopIn<V>(p: seq<SFrame<V>>, s: Shape<V>, ext: AvlNode<V>, lk: LinkMap<V>, fm: FieldMap<V>)
    requires Shaped(SPlug(p, s), ext, lk, fm.Keys) && p != []
    ensures p[0].node in Objs(SPlug(p, s))
  {
    Focus(p, s, ext, lk, fm);
  }

  /** The stored heights a node's children hold are the heights of their value subtrees. */
  lemma {:induction false} ChildHeights<V>(p: seq<SFrame<V>>, s: Shape<V>, ext: AvlNode<V>, lk: LinkMap<V>, fm: FieldMap<V>)
    requires Shaped(SPlug(p, s), ext, lk, fm.Keys) && s.Real?
    ensures s.node in lk && s.node in fm
    ensures lk[s.node].left == TopOf(s.left, ext) && lk[s.node].right == TopOf(s.right, ext)
    ensures TopOf(s.left, ext) == ext ==> H(Abs(s.left, fm)) == -1
    ensures TopOf(s.left, ext) != ext ==>
      TopOf(s.left, ext) in fm && fm[TopOf(s.left, ext)].height == H(Abs(s.left, fm))
    ensures TopOf(s.right, ext) == ext ==> H(Abs(s.right, fm)) == -1
    ensures TopOf(s.right, ext) != ext ==>
      TopOf(s.right, ext) in fm && fm[TopOf(s.right, ext)].height == H(Abs(s.right, fm))
    ensures Abs(s, fm) == Node(Abs(s.left, fm), fm[s.node].key, fm[s.node].info, fm[s.node].height, Abs(s.right, fm))
  {
    Focus(p, s, ext, lk, fm);
  }

  /** Recording new fields for the top object of a subtree changes the value tree only there. */
  lemma {:induction false} FieldsSet<V>(p: seq<SFrame<V>>, s: Shape<V>, ext: AvlNode<V>, lk: LinkMap<V>, fm: FieldMap<V>,
                     e: Fields<V>)
    requires Shaped(SPlug(p, s), ext, lk, fm.Keys) && s.Real?
    ensures var fm1 := fm[s.node := e];
      && fm1.Keys == fm.Keys
      && Abs(s, fm1) == Node(Abs(s.left, fm), e.key, e.info, e.height, Abs(s.right, fm))
      && AbsPath(p, fm1) == AbsPath(p, fm)
      && Abs(SPlug(p, s), fm1) == Plug(AbsPath(p, fm), Abs(s, fm1))
  {
    Focus(p, s, ext, lk, fm);
    var fm1 := fm[s.node := e];
    AbsAgree(s.left, fm, fm1);
    AbsAgree(s.right, fm, fm1);
    AbsPathAgree(p, fm, fm1);
    AbsPlug(p, s, fm1);
  }

  /** The top object of a plugged shape does not depend on what is plugged in. */
  lemma {:induction false} PlugTop<V>(p: seq<SFrame<V>>, s: Shape<V>, u: Shape<V>)
    requires p != []
    ensures SPlug(p, s).Real? && SPlug(p, u).Real? && SPlug(p, s).node == SPlug(p, u).node
    decreases |p|
  {
    if |p| > 1 {
      PlugTop(p[1..], SAttach(p[0], s), SAttach(p[0], u));
    }
  }

  /** Every recorded object of a shape contributes its entry to the in-order sequence. */
  lemma {:induction false} AbsHolds<V>(s: Shape<V>, y: AvlNode<V>, fm: FieldMap<V>)
    requires y in Objs(s) && Objs(s) <= fm.Keys
    ensures y in fm && (fm[y].key, fm[y].info) in InOrder(Abs(s, fm))
  {
    match s
    case Real(l, n, r) =>
      if y in Objs(l) {
        AbsHolds(l, y, fm);
      } else if y in Objs(r) {
        AbsHolds(r, y, fm);
      }
  }

  /**
   * The side choice of updateParentsAfterRotation (AVLTree.java:545) finds the subtree a
   * path leads to: when there is a parent, the subtree is its left child exactly when the
   * parent's key is greater than the key of y. At the root there is nothing to choose.
   */
  ghost predicate KeySide<V>(p: seq<SFrame<V>>, y: AvlNode<V>, fm: FieldMap<V>)
  {
    p != [] ==> p[0].node in fm && y in fm && (p[0].SLeftOf? <==> fm[p[0].node].key > fm[y].key)
  }

  /**
   * In a linked search tree the ancestor a subtree hangs from holds it on one side, and on
   * the left exactly when its key is greater than the key of any object y of the subtree:
   * the test updateParentsAfterRotation makes (AVLTree.java:545).
   */
  lemma {:induction false} ParentSide<V>(p: seq<SFrame<V>>, s: Shape<V>, y: AvlNode<V>, ext: AvlNode<V>,
                      lk: LinkMap<V>, fm: FieldMap<V>)
    requires Shaped(SPlug(p, s), ext, lk, fm.Keys)
    requires Bst(Abs(SPlug(p, s), fm)) && s.Real? && y in Objs(s) && p != []
    ensures p[0].node in lk && p[0].node in fm && y in fm && p[0].node !in Objs(s)
    ensures lk[p[0].node].left == s.node || lk[p[0].node].right == s.node
    ensures lk[p[0].node].left == s.node <==> fm[p[0].node].key > fm[y].key
  {
    Focus(p, s, ext, lk, fm);
    ParentHolds(p, s, ext, lk);
    AbsPlug(p, s, fm);
    AbsHolds(s, y, fm);
    FrameSide(AbsPath(p, fm), Abs(s, fm), (fm[y].key, fm[y].info));
  }

  /** In a search tree the key test of updateParentsAfterRotation finds every subtree. */
  lemma {:induction false} BstKeySide<V>(p: seq<SFrame<V>>, s: Shape<V>, y: AvlNode<V>, ext: AvlNode<V>,
                                         lk: LinkMap<V>, fm: FieldMap<V>)
    requires Shaped(SPlug(p, s), ext, lk, fm.Keys)
    requires Bst(Abs(SPlug(p, s), fm)) && s.Real? && y in Objs(s)
    ensures KeySide(p, y, fm)
  {
    if p != [] {
      ParentSide(p, s, y, ext, lk, fm);
      ParentHolds(p, s, ext, lk);
    }
  }

  /** Everything rotateRight at the top of s needs of a wired tree holding s at p in which
      the key of s's left child finds the side of s under its parent. */
  lemma {:induction false} RotateRightReady<V>(p: seq<SFrame<V>>, s: Shape<V>, ext: AvlNode<V>, lk: LinkMap<V>, fm: FieldMap<V>)
    requires Shaped(SPlug(p, s), ext, lk, fm.Keys)
    requires s.Real? && s.left.Real? && KeySide(p, s.left.node, fm)
    ensures var x, y, zn, q := s.node, s.left.node, TopOf(s.left.right, ext), ParentOf(p);
      && x in lk && y in lk && lk[x].left == y && lk[y].right == zn && lk[x].parent == q
      && y != x && zn != x && zn != y && (zn != ext ==> zn in lk)
      && (q != null ==>
            q in lk && q in fm && y in fm && q != x && q != y && q != zn &&
            (lk[q].left == x || lk[q].right == x) && (lk[q].left == x <==> fm[q].key > fm[y].key))
    ensures var s1 := Real(s.left.left, s.left.node, Real(s.left.right, s.node, s.right));
      && Shaped(SPlug(p, s1), ext, RelinkedRight(lk, s.node, ext), fm.Keys)
      && SPlug(p, s1).Real? && SPlug(p, s1).node == if p == [] then s.left.node else SPlug(p, s).node
  {
    Focus(p, s, ext, lk, fm);
    assert Linked(s.left, s.node, ext, lk);
    if s.left.right.Real? {
      assert Linked(s.left.right, s.left.node, ext, lk);
    }
    if p != [] {
      ParentHolds(p, s, ext, lk);
      PlugTop(p, s, Real(s.left.left, s.left.node, Real(s.left.right, s.node, s.right)));
    }
    RotatedRightWired(p, s, ext, lk);
  }

  /** Everything rotateLeft at the top of s needs, the mirror image of RotateRightReady. */
  lemma {:induction false} RotateLeftReady<V>(p: seq<SFrame<V>>, s: Shape<V>, ext: AvlNode<V>, lk: LinkMap<V>, fm: FieldMap<V>)
    requires Shaped(SPlug(p, s), ext, lk, fm.Keys)
    requires s.Real? && s.right.Real? && KeySide(p, s.right.node, fm)
    ensures var x, y, zn, q := s.node, s.right.node, TopOf(s.right.left, ext), ParentOf(p);
      && x in lk && y in lk && lk[x].right == y && lk[y].left == zn && lk[x].parent == q
      && y != x && zn != x && zn != y && (zn != ext ==> zn in lk)
      && (q != null ==>
            q in lk && q in fm && y in fm && q != x && q != y && q != zn &&
            (lk[q].left == x || lk[q].right == x) && (lk[q].left == x <==> fm[q].key > fm[y].key))
    ensures var s1 := Real(Real(s.left, s.node, s.right.left), s.right.node, s.right.right);
      && Shaped(SPlug(p, s1), ext, RelinkedLeft(lk, s.node, ext), fm.Keys)
      && SPlug(p, s1).Real? && SPlug(p, s1).node == if p == [] then s.right.node else SPlug(p, s).node
  {
    Focus(p, s, ext, lk, fm);
    assert Linked(s.right, s.node, ext, lk);
    if s.right.left.Real? {
      assert Linked(s.right.left, s.right.node, ext, lk);
    }
    if p != [] {
      ParentHolds(p, s, ext, lk);
      PlugTop(p, s, Real(Real(s.left, s.node, s.right.left), s.right.node, s.right.right));
    }
    RotatedLeftWired(p, s, ext, lk);
  }

  /** The value path one frame further out splits into that frame and the rest. */
  lemma {:induction false} AbsPathCons<V>(f: SFrame<V>, p: seq<SFrame<V>>, fm0: FieldMap<V>, fm1: FieldMap<V>)
    requires f.node in fm0 && f.node in fm1 && AbsPath([f] + p, fm1) == AbsPath([f] + p, fm0)
    ensures AbsFrame(f, fm1) == AbsFrame(f, fm0) && AbsPath(p, fm1) == AbsPath(p, fm0)
  {
    assert ([f] + p)[1..] == p;
    assert AbsPath([f] + p, fm0) == [AbsFrame(f, fm0)] + AbsPath(p, fm0);
    assert AbsPath([f] + p, fm1) == [AbsFrame(f, fm1)] + AbsPath(p, fm1);
    assert AbsPath([f] + p, fm1)[0] == AbsFrame(f, fm1);
    assert AbsPath([f] + p, fm1)[1..] == AbsPath(p, fm1);
  }

  /**
   * The two height updates of rotateRight, oldRoot's first and then newRoot's, leave the
   * value tree AvlCore.RotateRight computes: fm0 holds the fields before, fm1 after the
   * first update and fm2 after the second.
   */
  lemma {:induction false} RotateRightValues<V>(p: seq<SFrame<V>>, a: Shape<V>, y: AvlNode<V>, z: Shape<V>,
                                                x: AvlNode<V>, c: Shape<V>,
                                                fm0: FieldMap<V>, fm1: FieldMap<V>, fm2: FieldMap<V>)
    requires x in fm0 && y in fm0 && y in fm1
    requires Abs(Real(z, x, c), fm0).Node?
    requires Abs(Real(z, x, c), fm1) == UpdateHeight(Abs(Real(z, x, c), fm0)).0
    requires AbsPath([SRightOf(a, y)] + p, fm1) == AbsPath([SRightOf(a, y)] + p, fm0)
    requires Abs(Real(a, y, Real(z, x, c)), fm1).Node?
    requires Abs(Real(a, y, Real(z, x, c)), fm2) == UpdateHeight(Abs(Real(a, y, Real(z, x, c)), fm1)).0
    requires AbsPath(p, fm2) == AbsPath(p, fm1)
    ensures Abs(Real(Real(a, y, z), x, c), fm0).Node? && Abs(Real(Real(a, y, z), x, c), fm0).left.Node?
    ensures Abs(Real(a, y, Real(z, x, c)), fm2) == RotateRight(Abs(Real(Real(a, y, z), x, c), fm0))
    ensures AbsPath(p, fm2) == AbsPath(p, fm0)
  {
    AbsPathCons(SRightOf(a, y), p, fm0, fm1);
  }

  /** The two height updates of rotateLeft leave the value tree AvlCore.RotateLeft computes. */
  lemma {:induction false} RotateLeftValues<V>(p: seq<SFrame<V>>, a: Shape<V>, x: AvlNode<V>, z: Shape<V>,
                                               y: AvlNode<V>, c: Shape<V>,
                                               fm0: FieldMap<V>, fm1: FieldMap<V>, fm2: FieldMap<V>)
    requires x in fm0 && y in fm0 && y in fm1
    requires Abs(Real(a, x, z), fm0).Node?
    requires Abs(Real(a, x, z), fm1) == UpdateHeight(Abs(Real(a, x, z), fm0)).0
    requires AbsPath([SLeftOf(y, c)] + p, fm1) == AbsPath([SLeftOf(y, c)] + p, fm0)
    requires Abs(Real(Real(a, x, z), y, c), fm1).Node?
    requires Abs(Real(Real(a, x, z), y, c), fm2) == UpdateHeight(Abs(Real(Real(a, x, z), y, c), fm1)).0
    requires AbsPath(p, fm2) == AbsPath(p, fm1)
    ensures Abs(Real(a, x, Real(z, y, c)), fm0).Node? && Abs(Real(a, x, Real(z, y, c)), fm0).right.Node?
    ensures Abs(Real(Real(a, x, z), y, c), fm2) == RotateLeft(Abs(Real(a, x, Real(z, y, c)), fm0))
    ensures AbsPath(p, fm2) == AbsPath(p, fm0)
  {
    AbsPathCons(SLeftOf(y, c), p, fm0, fm1);
  }

  /** Putting back, at the same place, a subtree with the same symmetric order keeps the
      symmetric order of the whole tree. */
  lemma {:induction false} Replug<V>(p: seq<SFrame<V>>, s: Shape<V>, s1: Shape<V>, ext: AvlNode<V>,
                                     lk0: LinkMap<V>, fm0: FieldMap<V>, lk1: LinkMap<V>, fm1: FieldMap<V>)
    requires Shaped(SPlug(p, s), ext, lk0, fm0.Keys) && Shaped(SPlug(p, s1), ext, lk1, fm1.Keys)
    requires AbsPath(p, fm1) == AbsPath(p, fm0) && InOrder(Abs(s1, fm1)) == InOrder(Abs(s, fm0))
    ensures InOrder(Abs(SPlug(p, s1), fm1)) == InOrder(Abs(SPlug(p, s), fm0))
  {
    Focus(p, s, ext, lk0, fm0);
    Focus(p, s1, ext, lk1, fm1);
    AbsPlug(p, s, fm0);
    AbsPlug(p, s1, fm1);
    PlugInOrder(AbsPath(p, fm0), Abs(s, fm0));
    PlugInOrder(AbsPath(p, fm0), Abs(s1, fm1));
  }

  /** A change below the left child of n that keeps the path through n leaves n's subtree
      with the new left subtree in place of the old one. */
  lemma {:induction false} LeftReplaced<V>(p: seq<SFrame<V>>, l: Shape<V>, n: AvlNode<V>, r: Shape<V>,
                                           l1: Shape<V>, fm0: FieldMap<V>, fm1: FieldMap<V>)
    requires n in fm0 && n in fm1
    requires AbsPath([SLeftOf(n, r)] + p, fm1) == AbsPath([SLeftOf(n, r)] + p, fm0)
    ensures Abs(Real(l, n, r), fm0).Node?
    ensures Abs(Real(l1, n, r), fm1) == Abs(Real(l, n, r), fm0).(left := Abs(l1, fm1))
    ensures AbsPath(p, fm1) == AbsPath(p, fm0)
  {
    AbsPathCons(SLeftOf(n, r), p, fm0, fm1);
  }

  /** The mirror image of LeftReplaced. */
  lemma {:induction false} RightReplaced<V>(p: seq<SFrame<V>>, l: Shape<V>, n: AvlNode<V>, r: Shape<V>,
                                            r1: Shape<V>, fm0: FieldMap<V>, fm1: FieldMap<V>)
    requires n in fm0 && n in fm1
    requires AbsPath([SRightOf(l, n)] + p, fm1) == AbsPath([SRightOf(l, n)] + p, fm0)
    ensures Abs(Real(l, n, r), fm0).Node?
    ensures Abs(Real(l, n, r1), fm1) == Abs(Real(l, n, r), fm0).(right := Abs(r1, fm1))
    ensures AbsPath(p, fm1) == AbsPath(p, fm0)
  {
    AbsPathCons(SRightOf(l, n), p, fm0, fm1);
  }

  /** One frame up: the subtree one level higher, and the path above it, as values. */
  lemma {:induction false} ClimbFrame<V>(sp: seq<SFrame<V>>, s1: Shape<V>, fm: FieldMap<V>)
    requires sp != [] && PathObjs(sp) <= fm.Keys && Sane(Abs(s1, fm)) && SanePath(AbsPath(sp, fm))
    ensures |AbsPath(sp, fm)| == |sp| && SPlug(sp[1..], SAttach(sp[0], s1)) == SPlug(sp, s1)
    ensures var up := Abs(SAttach(sp[0], s1), fm);
      && up == Attach(AbsPath(sp, fm)[0], Abs(s1, fm))
      && up.Node? && Sane(up.left) && Sane(up.right)
      && AbsPath(sp[1..], fm) == AbsPath(sp, fm)[1..] && SanePath(AbsPath(sp[1..], fm))
  {
    assert sp[0].node in FrameObjs(sp[0]);
    assert AbsPath(sp, fm) == [AbsFrame(sp[0], fm)] + AbsPath(sp[1..], fm);
    assert SanePath([AbsPath(sp, fm)[0]]);
    SanePathTail(AbsPath(sp, fm));
  }

  /**
   * Where the node rebalance(p) started at sits afterwards: at s1 itself when nothing
   * rotated, as the child it was rotated down to otherwise.
   */
  ghost function Settled<V>(sp: seq<SFrame<V>>, s1: Shape<V>, t: Tree<V>, actions: int): (r: (seq<SFrame<V>>, Shape<V>))
    requires actions != 0 ==> s1.Real?
    ensures SPlug(r.0, r.1) == SPlug(sp, s1)
  {
    if actions == 0 then (sp, s1)
    else if Balance(t) > 1 then
      var cp := [SRightOf(s1.left, s1.node)] + sp;
      assert cp[1..] == sp;
      (cp, s1.right)
    else
      var cp := [SLeftOf(s1.node, s1.right)] + sp;
      assert cp[1..] == sp;
      (cp, s1.left)
  }

  /**
   * What one pass of the upward loop leaves, in value terms: rebalance gave t1 with
   * `actions`, then updateHeight ran at the node's new position cs (the whole subtree when
   * nothing rotated, the child it was rotated down to otherwise), fm1 holding the fields
   * before that update and fm2 after. The result is AvlCore.Visit of the subtree.
   */
  lemma {:induction false} VisitSettles<V>(sp: seq<SFrame<V>>, s1: Shape<V>, cp: seq<SFrame<V>>, cs: Shape<V>,
                                           ext: AvlNode<V>, lk: LinkMap<V>, fm1: FieldMap<V>, fm2: FieldMap<V>,
                                           t: Tree<V>, actions: int, changed: bool)
    requires t.Node? && Sane(t.left) && Sane(t.right)
    requires Shaped(SPlug(sp, s1), ext, lk, fm1.Keys) && fm2.Keys == fm1.Keys
    requires (Abs(s1, fm1), actions) == Rebalance(t)
    requires actions == 0 ==> cp == sp && cs == s1
    requires actions != 0 && Balance(t) > 1 ==>
      s1.Real? && cp == [SRightOf(s1.left, s1.node)] + sp && cs == s1.right
    requires actions != 0 && Balance(t) <= 1 ==>
      s1.Real? && cp == [SLeftOf(s1.node, s1.right)] + sp && cs == s1.left
    requires Abs(cs, fm1).Node? && (Abs(cs, fm2), changed) == UpdateHeight(Abs(cs, fm1))
    requires AbsPath(cp, fm2) == AbsPath(cp, fm1)
    ensures AbsPath(sp, fm2) == AbsPath(sp, fm1)
    ensures InOrder(Abs(SPlug(sp, s1), fm2)) == InOrder(Abs(SPlug(sp, s1), fm1))
    ensures Visit(t).0 == Abs(s1, fm2)
    ensures Visit(t).1 == (if actions > 0 then actions else 0) + (if changed then 1 else 0)
    ensures Visit(t).2 == (actions != 0)
  {
    Focus(sp, s1, ext, lk, fm1);
    if actions != 0 {
      if Balance(t) > 1 {
        RightReplaced(sp, s1.left, s1.node, s1.right, s1.right, fm1, fm2);
      } else {
        LeftReplaced(sp, s1.left, s1.node, s1.right, s1.left, fm1, fm2);
      }
    }
    assert InOrder(Abs(s1, fm2)) == InOrder(Abs(s1, fm1));
    Replug(sp, s1, s1, ext, lk, fm1, lk, fm2);
  }

  /**
   * The state of the upward loop at a node whose subtree is sh and whose path is sp: the
   * walk from there is Steady, ends with the tree goal.0, and reports what is left of
   * goal.1 once `counter` is counted.
   */
  ghost predicate Pending<V>(sp: seq<SFrame<V>>, sh: Shape<V>, revisit: bool, fm: FieldMap<V>,
                             goal: (Tree<V>, int), counter: int)
  {
    var t := Abs(sh, fm);
    && t.Node? && Sane(t.left) && Sane(t.right) && SanePath(AbsPath(sp, fm))
    && Steady(t, AbsPath(sp, fm), revisit)
    && Walk(t, AbsPath(sp, fm), revisit).0 == goal.0
    && counter + Walk(t, AbsPath(sp, fm), revisit).1 == goal.1
  }

  /** One pass of the loop keeps it Pending: at the same position when the pass rotated
      (never on a revisit), one frame up otherwise, or done at the root. */
  lemma {:induction false} PendingStep<V>(sp: seq<SFrame<V>>, sh: Shape<V>, revisit: bool, s1: Shape<V>,
                                          ext: AvlNode<V>, lk: LinkMap<V>, fm0: FieldMap<V>, fm1: FieldMap<V>,
                                          goal: (Tree<V>, int), counter: int, count: int, rotated: bool)
    requires Pending(sp, sh, revisit, fm0, goal, counter) && Shaped(SPlug(sp, s1), ext, lk, fm1.Keys)
    requires AbsPath(sp, fm1) == AbsPath(sp, fm0)
    requires Abs(s1, fm1) == Visit(Abs(sh, fm0)).0 && count == Visit(Abs(sh, fm0)).1
    requires rotated == Visit(Abs(sh, fm0)).2
    ensures rotated ==> !revisit && Pending(sp, s1, true, fm1, goal, counter + count)
    ensures !rotated && sp == [] ==> Abs(SPlug(sp, s1), fm1) == goal.0 && counter + count == goal.1
    ensures !rotated && sp != [] ==>
      && SPlug(sp[1..], SAttach(sp[0], s1)) == SPlug(sp, s1)
      && Pending(sp[1..], SAttach(sp[0], s1), false, fm1, goal, counter + count)
  {
    if !rotated && sp != [] {
      Focus(sp, s1, ext, lk, fm1);
      ClimbFrame(sp, s1, fm1);
    }
  }

  /** The links once the new node n hangs where sp leads to the external leaf
      (AVLTree.java:143-166): n points to the external leaf on both sides and up to the
      ancestor the path hangs from, which points down to n on the side of the frame. */
  ghost function HungLinks<V>(lk: LinkMap<V>, sp: seq<SFrame<V>>, n: AvlNode<V>, ext: AvlNode<V>): LinkMap<V>
    requires sp != [] ==> sp[0].node in lk
  {
    var lk0 := lk[n := Links(ext, ext, null)];
    if sp == [] then lk0
    else
      var b := sp[0].node;
      var lkb := if sp[0].SLeftOf? then lk0[b := lk[b].(left := n)] else lk0[b := lk[b].(right := n)];
      lkb[n := Links(ext, ext, b)]
  }

  /** A new node hung at an external leaf of a wired tree leaves it wired. */
  lemma {:induction false} HungWired<V>(sp: seq<SFrame<V>>, n: AvlNode<V>, ext: AvlNode<V>, lk: LinkMap<V>,
                                        fm: FieldMap<V>, e: Fields<V>)
    requires Shaped(SPlug(sp, Ext), ext, lk, fm.Keys) && n !in lk && n != ext
    ensures sp != [] ==> sp[0].node in lk && sp[0].node != n
    ensures PathObjs(sp) <= fm.Keys && n !in PathObjs(sp)
    ensures Shaped(SPlug(sp, Real(Ext, n, Ext)), ext, HungLinks(lk, sp, n, ext), fm[n := e].Keys)
  {
    var s1 := Real(Ext, n, Ext);
    Focus(sp, Ext, ext, lk, fm);
    PlugObjs(sp, Ext);
    PlugObjs(sp, s1);
    UpperApart(sp, ext, ext, lk);
    var lk1 := HungLinks(lk, sp, n, ext);
    if sp != [] {
      assert AgreeOn(UpperObjs(sp), lk, lk1);
    }
    assert Linked(s1, ParentOf(sp), ext, lk1);
    PlugReplace(sp, Ext, s1, ext, lk, lk1);
  }

  /** The value tree with a new node recorded where the path leads holds the node's
      entry there. */
  lemma {:induction false} HungValues<V>(sp: seq<SFrame<V>>, n: AvlNode<V>, fm: FieldMap<V>, e: Fields<V>)
    requires PathObjs(sp) <= fm.Keys && n !in PathObjs(sp)
    ensures AbsPath(sp, fm[n := e]) == AbsPath(sp, fm)
    ensures Abs(SPlug(sp, Real(Ext, n, Ext)), fm[n := e]) ==
      Plug(AbsPath(sp, fm), Node(Leaf, e.key, e.info, e.height, Leaf))
  {
    AbsPathAgree(sp, fm, fm[n := e]);
    AbsPlug(sp, Real(Ext, n, Ext), fm[n := e]);
  }

  /** updateHeight on the ancestor a path hangs from changes, on the path, only the height
      of its first frame. */
  lemma {:induction false} ReheightPath<V>(sp: seq<SFrame<V>>, s: Shape<V>, fm0: FieldMap<V>, fm1: FieldMap<V>)
    requires sp != [] && PathObjs(sp) <= fm0.Keys && fm1.Keys == fm0.Keys
    requires Abs(SAttach(sp[0], s), fm0).Node?
    requires Abs(SAttach(sp[0], s), fm1) == UpdateHeight(Abs(SAttach(sp[0], s), fm0)).0
    requires AbsPath(sp[1..], fm1) == AbsPath(sp[1..], fm0)
    ensures Abs(s, fm1) == Abs(s, fm0) && AbsPath(sp, fm0) != []
    ensures AbsPath(sp, fm1) == Reheight(AbsPath(sp, fm0), Abs(SAttach(sp[0], s), fm1).height)
  {
    assert sp[0].node in FrameObjs(sp[0]);
    assert AbsPath(sp, fm0) == [AbsFrame(sp[0], fm0)] + AbsPath(sp[1..], fm0);
    assert AbsPath(sp, fm1) == [AbsFrame(sp[0], fm1)] + AbsPath(sp[1..], fm1);
  }

  /** The remaining child, linked below x, is linked below x's parent once it points there. */
  lemma {:induction false} ChildRelinked<V>(cs: Shape<V>, x: AvlNode<V>, q: AvlNode?<V>, ext: AvlNode<V>,
                                            lk: LinkMap<V>, lk1: LinkMap<V>)
    requires Linked(cs, x, ext, lk) && x !in Objs(cs)
    requires cs.Real? ==> cs.node in lk1 && lk1[cs.node] == lk[cs.node].(parent := q)
    requires cs.Real? ==> AgreeOn(Objs(cs.left) + Objs(cs.right), lk, lk1)
    ensures Linked(cs, q, ext, lk1)
  {
    if cs.Real? {
      LinkedAgree(cs.left, cs.node, ext, lk, lk1);
      LinkedAgree(cs.right, cs.node, ext, lk, lk1);
    }
  }

  /** What removing the top x of s, which has at most the one real child cs, finds: the
      links x, its parent and cs hold. */
  lemma {:induction false} SplicedFacts<V>(dp: seq<SFrame<V>>, s: Shape<V>, cs: Shape<V>, ext: AvlNode<V>,
                                           lk: LinkMap<V>, fm: FieldMap<V>)
    requires Shaped(SPlug(dp, s), ext, lk, fm.Keys) && s.Real?
    requires (cs == s.left && s.right.Ext?) || (cs == s.right && s.left.Ext?)
    ensures s.node in lk && lk[s.node] == Links(TopOf(s.left, ext), TopOf(s.right, ext), ParentOf(dp))
    ensures cs.Real? ==> cs.node in lk && cs.node != s.node
    ensures dp != [] ==>
      && dp[0].node in lk && dp[0].node != s.node
      && (lk[dp[0].node].left == s.node <==> dp[0].SLeftOf?)
      && (lk[dp[0].node].right == s.node <==> dp[0].SRightOf?)
    ensures dp != [] ==> SPlug(dp, cs).Real? && SPlug(dp, cs).node == SPlug(dp, s).node
    ensures PathObjs(dp) <= fm.Keys && s.node !in PathObjs(dp) && s.node !in Objs(cs)
  {
    Focus(dp, s, ext, lk, fm);
    ParentHolds(dp, s, ext, lk);
    if dp != [] {
      PlugTop(dp, s, cs);
    }
    if cs.Real? {
      assert cs.node in Objs(cs);
    }
  }

  /** With links lk1 that differ from those of a wired tree only as SplicedWired says, the
      remaining child is linked below x's parent. */
  lemma {:induction false} SplicedChild<V>(dp: seq<SFrame<V>>, s: Shape<V>, cs: Shape<V>, ext: AvlNode<V>,
                                           lk: LinkMap<V>, lk1: LinkMap<V>, fm: FieldMap<V>)
    requires Shaped(SPlug(dp, s), ext, lk, fm.Keys) && s.Real?
    requires (cs == s.left && s.right.Ext?) || (cs == s.right && s.left.Ext?)
    requires lk1.Keys == lk.Keys - {s.node}
    requires cs.Real? ==> cs.node in lk && cs.node in lk1 && lk1[cs.node] == lk[cs.node].(parent := ParentOf(dp))
    requires forall n :: n in lk1 && n != TopOf(cs, ext) && n != ParentOf(dp) ==> lk1[n] == lk[n]
    ensures Linked(cs, ParentOf(dp), ext, lk1) && Objs(cs) !! PathObjs(dp)
  {
    var x := s.node;
    Focus(dp, s, ext, lk, fm);
    assert Linked(cs, x, ext, lk);
    ChildRelinked(cs, x, ParentOf(dp), ext, lk, lk1);
  }

  /**
   * Links lk1 that differ from those of a wired tree only as SplicedWired says make the tree
   * with cs in the place of x wired.
   */
  lemma {:induction false} SplicedRelinked<V>(dp: seq<SFrame<V>>, s: Shape<V>, cs: Shape<V>, ext: AvlNode<V>,
                                              lk: LinkMap<V>, lk1: LinkMap<V>, fm: FieldMap<V>)
    requires Shaped(SPlug(dp, s), ext, lk, fm.Keys) && s.Real?
    requires (cs == s.left && s.right.Ext?) || (cs == s.right && s.left.Ext?)
    requires lk1.Keys == lk.Keys - {s.node}
    requires cs.Real? ==> cs.node in lk && cs.node in lk1 && lk1[cs.node] == lk[cs.node].(parent := ParentOf(dp))
    requires dp != [] ==> dp[0].node in lk && dp[0].node in lk1
    requires dp != [] && dp[0].SLeftOf? ==> lk1[dp[0].node] == lk[dp[0].node].(left := TopOf(cs, ext))
    requires dp != [] && dp[0].SRightOf? ==> lk1[dp[0].node] == lk[dp[0].node].(right := TopOf(cs, ext))
    requires forall n :: n in lk1 && n != TopOf(cs, ext) && n != ParentOf(dp) ==> lk1[n] == lk[n]
    ensures Linked(SPlug(dp, cs), null, ext, lk1)
  {
    var x := s.node;
    SplicedChild(dp, s, cs, ext, lk, lk1, fm);
    Focus(dp, s, ext, lk, fm);
    UpperApart(dp, x, ext, lk);
    PlugReplace(dp, s, cs, ext, lk, lk1);
  }

  /**
   * The links deleteLeaf and deleteUnary leave (AVLTree.java:304-341): the child c, when
   * real, points up to x's parent p, p points down to c on x's side, and x is forgotten.
   */
  ghost function Spliced<V>(lk: LinkMap<V>, x: AvlNode<V>, c: AvlNode<V>, p: AvlNode?<V>, ext: AvlNode<V>): LinkMap<V>
  {
    var lk0 := if c != ext && c in lk then lk[c := lk[c].(parent := p)] else lk;
    var lk1 := if p != null && p in lk0 then
        lk0[p := if lk0[p].left == x then lk0[p].(left := c) else lk0[p].(right := c)]
      else lk0;
    lk1 - {x}
  }

  /** The objects left once x is removed are those of the new shape. */
  lemma {:induction false} SplicedKeys<V>(dp: seq<SFrame<V>>, s: Shape<V>, cs: Shape<V>, ext: AvlNode<V>,
                                          lk: LinkMap<V>, lk1: LinkMap<V>, fm: FieldMap<V>)
    requires Shaped(SPlug(dp, s), ext, lk, fm.Keys) && s.Real?
    requires (cs == s.left && s.right.Ext?) || (cs == s.right && s.left.Ext?)
    requires lk1.Keys == lk.Keys - {s.node}
    ensures ext !in lk1 && lk1.Keys == Objs(SPlug(dp, cs)) == (fm - {s.node}).Keys
  {
    SplicedFacts(dp, s, cs, ext, lk, fm);
    Focus(dp, s, ext, lk, fm);
    PlugObjs(dp, s);
    PlugObjs(dp, cs);
    assert Objs(s) == Objs(cs) + {s.node};
  }

  /**
   * Removing the top x of s, which has at most the one real child cs, leaves a wired tree
   * with cs in x's place once the links lk1 are those of deleteLeaf and deleteUnary
   * (AVLTree.java:304-341): x is forgotten, cs (when real) points up to x's parent, that
   * parent points down to cs's top on x's side, and every other node keeps its links.
   */
  lemma {:induction false} SplicedWired<V>(dp: seq<SFrame<V>>, s: Shape<V>, cs: Shape<V>, ext: AvlNode<V>,
                                           lk: LinkMap<V>, lk1: LinkMap<V>, fm: FieldMap<V>)
    requires Shaped(SPlug(dp, s), ext, lk, fm.Keys) && s.Real?
    requires (cs == s.left && s.right.Ext?) || (cs == s.right && s.left.Ext?)
    requires lk1.Keys == lk.Keys - {s.node}
    requires cs.Real? ==> cs.node in lk && cs.node in lk1 && lk1[cs.node] == lk[cs.node].(parent := ParentOf(dp))
    requires dp != [] ==> dp[0].node in lk && dp[0].node in lk1
    requires dp != [] && dp[0].SLeftOf? ==> lk1[dp[0].node] == lk[dp[0].node].(left := TopOf(cs, ext))
    requires dp != [] && dp[0].SRightOf? ==> lk1[dp[0].node] == lk[dp[0].node].(right := TopOf(cs, ext))
    requires forall n :: n in lk1 && n != TopOf(cs, ext) && n != ParentOf(dp) ==> lk1[n] == lk[n]
    ensures Shaped(SPlug(dp, cs), ext, lk1, (fm - {s.node}).Keys)
  {
    SplicedRelinked(dp, s, cs, ext, lk, lk1, fm);
    SplicedKeys(dp, s, cs, ext, lk, lk1, fm);
  }

  /** Spliced, step by step as deleteUnary takes them. */
  lemma SplicedSteps<V>(lk: LinkMap<V>, x: AvlNode<V>, c: AvlNode<V>, p: AvlNode?<V>, ext: AvlNode<V>,
                        lk0: LinkMap<V>, lk1: LinkMap<V>)
    requires c != ext && c in lk && lk0 == lk[c := lk[c].(parent := p)]
    requires p != null ==> p in lk0 && lk1 == lk0[p := if lk0[p].left == x then lk0[p].(left := c) else lk0[p].(right := c)]
    requires p == null ==> lk1 == lk0
    ensures lk1 - {x} == Spliced(lk, x, c, p, ext)
  {
  }

  /** The links Spliced leaves wire the tree with cs in the place of x. */
  lemma {:induction false} SplicedShaped<V>(dp: seq<SFrame<V>>, s: Shape<V>, cs: Shape<V>, ext: AvlNode<V>,
                                            lk: LinkMap<V>, fm: FieldMap<V>)
    requires Shaped(SPlug(dp, s), ext, lk, fm.Keys) && s.Real?
    requires (cs == s.left && s.right.Ext?) || (cs == s.right && s.left.Ext?)
    ensures Shaped(SPlug(dp, cs), ext, Spliced(lk, s.node, TopOf(cs, ext), ParentOf(dp), ext), (fm - {s.node}).Keys)
  {
    var x, c, p := s.node, TopOf(cs, ext), ParentOf(dp);
    SplicedFacts(dp, s, cs, ext, lk, fm);
    Focus(dp, s, ext, lk, fm);
    assert ext !in lk;
    var lk0 := if c != ext && c in lk then lk[c := lk[c].(parent := p)] else lk;
    assert cs.Real? <==> c != ext;
    assert p != null ==> p in lk0 && p != c && lk0[p] == lk[p];
    var lk1 := Spliced(lk, x, c, p, ext);
    assert lk1.Keys == lk.Keys - {x};
    assert forall n :: n in lk1 && n != c && n != p ==> lk1[n] == lk[n];
    SplicedWired(dp, s, cs, ext, lk, lk1, fm);
  }

  /** Forgetting the fields of the removed node x changes neither the path nor the subtree
      that takes its place. */
  lemma {:induction false} SplicedValues<V>(dp: seq<SFrame<V>>, cs: Shape<V>, x: AvlNode<V>, fm: FieldMap<V>)
    requires x !in PathObjs(dp) && x !in Objs(cs)
    ensures AbsPath(dp, fm - {x}) == AbsPath(dp, fm) && Abs(cs, fm - {x}) == Abs(cs, fm)
  {
    AbsPathAgree(dp, fm, fm - {x});
    AbsAgree(cs, fm, fm - {x});
  }

  /** The descent of treeSearch on shapes: the subtree it stops at and the frames above it. */
  ghost function SLocate<V>(s: Shape<V>, k: int, sp: seq<SFrame<V>>, fm: FieldMap<V>): (r: (Shape<V>, seq<SFrame<V>>))
    ensures SPlug(r.1, r.0) == SPlug(sp, s)
  {
    match s
    case Ext => (s, sp)
    case Real(l, n, rt) =>
      if n !in fm || fm[n].key == k then (s, sp)
      else if k < fm[n].key then
        assert ([SLeftOf(n, rt)] + sp)[1..] == sp;
        SLocate(l, k, [SLeftOf(n, rt)] + sp, fm)
      else
        assert ([SRightOf(l, n)] + sp)[1..] == sp;
        SLocate(rt, k, [SRightOf(l, n)] + sp, fm)
  }

  /** The value path one frame further out. */
  lemma AbsPathPush<V>(f: SFrame<V>, sp: seq<SFrame<V>>, fm: FieldMap<V>)
    requires f.node in fm
    ensures AbsPath([f] + sp, fm) == [AbsFrame(f, fm)] + AbsPath(sp, fm)
    ensures PathObjs([f] + sp) == FrameObjs(f) + PathObjs(sp)
  {
    assert ([f] + sp)[1..] == sp;
  }

  /** The descent on shapes is the descent of AvlOps.Locate on the value tree. */
  lemma {:induction false} SLocateAbs<V>(s: Shape<V>, k: int, sp: seq<SFrame<V>>, fm: FieldMap<V>)
    requires Objs(s) <= fm.Keys && PathObjs(sp) <= fm.Keys
    ensures var r := SLocate(s, k, sp, fm);
      && Locate(Abs(s, fm), k, AbsPath(sp, fm)).0 == Abs(r.0, fm)
      && Locate(Abs(s, fm), k, AbsPath(sp, fm)).1 == AbsPath(r.1, fm)
      && Objs(r.0) <= fm.Keys && PathObjs(r.1) <= fm.Keys
  {
    match s
    case Ext =>
    case Real(l, n, rt) =>
      if fm[n].key != k {
        if k < fm[n].key {
          AbsPathPush(SLeftOf(n, rt), sp, fm);
          SLocateAbs(l, k, [SLeftOf(n, rt)] + sp, fm);
        } else {
          AbsPathPush(SRightOf(l, n), sp, fm);
          SLocateAbs(rt, k, [SRightOf(l, n)] + sp, fm);
        }
      }
  }

  /** The descent of minSubtree on shapes: the leftmost node of s and the frames above it. */
  ghost function SMin<V>(s: Shape<V>, sp: seq<SFrame<V>>): (r: (Shape<V>, seq<SFrame<V>>))
    requires s.Real?
    ensures r.0.Real? && r.0.left.Ext? && SPlug(r.1, r.0) == SPlug(sp, s)
    decreases s
  {
    if s.left.Ext? then (s, sp)
    else
      assert ([SLeftOf(s.node, s.right)] + sp)[1..] == sp;
      SMin(s.left, [SLeftOf(s.node, s.right)] + sp)
  }

  /** The descent on shapes is the descent of AvlOps.MinSubtree on the value tree. */
  lemma {:induction false} SMinAbs<V>(s: Shape<V>, sp: seq<SFrame<V>>, fm: FieldMap<V>)
    requires s.Real? && Objs(s) <= fm.Keys && PathObjs(sp) <= fm.Keys
    ensures Abs(s, fm).Node?
    ensures var r := SMin(s, sp);
      && MinSubtree(Abs(s, fm), AbsPath(sp, fm)).0 == Abs(r.0, fm)
      && MinSubtree(Abs(s, fm), AbsPath(sp, fm)).1 == AbsPath(r.1, fm)
      && Objs(r.0) <= fm.Keys && PathObjs(r.1) <= fm.Keys
    decreases s
  {
    if s.left.Real? {
      AbsPathPush(SLeftOf(s.node, s.right), sp, fm);
      SMinAbs(s.left, [SLeftOf(s.node, s.right)] + sp, fm);
    }
  }

  /** The descent of minSubtree does not depend on the frames above where it starts. */
  lemma {:induction false} SMinShift<V>(s: Shape<V>, q: seq<SFrame<V>>, p: seq<SFrame<V>>)
    requires s.Real?
    ensures SMin(s, q + p).0 == SMin(s, q).0 && SMin(s, q + p).1 == SMin(s, q).1 + p
    decreases s
  {
    if s.left.Real? {
      var f := [SLeftOf(s.node, s.right)];
      assert f + (q + p) == (f + q) + p;
      SMinShift(s.left, f + q, p);
    }
  }

  /** The value path of two paths one after the other. */
  lemma {:induction false} AbsPathAppend<V>(p: seq<SFrame<V>>, q: seq<SFrame<V>>, fm: FieldMap<V>)
    requires PathObjs(p) <= fm.Keys
    ensures AbsPath(p + q, fm) == AbsPath(p, fm) + AbsPath(q, fm)
    ensures PathObjs(p + q) == PathObjs(p) + PathObjs(q)
    decreases |p|
  {
    if p == [] {
      assert p + q == q;
    } else {
      assert (p + q)[1..] == p[1..] + q && (p + q)[0] == p[0];
      assert p[0].node in FrameObjs(p[0]);
      AbsPathAppend(p[1..], q, fm);
      assert AbsPath(p + q, fm) == [AbsFrame(p[0], fm)] + AbsPath(p[1..] + q, fm);
      assert AbsPath(p, fm) == [AbsFrame(p[0], fm)] + AbsPath(p[1..], fm);
    }
  }

  /**
   * One step of the climb of successor (AVLTree.java:357-360): the ancestor holds the
   * subtree on its right exactly when its frame is a RightOf frame, and the first ancestor
   * reached from its left side is then found further up.
   */
  lemma {:induction false} SuccessorStep<V>(q: seq<SFrame<V>>, t: Shape<V>, ext: AvlNode<V>, lk: LinkMap<V>, fm: FieldMap<V>)
    requires Shaped(SPlug(q, t), ext, lk, fm.Keys) && t.Real? && q != []
    ensures q[0].node in lk && q[0].node in fm && t.node in lk && lk[t.node].parent == q[0].node
    ensures lk[q[0].node].right == t.node <==> q[0].SRightOf?
    ensures q[0].SRightOf? ==> FirstLeftOf(AbsPath(q, fm)) == FirstLeftOf(AbsPath(q[1..], fm))
    ensures q[0].SLeftOf? ==> FirstLeftOf(AbsPath(q, fm)) == Some((fm[q[0].node].key, fm[q[0].node].info))
    ensures SPlug(q[1..], SAttach(q[0], t)) == SPlug(q, t)
    ensures SAttach(q[0], t).Real? && SAttach(q[0], t).node == q[0].node
  {
    Focus(q, t, ext, lk, fm);
    ParentHolds(q, t, ext, lk);
    assert q[0].node in PathObjs(q);
    AbsPathPush(q[0], q[1..], fm);
    assert [q[0]] + q[1..] == q;
  }

  /** Fields that differ at most at x agree on every set of objects without x. */
  lemma AgreeBut<V>(S: set<AvlNode<V>>, x: AvlNode<V>, fm0: FieldMap<V>, fm1: FieldMap<V>)
    requires x !in S && fm1.Keys == fm0.Keys
    requires forall n :: n in fm1 && n != x ==> fm1[n] == fm0[n]
    ensures AgreeOn(S, fm0, fm1)
  {
  }

  /** What copying the successor's key and info into x (fields fm0 before, fm1 after) leaves
      unchanged: everything but x's own entry. */
  lemma {:induction false} BinaryParts<V>(sp: seq<SFrame<V>>, s: Shape<V>, ext: AvlNode<V>, lk: LinkMap<V>,
                                          fm0: FieldMap<V>, fm1: FieldMap<V>)
    requires Shaped(SPlug(sp, s), ext, lk, fm0.Keys) && s.Real? && s.left.Real? && s.right.Real?
    requires fm1.Keys == fm0.Keys
    requires forall n :: n in fm1 && n != s.node ==> fm1[n] == fm0[n]
    ensures var ms, mq0 := SMin(s.right, []).0, SMin(s.right, []).1;
      && s.node in fm0 && s.left.node in fm0 && ms.node in fm0 && PathObjs(mq0) <= fm0.Keys
      && Abs(s, fm0) == Node(Abs(s.left, fm0), fm0[s.node].key, fm0[s.node].info, fm0[s.node].height, Abs(s.right, fm0))
      && Abs(s.right, fm0).Node? && MinSubtree(Abs(s.right, fm0), []).0 == Abs(ms, fm0)
      && MinSubtree(Abs(s.right, fm0), []).1 == AbsPath(mq0, fm0)
      && Abs(s.left, fm1) == Abs(s.left, fm0) && Abs(ms.right, fm1) == Abs(ms.right, fm0)
      && AbsPath(sp, fm1) == AbsPath(sp, fm0) && AbsPath(mq0, fm1) == AbsPath(mq0, fm0)
  {
    var x := s.node;
    Focus(sp, s, ext, lk, fm0);
    var ms, mq0 := SMin(s.right, []).0, SMin(s.right, []).1;
    SMinAbs(s.right, [], fm0);
    PlugObjs(mq0, ms);
    assert Objs(SPlug(mq0, ms)) == Objs(s.right);
    AgreeBut(Objs(s.left), x, fm0, fm1);
    AgreeBut(Objs(ms.right), x, fm0, fm1);
    AgreeBut(PathObjs(sp), x, fm0, fm1);
    AgreeBut(PathObjs(mq0), x, fm0, fm1);
    AbsAgree(s.left, fm0, fm1);
    AbsAgree(ms.right, fm0, fm1);
    AbsPathAgree(sp, fm0, fm1);
    AbsPathAgree(mq0, fm0, fm1);
    assert ms.node in Objs(ms);
  }

  /**
   * The binary case of delete (AVLTree.java:266-276) in value terms: once x holds the key
   * and info of its successor m, the leftmost node of its right subtree (fm0 the fields
   * before, fm1 after), removing m where it stands, with the frames from m up to the root,
   * is what AvlUpdate.Unlink computes.
   */
  lemma {:induction false} BinaryUnlink<V>(sp: seq<SFrame<V>>, s: Shape<V>, fm0: FieldMap<V>, fm1: FieldMap<V>)
    requires s.Real? && s.left.Real? && s.right.Real?
    requires var ms, mq0 := SMin(s.right, []).0, SMin(s.right, []).1;
      && s.node in fm0 && s.left.node in fm0 && ms.node in fm0 && PathObjs(mq0) <= fm1.Keys && s.node in fm1
      && Abs(s, fm0) == Node(Abs(s.left, fm0), fm0[s.node].key, fm0[s.node].info, fm0[s.node].height, Abs(s.right, fm0))
      && Abs(s.right, fm0).Node? && MinSubtree(Abs(s.right, fm0), []).0 == Abs(ms, fm0)
      && MinSubtree(Abs(s.right, fm0), []).1 == AbsPath(mq0, fm0)
      && Abs(s.left, fm1) == Abs(s.left, fm0) && Abs(ms.right, fm1) == Abs(ms.right, fm0)
      && AbsPath(sp, fm1) == AbsPath(sp, fm0) && AbsPath(mq0, fm1) == AbsPath(mq0, fm0)
      && fm1[s.node] == Fields(fm0[ms.node].key, fm0[ms.node].info, fm0[s.node].height)
    ensures Abs(s, fm0).Node?
    ensures var f := SRightOf(s.left, s.node);
      var ms := SMin(s.right, []).0;
      var mq := SMin(s.right, []).1 + ([f] + sp);
      && SMin(s.right, [f] + sp).0 == ms && SMin(s.right, [f] + sp).1 == mq
      && Unlink(Abs(s, fm0), AbsPath(sp, fm0)).0 == Abs(ms.right, fm1)
      && Unlink(Abs(s, fm0), AbsPath(sp, fm0)).1 == AbsPath(mq, fm1)
  {
    var x, f := s.node, SRightOf(s.left, s.node);
    var ms, mq0 := SMin(s.right, []).0, SMin(s.right, []).1;
    SMinShift(s.right, [], [f] + sp);
    assert [] + ([f] + sp) == [f] + sp;
    AbsPathAppend(mq0, [f] + sp, fm1);
    AbsPathPush(f, sp, fm1);
    var suc := Abs(ms, fm0);
    assert Abs(s.left, fm0).Node? && suc.right == Abs(ms.right, fm0);
    assert suc.key == fm0[ms.node].key && suc.info == fm0[ms.node].info;
    UnlinkBinaryCase(Abs(s, fm0), AbsPath(sp, fm0));
    assert AbsFrame(f, fm1) == RightOf(Abs(s.left, fm0), suc.key, suc.info, fm0[x].height);
  }

  /** AvlUpdate.Unlink on a node with two children, with the frames grouped from the right. */
  lemma UnlinkBinaryCase<V>(t: Tree<V>, path: seq<Frame<V>>)
    requires t.Node? && t.left.Node? && t.right.Node?
    ensures var (suc, sq) := MinSubtree(t.right, []);
      Unlink(t, path) == (suc.right, sq + ([RightOf(t.left, suc.key, suc.info, t.height)] + path))
  {
    var (suc, sq) := MinSubtree(t.right, []);
    var g := RightOf(t.left, suc.key, suc.info, t.height);
    assert sq + [g] + path == sq + ([g] + path);
  }

  /** BinaryParts and BinaryUnlink together, for x's fields overwritten with those of m. */
  lemma BinaryCopy<V>(sp: seq<SFrame<V>>, s: Shape<V>, ext: AvlNode<V>, lk: LinkMap<V>,
                      fm0: FieldMap<V>, fm1: FieldMap<V>)
    requires Shaped(SPlug(sp, s), ext, lk, fm0.Keys) && s.Real? && s.left.Real? && s.right.Real?
    requires var m := SMin(s.right, []).0.node;
      && s.node in fm0 && m in fm0
      && fm1 == fm0[s.node := Fields(fm0[m].key, fm0[m].info, fm0[s.node].height)]
    ensures Abs(s, fm0).Node?
    ensures var f := SRightOf(s.left, s.node);
      var ms := SMin(s.right, []).0;
      var mq := SMin(s.right, []).1 + ([f] + sp);
      && SMin(s.right, [f] + sp).0 == ms && SMin(s.right, [f] + sp).1 == mq
      && Unlink(Abs(s, fm0), AbsPath(sp, fm0)).0 == Abs(ms.right, fm1)
      && Unlink(Abs(s, fm0), AbsPath(sp, fm0)).1 == AbsPath(mq, fm1)
  {
    BinaryParts(sp, s, ext, lk, fm0, fm1);
    BinaryUnlink(sp, s, fm0, fm1);
  }

  /** Setting x's info and then its key is one update of x's entry. */
  lemma CopiedFields<V>(fm0: FieldMap<V>, x: AvlNode<V>, k: int, v: V, fm1: FieldMap<V>, fm2: FieldMap<V>)
    requires x in fm0 && fm1 == fm0[x := fm0[x].(info := v)] && fm2 == fm1[x := fm1[x].(key := k)]
    ensures fm2 == fm0[x := Fields(k, v, fm0[x].height)]
  {
  }

  /** Deleting a present key leaves a valid tree with one node less. */
  lemma DeleteFound<V>(t: Tree<V>, k: int)
    requires AvlCore.Valid(t) && Locate(t, k, []).0.Node?
    ensures Sane(t) && AvlCore.Valid(AvlUpdate.Delete(t, k).0) && Size(AvlUpdate.Delete(t, k).0) == Size(t) - 1
  {
    DeleteCorrect(t, k);
    LocateFinds(t, k);
  }

  /** Node lists whose entries match two symmetric orders, joined around x, match the
      symmetric order of the tree with x between them. */
  lemma TraversalJoin<V>(left: seq<AvlNode<V>>, x: AvlNode<V>, right: seq<AvlNode<V>>, fm: FieldMap<V>,
                         sl: seq<(int, V)>, sr: seq<(int, V)>)
    requires |left| == |sl| && |right| == |sr| && x in fm
    requires forall i :: 0 <= i < |left| ==> left[i] in fm && (fm[left[i]].key, fm[left[i]].info) == sl[i]
    requires forall i :: 0 <= i < |right| ==> right[i] in fm && (fm[right[i]].key, fm[right[i]].info) == sr[i]
    ensures var r, e := left + [x] + right, sl + [(fm[x].key, fm[x].info)] + sr;
      |r| == |e| && forall i :: 0 <= i < |r| ==> r[i] in fm && (fm[r[i]].key, fm[r[i]].info) == e[i]
  {
    var r, e := left + [x] + right, sl + [(fm[x].key, fm[x].info)] + sr;
    forall i | 0 <= i < |r| ensures r[i] in fm && (fm[r[i]].key, fm[r[i]].info) == e[i] {
      if i > |left| {
        assert r[i] == right[i - |left| - 1] && e[i] == sr[i - |left| - 1];
      }
    }
  }

  class AvlTree<V(0)> {
    var root: AvlNode?<V>
    var nodes: int
    /** The shared external leaf: key -1, height -1, flagged external (AVLTree.java:43-50).
        The source assigns it once, in the constructor. */
    const externalLeaf: AvlNode<V>

    /** The shape of the real nodes, and the ghost record of their links and fields. */
    ghost var shape: Shape<V>
    ghost var links: LinkMap<V>
    ghost var fields: FieldMap<V>

    /** The heap holds the recorded links and fields, the recorded links form `shape`,
        rooted at `root`, and the external leaf keeps its key, height and flag. */
    ghost predicate Wired()
      reads this, externalLeaf
      reads links.Keys`left, links.Keys`right, links.Keys`parent, links.Keys`isExternal
      reads fields.Keys`key, fields.Keys`info, fields.Keys`height
    {
      && HoldsLinks(links) && HoldsFields(fields) && ExtOk()
      && Shaped(shape, externalLeaf, links, fields.Keys)
      && root == (if shape.Ext? then null else shape.node)
    }

    /** The external leaf keeps its flag, its height -1 and its key -1. */
    ghost predicate ExtOk()
      reads externalLeaf
    {
      externalLeaf.isExternal && externalLeaf.height == -1 && externalLeaf.key == -1
    }

    /** The value tree the heap holds. */
    ghost function Model(): Tree<V>
      reads this
    {
      Abs(shape, fields)
    }

    /** The invariant between public operations: a valid AVL search tree whose node count
        is `nodes`. */
    ghost predicate Valid()
      reads this, externalLeaf
      reads links.Keys`left, links.Keys`right, links.Keys`parent, links.Keys`isExternal
      reads fields.Keys`key, fields.Keys`info, fields.Keys`height
    {
      Wired() && AvlCore.Valid(Model()) && nodes == AvlCore.Size(Model())
    }

    /** AVLTree() (AVLTree.java:43-50): an empty tree and a fresh external leaf. */
    constructor ()
      ensures Valid() && Model() == Leaf && nodes == 0 && root == null
    {
      var blank: V := *;
      var e := new AvlNode(blank, -1);
      e.isExternal := true;
      e.height := -1;
      externalLeaf := e;
      root := null;
      nodes := 0;
      shape := Ext;
      links := map[];
      fields := map[];
    }

    /** updateHeight (AVLTree.java:520-524): one more than the larger child height; reports
        whether the stored height changed. */
    method UpdateHeight(n: AvlNode<V>, ghost p: seq<SFrame<V>>, ghost s: Shape<V>) returns (changed: bool)
      requires Wired() && shape == SPlug(p, s) && s.Real? && s.node == n
      modifies this`fields, n`height
      ensures Wired() && shape == old(shape) && links == old(links) && root == old(root) && nodes == old(nodes)
      ensures fields.Keys == old(fields.Keys)
      ensures old(Abs(s, fields)).Node? && (Abs(s, fields), changed) == AvlCore.UpdateHeight(old(Abs(s, fields)))
      ensures AbsPath(p, fields) == old(AbsPath(p, fields))
    {
      ChildHeights(p, s, externalLeaf, links, fields);
      var formerHeight := n.height;
      var h := AvlCore.Max(n.left.height, n.right.height) + 1;
      FieldsSet(p, s, externalLeaf, links, fields, fields[n].(height := h));
      SetHeight(n, h);
      changed := formerHeight != h;
    }

    /** setHeight of AVLNode (AVLTree.java:755-757) on a recorded node. */
    method SetHeight(n: AvlNode<V>, h: int)
      requires HoldsLinks(links) && HoldsFields(fields) && ExtOk() && n in fields && externalLeaf !in fields
      modifies n`height, this`fields
      ensures HoldsLinks(links) && HoldsFields(fields) && ExtOk()
      ensures fields == old(fields)[n := old(fields)[n].(height := h)]
      ensures links == old(links) && shape == old(shape) && root == old(root) && nodes == old(nodes)
    {
      n.height := h;
      fields := fields[n := fields[n].(height := h)];
    }

    /** getBalance (AVLTree.java:589-593): left height minus right height, 0 for null and
        for the external leaf. */
    method GetBalance(node: AvlNode?<V>, ghost p: seq<SFrame<V>>, ghost s: Shape<V>) returns (b: int)
      requires Wired() && shape == SPlug(p, s)
      requires node != null ==> node == TopOf(s, externalLeaf)
      ensures b == if node == null then 0 else Balance(Abs(s, fields))
    {
      if node == null || node == externalLeaf {
        return 0;
      }
      Focus(p, s, externalLeaf, links, fields);
      return node.left.height - node.right.height;
    }

    /** setLeft, setRight and setParent of AVLNode (AVLTree.java:704-707, 718-721, 737-739) on a recorded node,
        with the record kept in step. */
    method SetLeft(n: AvlNode<V>, v: AvlNode?<V>)
      requires HoldsLinks(links) && HoldsFields(fields) && ExtOk() && n in links && externalLeaf !in links
      modifies n`left, this`links
      ensures HoldsLinks(links) && HoldsFields(fields) && ExtOk()
      ensures links == old(links)[n := old(links)[n].(left := v)]
      ensures fields == old(fields) && shape == old(shape) && root == old(root) && nodes == old(nodes)
    {
      n.left := v;
      links := links[n := links[n].(left := v)];
    }

    method SetRight(n: AvlNode<V>, v: AvlNode?<V>)
      requires HoldsLinks(links) && HoldsFields(fields) && ExtOk() && n in links && externalLeaf !in links
      modifies n`right, this`links
      ensures HoldsLinks(links) && HoldsFields(fields) && ExtOk()
      ensures links == old(links)[n := old(links)[n].(right := v)]
      ensures fields == old(fields) && shape == old(shape) && root == old(root) && nodes == old(nodes)
    {
      n.right := v;
      links := links[n := links[n].(right := v)];
    }

    method SetParent(n: AvlNode<V>, v: AvlNode?<V>)
      requires HoldsLinks(links) && HoldsFields(fields) && ExtOk() && n in links && externalLeaf !in links
      modifies n`parent, this`links
      ensures HoldsLinks(links) && HoldsFields(fields) && ExtOk()
      ensures links == old(links)[n := old(links)[n].(parent := v)]
      ensures fields == old(fields) && shape == old(shape) && root == old(root) && nodes == old(nodes)
    {
      n.parent := v;
      links := links[n := links[n].(parent := v)];
    }

    /**
     * updateParentsAfterRotation (AVLTree.java:540-547): newRoot takes oldRoot's parent,
     * oldRoot hangs under newRoot, and the link that pointed to oldRoot (the root field, or
     * the parent's child on the side the keys say) points to newRoot.
     */
    method UpdateParentsAfterRotation(newRoot: AvlNode<V>, oldRoot: AvlNode<V>)
      requires HoldsLinks(links) && HoldsFields(fields) && ExtOk() && externalLeaf !in links
      requires newRoot in links && oldRoot in links && newRoot != oldRoot
      requires var p := links[oldRoot].parent;
        p != null ==>
          && p in links && p != newRoot && p != oldRoot
          && (links[p].left == oldRoot || links[p].right == oldRoot)
          && p in fields && newRoot in fields
          && (links[p].left == oldRoot <==> fields[p].key > fields[newRoot].key)
      modifies this`root, this`links, newRoot`parent, oldRoot`parent
      modifies {links[oldRoot].parent}`left, {links[oldRoot].parent}`right
      ensures HoldsLinks(links) && HoldsFields(fields) && ExtOk()
      ensures links == ParentsRelinked(old(links), newRoot, oldRoot)
      ensures fields == old(fields) && shape == old(shape) && nodes == old(nodes)
      ensures root == if old(links[oldRoot].parent) == null then newRoot else old(root)
    {
      SetParent(newRoot, oldRoot.parent);
      SetParent(oldRoot, newRoot);
      if newRoot.parent == null {
        SetRoot(newRoot);
      } else if newRoot.parent.key > newRoot.key {
        SetLeft(newRoot.parent, newRoot);
      } else {
        SetRight(newRoot.parent, newRoot);
      }
    }

    /**
     * The pointer half of rotateRight (AVLTree.java:574-581): oldRoot's left child becomes
     * the top of the subtree, oldRoot hangs as its right child and takes its former right
     * child z as its left. As written the source never sets the parent of z
     * (AVLTree.java:576-579), which the rotate test expects to be oldRoot
     * (AVLTreeTest.java:76); here it is set.
     */
    method RotateRightLinks(oldRoot: AvlNode<V>) returns (newRoot: AvlNode<V>)
      requires HoldsLinks(links) && HoldsFields(fields) && ExtOk() && externalLeaf !in links
      requires oldRoot in links && links[oldRoot].left != null && links[oldRoot].left in links
      requires var y, p := links[oldRoot].left, links[oldRoot].parent; var zn := links[y].right;
        && y != oldRoot && zn != oldRoot && zn != y && (zn != externalLeaf ==> zn != null && zn in links)
        && (p != null ==>
              p in links && p != oldRoot && p != y && p != zn &&
              (links[p].left == oldRoot || links[p].right == oldRoot) &&
              p in fields && y in fields &&
              (links[p].left == oldRoot <==> fields[p].key > fields[y].key))
      modifies this`root, this`links, links.Keys`left, links.Keys`right, links.Keys`parent
      ensures HoldsLinks(links) && HoldsFields(fields) && ExtOk()
      ensures links == RelinkedRight(old(links), oldRoot, externalLeaf)
      ensures fields == old(fields) && shape == old(shape) && nodes == old(nodes)
      ensures newRoot == old(links[oldRoot].left)
      ensures root == if old(links[oldRoot].parent) == null then newRoot else old(root)
    {
      newRoot := oldRoot.left;
      var z := newRoot.right;
      SetRight(newRoot, oldRoot);
      SetLeft(oldRoot, z);
      if z != externalLeaf {
        SetParent(z, oldRoot);
      }
      UpdateParentsAfterRotation(newRoot, oldRoot);
    }

    /** The pointer half of rotateLeft (AVLTree.java:555-562), the mirror image; the parent
        of z is set here too (AVLTree.java:557-560). */
    method RotateLeftLinks(oldRoot: AvlNode<V>) returns (newRoot: AvlNode<V>)
      requires HoldsLinks(links) && HoldsFields(fields) && ExtOk() && externalLeaf !in links
      requires oldRoot in links && links[oldRoot].right != null && links[oldRoot].right in links
      requires var y, p := links[oldRoot].right, links[oldRoot].parent; var zn := links[y].left;
        && y != oldRoot && zn != oldRoot && zn != y && (zn != externalLeaf ==> zn != null && zn in links)
        && (p != null ==>
              p in links && p != oldRoot && p != y && p != zn &&
              (links[p].left == oldRoot || links[p].right == oldRoot) &&
              p in fields && y in fields &&
              (links[p].left == oldRoot <==> fields[p].key > fields[y].key))
      modifies this`root, this`links, links.Keys`left, links.Keys`right, links.Keys`parent
      ensures HoldsLinks(links) && HoldsFields(fields) && ExtOk()
      ensures links == RelinkedLeft(old(links), oldRoot, externalLeaf)
      ensures fields == old(fields) && shape == old(shape) && nodes == old(nodes)
      ensures newRoot == old(links[oldRoot].right)
      ensures root == if old(links[oldRoot].parent) == null then newRoot else old(root)
    {
      newRoot := oldRoot.right;
      var z := newRoot.left;
      SetLeft(newRoot, oldRoot);
      SetRight(oldRoot, z);
      if z != externalLeaf {
        SetParent(z, oldRoot);
      }
      UpdateParentsAfterRotation(newRoot, oldRoot);
    }
    /** setRoot (AVLTree.java:507-509). */
    method SetRoot(newRoot: AvlNode?<V>)
      requires HoldsLinks(links) && HoldsFields(fields) && ExtOk()
      modifies this`root
      ensures HoldsLinks(links) && HoldsFields(fields) && ExtOk() && root == newRoot
      ensures links == old(links) && fields == old(fields) && shape == old(shape) && nodes == old(nodes)
    {
      root := newRoot;
    }

    /** Records a new shape, changing nothing else. */
    ghost method SetShape(s: Shape<V>)
      requires HoldsLinks(links) && HoldsFields(fields) && ExtOk()
      modifies this`shape
      ensures HoldsLinks(links) && HoldsFields(fields) && ExtOk() && shape == s
      ensures links == old(links) && fields == old(fields) && root == old(root) && nodes == old(nodes)
    {
      shape := s;
    }

    /** The relinking of rotateRight inside a wired tree holding s at p: the shape becomes
        the rotated one and no recorded field changes. */
    method RelinkRight(oldRoot: AvlNode<V>, ghost p: seq<SFrame<V>>, ghost s: Shape<V>)
      returns (newRoot: AvlNode<V>)
      requires Wired() && shape == SPlug(p, s)
      requires s.Real? && s.node == oldRoot && s.left.Real? && KeySide(p, s.left.node, fields)
      modifies this`root, this`links, this`shape, Objs(shape)
      ensures Wired() && shape == SPlug(p, Real(s.left.left, s.left.node, Real(s.left.right, oldRoot, s.right)))
      ensures newRoot == s.left.node && oldRoot in fields && newRoot in fields
      ensures fields == old(fields) && nodes == old(nodes)
    {
      RotateRightReady(p, s, externalLeaf, links, fields);
      newRoot := RotateRightLinks(oldRoot);
      SetShape(SPlug(p, Real(s.left.left, s.left.node, Real(s.left.right, oldRoot, s.right))));
    }

    /** The relinking of rotateLeft, the mirror image of RelinkRight. */
    method RelinkLeft(oldRoot: AvlNode<V>, ghost p: seq<SFrame<V>>, ghost s: Shape<V>)
      returns (newRoot: AvlNode<V>)
      requires Wired() && shape == SPlug(p, s)
      requires s.Real? && s.node == oldRoot && s.right.Real? && KeySide(p, s.right.node, fields)
      modifies this`root, this`links, this`shape, Objs(shape)
      ensures Wired() && shape == SPlug(p, Real(Real(s.left, oldRoot, s.right.left), s.right.node, s.right.right))
      ensures newRoot == s.right.node && oldRoot in fields && newRoot in fields
      ensures fields == old(fields) && nodes == old(nodes)
    {
      RotateLeftReady(p, s, externalLeaf, links, fields);
      newRoot := RotateLeftLinks(oldRoot);
      SetShape(SPlug(p, Real(Real(s.left, oldRoot, s.right.left), s.right.node, s.right.right)));
    }

    /**
     * rotateRight (AVLTree.java:574-586) at a node whose left child is real, inside a wired
     * tree: the relinking, then the heights of oldRoot and of newRoot. The subtree now holds
     * AvlCore.RotateRight of what it held, and its ancestors keep their values. Keys are
     * compared only to find oldRoot's side under its parent (AVLTree.java:545), so the tree
     * need not be a search tree; KeySide asks that this comparison finds that side, and at
     * the root it asks nothing.
     */
    method RotateRight(oldRoot: AvlNode<V>, ghost p: seq<SFrame<V>>, ghost s: Shape<V>)
      returns (newRoot: AvlNode<V>, ghost s1: Shape<V>)
      requires Wired() && shape == SPlug(p, s)
      requires s.Real? && s.node == oldRoot && s.left.Real? && KeySide(p, s.left.node, fields)
      modifies this`root, this`links, this`fields, this`shape, Objs(shape)
      ensures Wired() && shape == SPlug(p, s1) && fields.Keys == old(fields.Keys) && nodes == old(nodes)
      ensures s1 == Real(s.left.left, s.left.node, Real(s.left.right, oldRoot, s.right)) && newRoot == s.left.node
      ensures old(Abs(s, fields)).Node? && old(Abs(s, fields)).left.Node?
      ensures Abs(s1, fields) == AvlCore.RotateRight(old(Abs(s, fields)))
      ensures AbsPath(p, fields) == old(AbsPath(p, fields))
    {
      ghost var Real(Real(a, y, z), x, c) := s;
      ghost var fm0 := fields;
      newRoot := RelinkRight(oldRoot, p, s);
      s1 := Real(a, y, Real(z, x, c));
      assert ([SRightOf(a, y)] + p)[1..] == p;
      var _ := UpdateHeight(oldRoot, [SRightOf(a, y)] + p, Real(z, x, c));
      ghost var fm1 := fields;
      var _ := UpdateHeight(newRoot, p, s1);
      RotateRightValues(p, a, y, z, x, c, fm0, fm1, fields);
    }

    /** rotateLeft (AVLTree.java:555-567), the mirror image of RotateRight. */
    method RotateLeft(oldRoot: AvlNode<V>, ghost p: seq<SFrame<V>>, ghost s: Shape<V>)
      returns (newRoot: AvlNode<V>, ghost s1: Shape<V>)
      requires Wired() && shape == SPlug(p, s)
      requires s.Real? && s.node == oldRoot && s.right.Real? && KeySide(p, s.right.node, fields)
      modifies this`root, this`links, this`fields, this`shape, Objs(shape)
      ensures Wired() && shape == SPlug(p, s1) && fields.Keys == old(fields.Keys) && nodes == old(nodes)
      ensures s1 == Real(Real(s.left, oldRoot, s.right.left), s.right.node, s.right.right) && newRoot == s.right.node
      ensures old(Abs(s, fields)).Node? && old(Abs(s, fields)).right.Node?
      ensures Abs(s1, fields) == AvlCore.RotateLeft(old(Abs(s, fields)))
      ensures AbsPath(p, fields) == old(AbsPath(p, fields))
    {
      ghost var Real(a, x, Real(z, y, c)) := s;
      ghost var fm0 := fields;
      newRoot := RelinkLeft(oldRoot, p, s);
      s1 := Real(Real(a, x, z), y, c);
      assert ([SLeftOf(y, c)] + p)[1..] == p;
      var _ := UpdateHeight(oldRoot, [SLeftOf(y, c)] + p, Real(a, x, z));
      ghost var fm1 := fields;
      var _ := UpdateHeight(newRoot, p, s1);
      RotateLeftValues(p, a, x, z, y, c, fm0, fm1, fields);
    }
  
    /**
     * rotate (AVLTree.java:531-538): nothing for null or the external leaf, rotateRight for
     * 'R' and rotateLeft for any other type. A rotation keeps the tree a search tree.
     */
    method Rotate(node: AvlNode?<V>, kind: char, ghost p: seq<SFrame<V>>, ghost s: Shape<V>)
      returns (newRoot: AvlNode?<V>, ghost s1: Shape<V>)
      requires Wired() && shape == SPlug(p, s) && Bst(Model())
      requires node != null ==> node == TopOf(s, externalLeaf)
      requires node != null && s.Real? ==> if kind == 'R' then s.left.Real? else s.right.Real?
      modifies this`root, this`links, this`fields, this`shape, Objs(shape)
      ensures Wired() && shape == SPlug(p, s1) && Bst(Model())
      ensures fields.Keys == old(fields.Keys) && nodes == old(nodes)
      ensures AbsPath(p, fields) == old(AbsPath(p, fields))
      ensures node == null || s.Ext? ==> newRoot == null && s1 == s && Abs(s1, fields) == old(Abs(s, fields))
      ensures node != null && s.Real? && kind == 'R' ==>
        && s1 == Real(s.left.left, s.left.node, Real(s.left.right, s.node, s.right)) && newRoot == s.left.node
        && old(Abs(s, fields)).Node? && old(Abs(s, fields)).left.Node?
        && Abs(s1, fields) == AvlCore.RotateRight(old(Abs(s, fields)))
      ensures node != null && s.Real? && kind != 'R' ==>
        && s1 == Real(Real(s.left, s.node, s.right.left), s.right.node, s.right.right) && newRoot == s.right.node
        && old(Abs(s, fields)).Node? && old(Abs(s, fields)).right.Node?
        && Abs(s1, fields) == AvlCore.RotateLeft(old(Abs(s, fields)))
    {
      if node == null || node == externalLeaf {
        Focus(p, s, externalLeaf, links, fields);
        return null, s;
      }
      ghost var lk0, fm0 := links, fields;
      if kind == 'R' {
        BstKeySide(p, s, s.left.node, externalLeaf, links, fields);
        newRoot, s1 := RotateRight(node, p, s);
      } else {
        BstKeySide(p, s, s.right.node, externalLeaf, links, fields);
        newRoot, s1 := RotateLeft(node, p, s);
      }
      Replug(p, s, s1, externalLeaf, lk0, fm0, links, fields);
    }

    /**
     * rebalance (AVLTree.java:191-229) at n, inside a search tree: a rotation to the right
     * when n is left-heavy by more than one (preceded by a rotation to the left at the left
     * child when that child is right-heavy), the mirror image when n is right-heavy, and
     * nothing otherwise. The subtree becomes what AvlCore.Rebalance computes, with the
     * count it reports; n ends up as the child on the side it was rotated down to.
     */
    method Rebalance(n: AvlNode<V>, ghost p: seq<SFrame<V>>, ghost s: Shape<V>)
      returns (counter: int, ghost s1: Shape<V>)
      requires Wired() && shape == SPlug(p, s) && Bst(Model()) && s.Real? && s.node == n
      requires var t := Abs(s, fields); t.Node? && Sane(t.left) && Sane(t.right)
      modifies this`root, this`links, this`fields, this`shape, Objs(shape)
      ensures Wired() && shape == SPlug(p, s1) && Bst(Model())
      ensures fields.Keys == old(fields.Keys) && nodes == old(nodes)
      ensures AbsPath(p, fields) == old(AbsPath(p, fields))
      ensures (Abs(s1, fields), counter) == AvlCore.Rebalance(old(Abs(s, fields)))
      ensures counter == 0 ==> s1 == s
      ensures counter != 0 && old(Balance(Abs(s, fields))) > 1 ==> s1.Real? && s1.right.Real? && s1.right.node == n
      ensures counter != 0 && old(Balance(Abs(s, fields))) < -1 ==> s1.Real? && s1.left.Real? && s1.left.node == n
    {
      ghost var t := Abs(s, fields);
      var balance := GetBalance(n, p, s);
      if balance > 1 {
        counter, s1 := RebalanceLeftHeavy(n, p, s);
      } else if balance < -1 {
        counter, s1 := RebalanceRightHeavy(n, p, s);
      } else {
        counter, s1 := 0, s;
      }
    }

    /** The left-heavy branch of rebalance (AVLTree.java:194-208). */
    method RebalanceLeftHeavy(n: AvlNode<V>, ghost p: seq<SFrame<V>>, ghost s: Shape<V>)
      returns (counter: int, ghost s1: Shape<V>)
      requires Wired() && shape == SPlug(p, s) && Bst(Model()) && s.Real? && s.node == n
      requires var t := Abs(s, fields); t.Node? && Sane(t.left) && Sane(t.right) && Balance(t) > 1
      modifies this`root, this`links, this`fields, this`shape, Objs(shape)
      ensures Wired() && shape == SPlug(p, s1) && Bst(Model())
      ensures fields.Keys == old(fields.Keys) && nodes == old(nodes)
      ensures AbsPath(p, fields) == old(AbsPath(p, fields))
      ensures (Abs(s1, fields), counter) == AvlCore.Rebalance(old(Abs(s, fields)))
      ensures s1.Real? && s1.right.Real? && s1.right.node == n
    {
      ghost var t := Abs(s, fields);
      ghost var sl;
      counter, sl := PrepareLeft(n, p, s);
      var _, s2 := Rotate(n, 'R', p, Real(sl, n, s.right));
      s1 := s2;
    }

    /** The inner test of the left-heavy branch (AVLTree.java:198-206): counter 5 and a
        rotation to the left at the left child when that child is right-heavy, 2 otherwise. */
    method PrepareLeft(n: AvlNode<V>, ghost p: seq<SFrame<V>>, ghost s: Shape<V>)
      returns (counter: int, ghost sl: Shape<V>)
      requires Wired() && shape == SPlug(p, s) && Bst(Model()) && s.Real? && s.node == n
      requires var t := Abs(s, fields); t.Node? && Sane(t.left) && Sane(t.right) && Balance(t) > 1
      modifies this`root, this`links, this`fields, this`shape, Objs(shape)
      ensures Wired() && shape == SPlug(p, Real(sl, n, s.right)) && Bst(Model()) && sl.Real?
      ensures fields.Keys == old(fields.Keys) && nodes == old(nodes)
      ensures AbsPath(p, fields) == old(AbsPath(p, fields))
      ensures var t := old(Abs(s, fields));
        && t.Node? && t.left.Node? && counter == (if Balance(t.left) < 0 then 5 else 2)
        && (counter == 5 ==> t.left.right.Node?)
        && Abs(Real(sl, n, s.right), fields) == if counter == 5 then t.(left := AvlCore.RotateLeft(t.left)) else t
    {
      ghost var t := Abs(s, fields);
      SaneHeights(t.left);
      SaneHeights(t.right);
      ChildHeights(p, s, externalLeaf, links, fields);
      ghost var f := SLeftOf(n, s.right);
      assert ([f] + p)[1..] == p;
      assert t.left.Node? && s.left.Real?;
      sl := s.left;
      var leftBalance := GetBalance(n.left, [f] + p, s.left);
      if leftBalance < 0 {
        counter := 5;
        ChildHeights([f] + p, s.left, externalLeaf, links, fields);
        SaneHeights(t.left.left);
        sl := RotateAtLeft(n, p, s);
      } else {
        counter := 2;
      }
    }

    /** The right-heavy branch of rebalance (AVLTree.java:209-223), the mirror image. */
    method RebalanceRightHeavy(n: AvlNode<V>, ghost p: seq<SFrame<V>>, ghost s: Shape<V>)
      returns (counter: int, ghost s1: Shape<V>)
      requires Wired() && shape == SPlug(p, s) && Bst(Model()) && s.Real? && s.node == n
      requires var t := Abs(s, fields); t.Node? && Sane(t.left) && Sane(t.right) && Balance(t) < -1
      modifies this`root, this`links, this`fields, this`shape, Objs(shape)
      ensures Wired() && shape == SPlug(p, s1) && Bst(Model())
      ensures fields.Keys == old(fields.Keys) && nodes == old(nodes)
      ensures AbsPath(p, fields) == old(AbsPath(p, fields))
      ensures (Abs(s1, fields), counter) == AvlCore.Rebalance(old(Abs(s, fields)))
      ensures s1.Real? && s1.left.Real? && s1.left.node == n
    {
      ghost var t := Abs(s, fields);
      ghost var sr;
      counter, sr := PrepareRight(n, p, s);
      var _, s2 := Rotate(n, 'L', p, Real(s.left, n, sr));
      s1 := s2;
    }

    /** The inner test of the right-heavy branch (AVLTree.java:212-220), the mirror image. */
    method PrepareRight(n: AvlNode<V>, ghost p: seq<SFrame<V>>, ghost s: Shape<V>)
      returns (counter: int, ghost sr: Shape<V>)
      requires Wired() && shape == SPlug(p, s) && Bst(Model()) && s.Real? && s.node == n
      requires var t := Abs(s, fields); t.Node? && Sane(t.left) && Sane(t.right) && Balance(t) < -1
      modifies this`root, this`links, this`fields, this`shape, Objs(shape)
      ensures Wired() && shape == SPlug(p, Real(s.left, n, sr)) && Bst(Model()) && sr.Real?
      ensures fields.Keys == old(fields.Keys) && nodes == old(nodes)
      ensures AbsPath(p, fields) == old(AbsPath(p, fields))
      ensures var t := old(Abs(s, fields));
        && t.Node? && t.right.Node? && counter == (if Balance(t.right) > 0 then 5 else 2)
        && (counter == 5 ==> t.right.left.Node?)
        && Abs(Real(s.left, n, sr), fields) == if counter == 5 then t.(right := AvlCore.RotateRight(t.right)) else t
    {
      ghost var t := Abs(s, fields);
      SaneHeights(t.left);
      SaneHeights(t.right);
      ChildHeights(p, s, externalLeaf, links, fields);
      ghost var f := SRightOf(s.left, n);
      assert ([f] + p)[1..] == p;
      assert t.right.Node? && s.right.Real?;
      sr := s.right;
      var rightBalance := GetBalance(n.right, [f] + p, s.right);
      if rightBalance > 0 {
        counter := 5;
        ChildHeights([f] + p, s.right, externalLeaf, links, fields);
        SaneHeights(t.right.right);
        sr := RotateAtRight(n, p, s);
      } else {
        counter := 2;
      }
    }

    /** The first rotation of a double rotation (AVLTree.java:200): rotate(n.getLeft(), 'L'),
        which leaves n's left subtree rotated to the left. */
    method RotateAtLeft(n: AvlNode<V>, ghost p: seq<SFrame<V>>, ghost s: Shape<V>) returns (ghost sl: Shape<V>)
      requires Wired() && shape == SPlug(p, s) && Bst(Model()) && s.Real? && s.node == n
      requires s.left.Real? && s.left.right.Real?
      modifies this`root, this`links, this`fields, this`shape, Objs(shape)
      ensures Wired() && shape == SPlug(p, Real(sl, n, s.right)) && Bst(Model()) && sl.Real?
      ensures fields.Keys == old(fields.Keys) && nodes == old(nodes)
      ensures AbsPath(p, fields) == old(AbsPath(p, fields))
      ensures old(Abs(s, fields)).Node? && old(Abs(s, fields)).left.Node? && old(Abs(s, fields)).left.right.Node?
      ensures Abs(Real(sl, n, s.right), fields) ==
        old(Abs(s, fields)).(left := AvlCore.RotateLeft(old(Abs(s, fields)).left))
    {
      ghost var f := SLeftOf(n, s.right);
      assert ([f] + p)[1..] == p;
      ChildHeights(p, s, externalLeaf, links, fields);
      ChildHeights([f] + p, s.left, externalLeaf, links, fields);
      ghost var fm0 := fields;
      var _, sl1 := Rotate(n.left, 'L', [f] + p, s.left);
      LeftReplaced(p, s.left, n, s.right, sl1, fm0, fields);
      sl := sl1;
    }

    /** The first rotation of the mirror double rotation (AVLTree.java:215):
        rotate(n.getRight(), 'R'). */
    method RotateAtRight(n: AvlNode<V>, ghost p: seq<SFrame<V>>, ghost s: Shape<V>) returns (ghost sr: Shape<V>)
      requires Wired() && shape == SPlug(p, s) && Bst(Model()) && s.Real? && s.node == n
      requires s.right.Real? && s.right.left.Real?
      modifies this`root, this`links, this`fields, this`shape, Objs(shape)
      ensures Wired() && shape == SPlug(p, Real(s.left, n, sr)) && Bst(Model()) && sr.Real?
      ensures fields.Keys == old(fields.Keys) && nodes == old(nodes)
      ensures AbsPath(p, fields) == old(AbsPath(p, fields))
      ensures old(Abs(s, fields)).Node? && old(Abs(s, fields)).right.Node? && old(Abs(s, fields)).right.left.Node?
      ensures Abs(Real(s.left, n, sr), fields) ==
        old(Abs(s, fields)).(right := AvlCore.RotateRight(old(Abs(s, fields)).right))
    {
      ghost var f := SRightOf(s.left, n);
      assert ([f] + p)[1..] == p;
      ChildHeights(p, s, externalLeaf, links, fields);
      ChildHeights([f] + p, s.right, externalLeaf, links, fields);
      ghost var fm0 := fields;
      var _, sr1 := Rotate(n.right, 'R', [f] + p, s.right);
      RightReplaced(p, s.left, n, s.right, sr1, fm0, fields);
      sr := sr1;
    }

    /**
     * One pass of the upward loop of insert and delete at p (AVLTree.java:170-178 and
     * 285-290): rebalance(p), then updateHeight(p), then p.getParent(). The subtree at p's
     * former position becomes what AvlCore.Visit computes, `count` is what the pass adds
     * to the counter, and `next` is the new top of that subtree when rebalance rotated and
     * the parent of the position otherwise.
     */
    method VisitNode(p: AvlNode<V>, ghost sp: seq<SFrame<V>>, ghost sh: Shape<V>)
      returns (count: int, next: AvlNode?<V>, ghost s1: Shape<V>, ghost rotated: bool)
      requires Wired() && shape == SPlug(sp, sh) && Bst(Model()) && sh.Real? && sh.node == p
      requires var t := Abs(sh, fields); t.Node? && Sane(t.left) && Sane(t.right)
      modifies this`root, this`links, this`fields, this`shape, Objs(shape)
      ensures Wired() && shape == SPlug(sp, s1) && Bst(Model()) && s1.Real?
      ensures fields.Keys == old(fields.Keys) && nodes == old(nodes)
      ensures AbsPath(sp, fields) == old(AbsPath(sp, fields))
      ensures Abs(s1, fields) == AvlCore.Visit(old(Abs(sh, fields))).0
      ensures count == AvlCore.Visit(old(Abs(sh, fields))).1
      ensures rotated == AvlCore.Visit(old(Abs(sh, fields))).2
      ensures next == if rotated then s1.node else ParentOf(sp)
    {
      ghost var t := Abs(sh, fields);
      var actions;
      actions, s1 := Rebalance(p, sp, sh);
      count, next, rotated := SettleNode(p, sp, s1, t, actions);
    }

    /** The rest of a pass after rebalance(p) returned `actions` with the subtree at s1:
        updateHeight(p) at the position p was rotated to, and p.getParent(). */
    method SettleNode(p: AvlNode<V>, ghost sp: seq<SFrame<V>>, ghost s1: Shape<V>, ghost t: Tree<V>, actions: int)
      returns (count: int, next: AvlNode?<V>, ghost rotated: bool)
      requires Wired() && shape == SPlug(sp, s1) && Bst(Model())
      requires t.Node? && Sane(t.left) && Sane(t.right) && (Abs(s1, fields), actions) == AvlCore.Rebalance(t)
      requires actions == 0 ==> s1.Real? && s1.node == p
      requires actions != 0 && Balance(t) > 1 ==> s1.Real? && s1.right.Real? && s1.right.node == p
      requires actions != 0 && Balance(t) <= 1 ==> s1.Real? && s1.left.Real? && s1.left.node == p
      modifies this`fields, p`height
      ensures Wired() && shape == old(shape) && Bst(Model())
      ensures fields.Keys == old(fields.Keys) && nodes == old(nodes)
      ensures AbsPath(sp, fields) == old(AbsPath(sp, fields))
      ensures Abs(s1, fields) == AvlCore.Visit(t).0 && count == AvlCore.Visit(t).1
      ensures rotated == AvlCore.Visit(t).2 && next == if rotated then s1.node else ParentOf(sp)
    {
      ghost var at := Settled(sp, s1, t, actions);
      ghost var cp, cs := at.0, at.1;
      ghost var fm1 := fields;
      var changed := UpdateHeight(p, cp, cs);
      next := GetParent(p, cp, cs);
      VisitSettles(sp, s1, cp, cs, externalLeaf, links, fm1, fields, t, actions, changed);
      count := (if actions > 0 then actions else 0) + (if changed then 1 else 0);
      rotated := actions != 0;
    }

    /** getParent of AVLNode (AVLTree.java:746-748) on a node of the tree: the node above it
        on its path, null at the root. */
    method GetParent(n: AvlNode<V>, ghost p: seq<SFrame<V>>, ghost s: Shape<V>) returns (r: AvlNode?<V>)
      requires Wired() && shape == SPlug(p, s) && s.Real? && s.node == n
      ensures r == ParentOf(p)
      ensures Wired() && shape == old(shape) && fields == old(fields) && links == old(links)
    {
      Focus(p, s, externalLeaf, links, fields);
      r := n.parent;
    }

    /**
     * The upward loop of insert (AVLTree.java:168-179) and of delete (AVLTree.java:283-291),
     * started at the node `start`. The tree becomes what AvlWalk.Walk computes from the
     * subtree at start and the path above it, with the count it reports, when that walk is
     * Steady (as it is whenever the loop starts from an edit of an AVL tree).
     */
    method Retrace(start: AvlNode<V>, ghost path: seq<SFrame<V>>, ghost s: Shape<V>) returns (counter: int)
      requires Wired() && shape == SPlug(path, s) && Bst(Model()) && s.Real? && s.node == start
      requires var t := Abs(s, fields); t.Node? && Sane(t.left) && Sane(t.right)
      requires SanePath(AbsPath(path, fields)) && Steady(Abs(s, fields), AbsPath(path, fields), false)
      modifies this`root, this`links, this`fields, this`shape, Objs(shape)
      ensures Wired() && Bst(Model()) && fields.Keys == old(fields.Keys) && nodes == old(nodes)
      ensures (Model(), counter) == Walk(old(Abs(s, fields)), old(AbsPath(path, fields)), false)
    {
      ghost var goal := Walk(Abs(s, fields), AbsPath(path, fields), false);
      counter := 0;
      var p: AvlNode?<V> := start;
      ghost var sp, sh, revisit := path, s, false;
      while p != null
        invariant Wired() && Bst(Model()) && fields.Keys == old(fields.Keys) && nodes == old(nodes)
        invariant p != null ==>
          shape == SPlug(sp, sh) && sh.Real? && sh.node == p && Pending(sp, sh, revisit, fields, goal, counter)
        invariant p == null ==> Model() == goal.0 && counter == goal.1
        decreases if p == null then 0 else 2 * |sp| + if revisit then 1 else 2
      {
        ghost var fm0 := fields;
        var count, next, s1, rotated := VisitNode(p, sp, sh);
        PendingStep(sp, sh, revisit, s1, externalLeaf, links, fm0, fields, goal, counter, count, rotated);
        counter := counter + count;
        if rotated {
          assert next == s1.node;
          sh, revisit := s1, true;
        } else if sp != [] {
          assert next == sp[0].node;
          sh, sp, revisit := SAttach(sp[0], s1), sp[1..], false;
        } else {
          assert next == null && shape == s1;
        }
        p := next;
      }
    }
  
    /** Records the links and fields of a node that joins the tree. */
    ghost method Record(n: AvlNode<V>)
      requires HoldsLinks(links) && HoldsFields(fields) && ExtOk() && !n.isExternal
      modifies this`links, this`fields
      ensures HoldsLinks(links) && HoldsFields(fields) && ExtOk()
      ensures links == old(links)[n := Links(n.left, n.right, n.parent)]
      ensures fields == old(fields)[n := Fields(n.key, n.info, n.height)]
      ensures shape == old(shape) && root == old(root) && nodes == old(nodes)
    {
      links := links[n := Links(n.left, n.right, n.parent)];
      fields := fields[n := Fields(n.key, n.info, n.height)];
    }

    /** Sets the node counter. */
    method SetNodes(c: int)
      requires HoldsLinks(links) && HoldsFields(fields) && ExtOk()
      modifies this`nodes
      ensures HoldsLinks(links) && HoldsFields(fields) && ExtOk() && nodes == c
      ensures links == old(links) && fields == old(fields) && shape == old(shape) && root == old(root)
      ensures old(Wired()) ==> Wired() && Model() == old(Model())
    {
      nodes := c;
    }

    /** createNewNode (AVLTree.java:109-114): a fresh real node of height 0 holding k and i,
        with the external leaf on both sides and no parent. */
    method CreateNewNode(k: int, i: V) returns (n: AvlNode<V>)
      requires Wired()
      ensures fresh(n) && n !in links && n != externalLeaf
      ensures n.key == k && n.info == i && n.height == 0 && !n.isExternal
      ensures n.left == externalLeaf && n.right == externalLeaf && n.parent == null
      ensures Wired() && shape == old(shape) && links == old(links) && fields == old(fields)
      ensures root == old(root) && nodes == old(nodes)
    {
      n := new AvlNode(i, k);
      n.left := externalLeaf;
      n.right := externalLeaf;
    }

    /**
     * The descent of insert (AVLTree.java:130-137): from the root, to the left when k is
     * smaller than the node's key and to the right otherwise. It stops with `found` at a node
     * holding k (where insert returns -1), and otherwise at the external leaf (or the empty
     * root) with b the last node passed, the node the new one will hang from.
     */
    method Descend(k: int) returns (found: bool, b: AvlNode?<V>, ghost sp: seq<SFrame<V>>)
      requires Wired()
      ensures found <==> Locate(Model(), k, []).0.Node?
      ensures !found ==>
        && shape == SPlug(sp, Ext) && b == ParentOf(sp)
        && Locate(Model(), k, []) == (Leaf, AbsPath(sp, fields))
        && (sp != [] ==>
              sp[0].node in fields && (sp[0].SLeftOf? <==> k < fields[sp[0].node].key) &&
              k != fields[sp[0].node].key)
    {
      var a := root;
      b := null;
      sp := [];
      ghost var s := shape;
      while a != externalLeaf && a != null
        invariant shape == SPlug(sp, s)
        invariant a == (if s.Ext? && sp == [] then null else TopOf(s, externalLeaf))
        invariant b == ParentOf(sp)
        invariant Locate(Abs(s, fields), k, AbsPath(sp, fields)) == Locate(Model(), k, [])
        invariant sp != [] ==>
          sp[0].node in fields && (sp[0].SLeftOf? <==> k < fields[sp[0].node].key) &&
          k != fields[sp[0].node].key
        decreases s
      {
        Focus(sp, s, externalLeaf, links, fields);
        b := a;
        if b.key == k {
          return true, b, sp;
        }
        if k < a.key {
          a := a.left;
          assert ([SLeftOf(b, s.right)] + sp)[1..] == sp;
          sp, s := [SLeftOf(b, s.right)] + sp, s.left;
        } else {
          a := a.right;
          assert ([SRightOf(s.left, b)] + sp)[1..] == sp;
          sp, s := [SRightOf(s.left, b)] + sp, s.right;
        }
      }
      Focus(sp, s, externalLeaf, links, fields);
      found := false;
    }

    /**
     * Hanging the new node (AVLTree.java:143-166): as the root of an empty tree, otherwise
     * as the right child of b when k is larger than b's key and as its left child when it
     * is smaller, with b as its parent.
     */
    method Link(n: AvlNode<V>, b: AvlNode?<V>, k: int, i: V, ghost sp: seq<SFrame<V>>)
      requires Wired() && shape == SPlug(sp, Ext) && b == ParentOf(sp)
      requires sp != [] ==>
        sp[0].node in fields && (sp[0].SLeftOf? <==> k < fields[sp[0].node].key) && k != fields[sp[0].node].key
      requires n !in links && n != externalLeaf && !n.isExternal && n.key == k && n.info == i && n.height == 0
      requires n.left == externalLeaf && n.right == externalLeaf && n.parent == null
      modifies this`root, this`links, this`fields, this`shape, n`parent, Objs(shape)
      ensures Wired() && shape == SPlug(sp, Real(Ext, n, Ext)) && nodes == old(nodes)
      ensures fields == old(fields)[n := Fields(k, i, 0)]
      ensures AbsPath(sp, fields) == old(AbsPath(sp, fields))
      ensures Model() == Plug(old(AbsPath(sp, fields)), NewNode(k, i))
    {
      ghost var lk := links;
      HungWired(sp, n, externalLeaf, links, fields, Fields(k, i, 0));
      HungValues(sp, n, fields, Fields(k, i, 0));
      if sp != [] {
        PlugTop(sp, Ext, Real(Ext, n, Ext));
      }
      Record(n);
      if b == null {
        SetRoot(n);
      } else {
        if k > b.key {
          SetRight(b, n);
        } else {
          SetLeft(b, n);
        }
        SetParent(n, b);
      }
      assert links == HungLinks(lk, sp, n, externalLeaf);
      SetShape(SPlug(sp, Real(Ext, n, Ext)));
    }
  
    /**
     * The part of insert after the descent (AVLTree.java:143-179): the new node n is hung
     * from b, updateHeight runs on b (on n itself when the tree was empty), and the upward
     * loop runs from n. The tree and the count become what AvlUpdate.Hang computes.
     */
    method HangNew(n: AvlNode<V>, b: AvlNode?<V>, k: int, i: V, ghost sp: seq<SFrame<V>>) returns (counter: int)
      requires Wired() && shape == SPlug(sp, Ext) && b == ParentOf(sp)
      requires Hangable(NewNode(k, i), AbsPath(sp, fields))
      requires sp != [] ==>
        sp[0].node in fields && (sp[0].SLeftOf? <==> k < fields[sp[0].node].key) && k != fields[sp[0].node].key
      requires n !in links && n != externalLeaf && !n.isExternal && n.key == k && n.info == i && n.height == 0
      requires n.left == externalLeaf && n.right == externalLeaf && n.parent == null
      modifies this`root, this`links, this`fields, this`shape, Objs(shape), n
      ensures Wired() && Bst(Model()) && shape.Real? && nodes == old(nodes)
      ensures fields.Keys == old(fields.Keys) + {n}
      ensures Model() == Hang(NewNode(k, i), old(AbsPath(sp, fields))).0
      ensures counter == Hang(NewNode(k, i), old(AbsPath(sp, fields))).1
    {
      ghost var path := AbsPath(sp, fields);
      Link(n, b, k, i, sp);
      ghost var keys := fields.Keys;
      assert keys == old(fields.Keys) + {n};
      assert Abs(Real(Ext, n, Ext), fields) == NewNode(k, i);
      if b == null {
        counter := HangAtRoot(n, k, i);
      } else {
        counter := HangBelow(n, b, k, i, sp, path);
      }
      assert fields.Keys == keys;
    }

    /** The new node as the root of what was an empty tree (AVLTree.java:143-146, 167-179). */
    method HangAtRoot(n: AvlNode<V>, ghost k: int, ghost i: V) returns (counter: int)
      requires Wired() && shape == Real(Ext, n, Ext) && Abs(shape, fields) == NewNode(k, i)
      requires Hangable(NewNode(k, i), [])
      modifies this`root, this`links, this`fields, this`shape, Objs(shape)
      ensures Wired() && Bst(Model()) && shape.Real? && nodes == old(nodes)
      ensures fields.Keys == old(fields.Keys)
      ensures Model() == Hang(NewNode(k, i), []).0 && counter == Hang(NewNode(k, i), []).1
    {
      var changed := UpdateHeight(n, [], shape);
      counter := 0;
      if changed {
        counter := counter + 1;
      }
      var c := Retrace(n, [], shape);
      counter := counter + c;
    }

    /** The new node below b: updateHeight(b), then the upward loop from the new node
        (AVLTree.java:167-179). */
    method HangBelow(n: AvlNode<V>, b: AvlNode<V>, ghost k: int, ghost i: V, ghost sp: seq<SFrame<V>>,
                     ghost path: seq<Frame<V>>) returns (counter: int)
      requires Wired() && shape == SPlug(sp, Real(Ext, n, Ext)) && sp != [] && b == sp[0].node
      requires Abs(Real(Ext, n, Ext), fields) == NewNode(k, i) && AbsPath(sp, fields) == path
      requires Hangable(NewNode(k, i), path)
      modifies this`root, this`links, this`fields, this`shape, Objs(shape)
      ensures Wired() && Bst(Model()) && shape.Real? && nodes == old(nodes)
      ensures fields.Keys == old(fields.Keys)
      ensures Model() == Hang(NewNode(k, i), path).0 && counter == Hang(NewNode(k, i), path).1
    {
      ghost var sn := Real(Ext, n, Ext);
      ghost var nn := NewNode(k, i);
      PlugObjs(sp, sn);
      assert b in PathObjs(sp);
      var changed := UpdateParent(b, sp, sn);
      ghost var (bt, ch) := AvlCore.UpdateHeight(Attach(path[0], nn));
      ghost var res := Walk(nn, Reheight(path, bt.height), false);
      assert Hang(nn, path).0 == res.0 && Hang(nn, path).1 == Count(ch) + res.1;
      counter := 0;
      if changed {
        counter := counter + 1;
      }
      var c := Retrace(n, sp, sn);
      assert Model() == res.0 && c == res.1;
      counter := counter + c;
      assert counter == Count(ch) + res.1;
      assert Model() == Hang(nn, path).0;
      assert counter == Hang(nn, path).1;
    }

    /**
     * updateHeight on the parent b of the subtree s (AVLTree.java:520-524 applied to the
     * parent): s itself is unchanged and the frame above it records b's new height.
     */
    method UpdateParent(b: AvlNode<V>, ghost sp: seq<SFrame<V>>, ghost s: Shape<V>) returns (changed: bool)
      requires Wired() && shape == SPlug(sp, s) && sp != [] && b == sp[0].node
      requires Sane(Abs(s, fields)) && SanePath(AbsPath(sp, fields))
      modifies this`fields, b`height
      ensures Wired() && shape == old(shape) && links == old(links) && root == old(root) && nodes == old(nodes)
      ensures fields.Keys == old(fields.Keys) && Abs(s, fields) == old(Abs(s, fields))
      ensures old(AbsPath(sp, fields)) != [] && AbsPath(sp, fields) != []
      ensures var up := AvlCore.UpdateHeight(Attach(old(AbsPath(sp, fields))[0], Abs(s, fields)));
        changed == up.1 && AbsPath(sp, fields) == Reheight(old(AbsPath(sp, fields)), up.0.height)
      ensures Model() == Plug(AbsPath(sp, fields), Abs(s, fields))
    {
      Focus(sp, s, externalLeaf, links, fields);
      ClimbFrame(sp, s, fields);
      ghost var fm0 := fields;
      changed := UpdateHeight(b, sp[1..], SAttach(sp[0], s));
      ReheightPath(sp, s, fm0, fields);
      AbsPlug(sp, s, fields);
    }

    /**
     * insert(k, i) (AVLTree.java:127-183): -1 and no change when k is present; otherwise
     * the new node is hung and the upward loop runs, then updateHeight on the root and the
     * node counter grows by one. The tree stays a valid AVL tree counting its nodes, and
     * tree and count are what AvlUpdate.Insert computes. The clause old(Sane(Model())) is
     * the precondition of AvlUpdate.Insert, which the next clause applies to the old tree.
     */
    method Insert(k: int, i: V) returns (counter: int)
      requires Valid()
      modifies this, Objs(shape)
      ensures Valid() && old(Sane(Model()))
      ensures Model() == AvlUpdate.Insert(old(Model()), k, i).0
      ensures counter == AvlUpdate.Insert(old(Model()), k, i).1
    {
      ghost var t0 := Model();
      AvlSane(t0);
      var newNode := CreateNewNode(k, i);
      var found, b, sp := Descend(k);
      if found {
        assert AvlUpdate.Insert(t0, k, i).0 == t0 && AvlUpdate.Insert(t0, k, i).1 == -1;
        return -1;
      }
      counter := AddNew(newNode, b, k, i, sp);
    }

    /** updateHeight(getRoot()) (AVLTree.java:180, 520-524) on a non-empty tree. */
    method RootHeight() returns (changed: bool)
      requires Wired() && shape.Real?
      modifies this`fields, root`height
      ensures Wired() && shape == old(shape) && links == old(links) && root == old(root) && nodes == old(nodes)
      ensures fields.Keys == old(fields.Keys)
      ensures Model() == AvlCore.UpdateHeight(old(Model())).0 && changed == AvlCore.UpdateHeight(old(Model())).1
    {
      changed := UpdateHeight(root, [], shape);
    }

    /** insert once the search has ended at an external leaf below b (AVLTree.java:143-182). */
    method AddNew(n: AvlNode<V>, b: AvlNode?<V>, k: int, i: V, ghost sp: seq<SFrame<V>>) returns (counter: int)
      requires Valid() && Sane(Model()) && shape == SPlug(sp, Ext) && b == ParentOf(sp)
      requires Locate(Model(), k, []) == (Leaf, AbsPath(sp, fields))
      requires sp != [] ==>
        sp[0].node in fields && (sp[0].SLeftOf? <==> k < fields[sp[0].node].key) && k != fields[sp[0].node].key
      requires n !in links && n != externalLeaf && !n.isExternal && n.key == k && n.info == i && n.height == 0
      requires n.left == externalLeaf && n.right == externalLeaf && n.parent == null
      modifies this, Objs(shape), n
      ensures Valid()
      ensures Model() == AvlUpdate.Insert(old(Model()), k, i).0
      ensures counter == AvlUpdate.Insert(old(Model()), k, i).1
    {
      ghost var t0 := Model();
      InsertSteps(t0, k, i);
      counter := Grow(n, b, k, i, sp);
      SetNodes(nodes + 1);
    }

    /** The hanging, the upward loop and updateHeight on the root (AVLTree.java:143-180),
        with the count of height changes and rotations. */
    method Grow(n: AvlNode<V>, b: AvlNode?<V>, k: int, i: V, ghost sp: seq<SFrame<V>>) returns (counter: int)
      requires Wired() && shape == SPlug(sp, Ext) && b == ParentOf(sp)
      requires Hangable(NewNode(k, i), AbsPath(sp, fields))
      requires sp != [] ==>
        sp[0].node in fields && (sp[0].SLeftOf? <==> k < fields[sp[0].node].key) && k != fields[sp[0].node].key
      requires n !in links && n != externalLeaf && !n.isExternal && n.key == k && n.info == i && n.height == 0
      requires n.left == externalLeaf && n.right == externalLeaf && n.parent == null
      modifies this`root, this`links, this`fields, this`shape, Objs(shape), n
      ensures Wired() && nodes == old(nodes)
      ensures var hung := Hang(NewNode(k, i), old(AbsPath(sp, fields)));
        && hung.0.Node?
        && Model() == AvlCore.UpdateHeight(hung.0).0
        && counter == hung.1 + Count(AvlCore.UpdateHeight(hung.0).1)
    {
      ghost var hung := Hang(NewNode(k, i), AbsPath(sp, fields));
      counter := HangNew(n, b, k, i, sp);
      assert Model() == hung.0 && counter == hung.1;
      ghost var top := AvlCore.UpdateHeight(hung.0);
      var changed := RootHeight();
      assert Model() == top.0 && changed == top.1;
      if changed {
        counter := counter + 1;
      }
    }

    /** Drops the record of a node that leaves the tree. */
    ghost method Forget(x: AvlNode<V>)
      requires HoldsLinks(links) && HoldsFields(fields) && ExtOk()
      modifies this`links, this`fields
      ensures HoldsLinks(links) && HoldsFields(fields) && ExtOk()
      ensures links == old(links) - {x} && fields == old(fields) - {x}
      ensures shape == old(shape) && root == old(root) && nodes == old(nodes)
    {
      links := links - {x};
      fields := fields - {x};
    }

    /**
     * deleteLeaf(x) (AVLTree.java:304-313): the parent's link to the leaf x becomes the
     * external leaf. When x is the root the source sets root to null and then reads the
     * links of the null parent (AVLTree.java:306-310); the model empties the tree.
     */
    method DeleteLeaf(x: AvlNode<V>, ghost dp: seq<SFrame<V>>, ghost s: Shape<V>)
      requires Wired() && shape == SPlug(dp, s) && s.Real? && s.node == x && s.left.Ext? && s.right.Ext?
      modifies this`root, this`links, this`fields, this`shape, Objs(shape)
      ensures Wired() && shape == SPlug(dp, Ext) && fields == old(fields) - {x} && nodes == old(nodes)
      ensures AbsPath(dp, fields) == old(AbsPath(dp, fields))
    {
      SplicedFacts(dp, s, Ext, externalLeaf, links, fields);
      SplicedValues(dp, Ext, x, fields);
      ghost var lk, fm := links, fields;
      var p := x.parent;
      if p == null {
        SetRoot(null);
      } else {
        if p.left == x {
          SetLeft(p, externalLeaf);
        }
        if p.right == x {
          SetRight(p, externalLeaf);
        }
      }
      Forget(x);
      SplicedShaped(dp, s, Ext, externalLeaf, lk, fm);
      assert links == Spliced(lk, x, externalLeaf, p, externalLeaf);
      SetShape(SPlug(dp, Ext));
    }

    /**
     * deleteUnary(x, c) (AVLTree.java:322-341): x's only child, on side c, takes x's place
     * under x's parent. When x is the root the source leaves root pointing to x
     * (AVLTree.java:331-340); the model makes the child the root.
     */
    method DeleteUnary(x: AvlNode<V>, c: char, ghost dp: seq<SFrame<V>>, ghost s: Shape<V>)
      requires Wired() && shape == SPlug(dp, s) && s.Real? && s.node == x
      requires (c == 'L' && s.left.Real? && s.right.Ext?) || (c == 'R' && s.right.Real? && s.left.Ext?)
      modifies this`root, this`links, this`fields, this`shape, Objs(shape)
      ensures var cs := if c == 'L' then s.left else s.right;
        Wired() && shape == SPlug(dp, cs) && fields == old(fields) - {x} && nodes == old(nodes)
      ensures AbsPath(dp, fields) == old(AbsPath(dp, fields))
      ensures var cs := if c == 'L' then s.left else s.right; Abs(cs, fields) == old(Abs(cs, fields))
    {
      ghost var cs := if c == 'L' then s.left else s.right;
      SplicedFacts(dp, s, cs, externalLeaf, links, fields);
      SplicedValues(dp, cs, x, fields);
      ghost var lk, fm := links, fields;
      var p := x.parent;
      var child: AvlNode?<V> := null;
      if c == 'L' {
        child := x.left;
      }
      if c == 'R' {
        child := x.right;
      }
      assert child == cs.node;
      SetParent(child, p);
      ghost var lk0 := links;
      assert child != externalLeaf && child in lk && lk0 == lk[child := lk[child].(parent := p)];
      if p != null {
        var isLeftChild := p.left == x;
        if isLeftChild {
          SetLeft(p, child);
        } else {
          SetRight(p, child);
        }
        assert p in lk0 && links == lk0[p := if lk0[p].left == x then lk0[p].(left := child) else lk0[p].(right := child)];
      } else {
        SetRoot(child);
      }
      SplicedSteps(lk, x, child, p, externalLeaf, lk0, links);
      Forget(x);
      SplicedShaped(dp, s, cs, externalLeaf, lk, fm);
      SetShape(SPlug(dp, cs));
    }

    /**
     * treeSearch(x, k) (AVLTree.java:90-97): the node under x holding k, null when there is
     * none. As written the method stops only at null or at a matching key, so at the external
     * leaf it matches when k == -1, the sentinel's key (AVLTree.java:45); here it stops at
     * the external leaf, as search does (AVLTree.java:82).
     */
    function TreeSearch(x: AvlNode?<V>, k: int, ghost sp: seq<SFrame<V>>, ghost s: Shape<V>): (r: AvlNode?<V>)
      reads this, externalLeaf
      reads links.Keys`left, links.Keys`right, links.Keys`parent, links.Keys`isExternal
      reads fields.Keys`key, fields.Keys`info, fields.Keys`height
      requires Wired() && shape == SPlug(sp, s)
      requires x == (if s.Ext? && sp == [] then null else TopOf(s, externalLeaf))
      ensures var rs := SLocate(s, k, sp, fields).0; r == (if rs.Ext? then null else rs.node)
      decreases s
    {
      Focus(sp, s, externalLeaf, links, fields);
      if x == null || x == externalLeaf then null
      else
        assert ([SLeftOf(x, s.right)] + sp)[1..] == sp && ([SRightOf(s.left, x)] + sp)[1..] == sp;
        if x.key == k then x
        else if k < x.key then TreeSearch(x.left, k, [SLeftOf(x, s.right)] + sp, s.left)
        else TreeSearch(x.right, k, [SRightOf(s.left, x)] + sp, s.right)
    }

    /**
     * search(root, k) (AVLTree.java:80-87): the node under x holding k, or the null or
     * external leaf the descent ends at; it finds exactly what AvlOps.Search finds.
     */
    function SearchFrom(x: AvlNode?<V>, k: int, ghost sp: seq<SFrame<V>>, ghost s: Shape<V>): (r: AvlNode?<V>)
      reads this, externalLeaf
      reads links.Keys`left, links.Keys`right, links.Keys`parent, links.Keys`isExternal
      reads fields.Keys`key, fields.Keys`info, fields.Keys`height
      requires Wired() && shape == SPlug(sp, s)
      requires x == (if s.Ext? && sp == [] then null else TopOf(s, externalLeaf))
      ensures (r == null || r == externalLeaf) <==> AvlOps.Search(Abs(s, fields), k).None?
      ensures r != null && r != externalLeaf ==>
        r in fields && fields[r].key == k && AvlOps.Search(Abs(s, fields), k) == Some(fields[r].info)
      decreases s
    {
      if x == null || x == externalLeaf then x
      else
        Focus(sp, s, externalLeaf, links, fields);
        assert ([SLeftOf(x, s.right)] + sp)[1..] == sp && ([SRightOf(s.left, x)] + sp)[1..] == sp;
        if x.key == k then x
        else if x.key < k then SearchFrom(x.right, k, [SRightOf(s.left, x)] + sp, s.right)
        else SearchFrom(x.left, k, [SLeftOf(x, s.right)] + sp, s.left)
    }

    /** search(k) (AVLTree.java:69-74): the info stored under k, None where the source
        returns null. */
    function Search(k: int): (r: Option<V>)
      reads this, externalLeaf
      reads links.Keys`left, links.Keys`right, links.Keys`parent, links.Keys`isExternal
      reads fields.Keys`key, fields.Keys`info, fields.Keys`height
      requires Wired()
      ensures r == AvlOps.Search(Model(), k)
    {
      var n := SearchFrom(root, k, [], shape);
      if n == null then None
      else if n == externalLeaf then None
      else Some(n.info)
    }

    /** minSubtree(x) (AVLTree.java:369-374): down the left links to the leftmost node
        under x. */
    method MinSubtree(x: AvlNode<V>, ghost sp: seq<SFrame<V>>, ghost s: Shape<V>) returns (r: AvlNode<V>)
      requires Wired() && shape == SPlug(sp, s) && s.Real? && s.node == x
      ensures r == SMin(s, sp).0.node
    {
      r := x;
      ghost var q, t := sp, s;
      while r.left != externalLeaf
        invariant shape == SPlug(q, t) && t.Real? && t.node == r
        invariant SMin(t, q).0 == SMin(s, sp).0
        decreases t
      {
        Focus(q, t, externalLeaf, links, fields);
        assert ([SLeftOf(r, t.right)] + q)[1..] == q;
        r := r.left;
        q, t := [SLeftOf(t.node, t.right)] + q, t.left;
      }
      Focus(q, t, externalLeaf, links, fields);
    }

    /**
     * successor(x) (AVLTree.java:352-362): the leftmost node of x's right subtree when that
     * is real, otherwise the first ancestor reached from its left side, null when there is
     * none. Its key and info are the entry AvlOps.Successor names.
     */
    method Successor(x: AvlNode<V>, ghost sp: seq<SFrame<V>>, ghost s: Shape<V>) returns (y: AvlNode?<V>)
      requires Wired() && shape == SPlug(sp, s) && s.Real? && s.node == x && Abs(s, fields).Node?
      ensures y == null <==> AvlOps.Successor(Abs(s, fields), AbsPath(sp, fields)).None?
      ensures y != null ==>
        y in fields && AvlOps.Successor(Abs(s, fields), AbsPath(sp, fields)) == Some((fields[y].key, fields[y].info))
      ensures s.right.Real? ==> y == SMin(s.right, [SRightOf(s.left, x)] + sp).0.node
    {
      Focus(sp, s, externalLeaf, links, fields);
      if x.right != externalLeaf {
        var f := SRightOf(s.left, x);
        assert ([f] + sp)[1..] == sp;
        y := MinSubtree(x.right, [f] + sp, s.right);
        AbsPathPush(f, sp, fields);
        SMinAbs(s.right, [f] + sp, fields);
        MinSubtreeShift(Abs(s.right, fields), [], AbsPath([f] + sp, fields));
        assert [] + AbsPath([f] + sp, fields) == AbsPath([f] + sp, fields);
        return;
      }
      var c := x;
      y := x.parent;
      ghost var q, t := sp, s;
      while y != null && c == y.right
        invariant shape == SPlug(q, t) && t.Real? && t.node == c && y == ParentOf(q)
        invariant FirstLeftOf(AbsPath(q, fields)) == FirstLeftOf(AbsPath(sp, fields))
        decreases |q|
      {
        SuccessorStep(q, t, externalLeaf, links, fields);
        c := y;
        y := c.parent;
        q, t := q[1..], SAttach(q[0], t);
        Focus(q, t, externalLeaf, links, fields);
      }
      if y != null {
        SuccessorStep(q, t, externalLeaf, links, fields);
      }
    }

    /** setInfo (AVLTree.java:679-681) on a recorded node. */
    method SetInfo(n: AvlNode<V>, v: V)
      requires HoldsLinks(links) && HoldsFields(fields) && ExtOk() && n in fields && externalLeaf !in fields
      modifies n`info, this`fields
      ensures HoldsLinks(links) && HoldsFields(fields) && ExtOk()
      ensures fields == old(fields)[n := old(fields)[n].(info := v)]
      ensures links == old(links) && shape == old(shape) && root == old(root) && nodes == old(nodes)
    {
      n.info := v;
      fields := fields[n := fields[n].(info := v)];
    }

    /** setKey (AVLTree.java:683-685) on a recorded node. */
    method SetKey(n: AvlNode<V>, k: int)
      requires HoldsLinks(links) && HoldsFields(fields) && ExtOk() && n in fields && externalLeaf !in fields
      modifies n`key, this`fields
      ensures HoldsLinks(links) && HoldsFields(fields) && ExtOk()
      ensures fields == old(fields)[n := old(fields)[n].(key := k)]
      ensures links == old(links) && shape == old(shape) && root == old(root) && nodes == old(nodes)
    {
      n.key := k;
      fields := fields[n := fields[n].(key := k)];
    }

    /**
     * The first half of the binary case of delete (AVLTree.java:266-270): x takes the info
     * and key of its successor suc, the leftmost node ms of its right subtree, with frames mq
     * up to the root. Removing ms where it stands is then what AvlUpdate.Unlink computes.
     */
    method CopySuccessor(x: AvlNode<V>, ghost sp: seq<SFrame<V>>, ghost s: Shape<V>)
      returns (suc: AvlNode<V>, ghost mq: seq<SFrame<V>>, ghost ms: Shape<V>)
      requires Wired() && shape == SPlug(sp, s) && s.Real? && s.node == x && s.left.Real? && s.right.Real?
      modifies x`key, x`info, this`fields
      ensures Wired() && shape == old(shape) && links == old(links) && nodes == old(nodes)
      ensures shape == SPlug(mq, ms) && ms.Real? && ms.node == suc && ms.left.Ext?
      ensures old(Abs(s, fields)).Node?
      ensures Unlink(old(Abs(s, fields)), old(AbsPath(sp, fields))).0 == Abs(ms.right, fields)
      ensures Unlink(old(Abs(s, fields)), old(AbsPath(sp, fields))).1 == AbsPath(mq, fields)
    {
      ghost var fm0, lk0 := fields, links;
      suc := FindSuccessor(x, sp, s);
      ms, mq := SMin(s.right, []).0, SMin(s.right, []).1 + ([SRightOf(s.left, x)] + sp);
      CopyFields(x, suc);
      BinaryCopy(sp, s, externalLeaf, lk0, fm0, fields);
    }

    /** successor(x) (AVLTree.java:268) for x with two children: the leftmost node of its
        right subtree, with the frames from there up to the root. */
    method FindSuccessor(x: AvlNode<V>, ghost sp: seq<SFrame<V>>, ghost s: Shape<V>) returns (y: AvlNode<V>)
      requires Wired() && shape == SPlug(sp, s) && s.Real? && s.node == x && s.left.Real? && s.right.Real?
      ensures x in fields && y in fields && y == SMin(s.right, []).0.node
      ensures shape == SPlug(SMin(s.right, []).1 + ([SRightOf(s.left, x)] + sp), SMin(s.right, []).0)
    {
      Focus(sp, s, externalLeaf, links, fields);
      ghost var f := SRightOf(s.left, x);
      assert ([f] + sp)[1..] == sp;
      SMinAbs(s.right, [], fields);
      var z := Successor(x, sp, s);
      SMinShift(s.right, [], [f] + sp);
      assert [] + ([f] + sp) == [f] + sp;
      y := z;
    }

    /** setInfo and setKey of AVLTree.java:269-270: x takes over the key and info of y. */
    method CopyFields(x: AvlNode<V>, y: AvlNode<V>)
      requires Wired() && x in fields && y in fields
      modifies x`key, x`info, this`fields
      ensures Wired() && shape == old(shape) && links == old(links) && nodes == old(nodes)
      ensures fields == old(fields)[x := Fields(old(fields)[y].key, old(fields)[y].info, old(fields)[x].height)]
    {
      ghost var fm0 := fields;
      var v := y.info;
      SetInfo(x, v);
      ghost var fm1 := fields;
      var k := y.key;
      SetKey(x, k);
      CopiedFields(fm0, x, k, v, fm1, fields);
    }

    /**
     * The binary case of delete (AVLTree.java:266-276): x takes the info and key of its
     * successor, and the successor, which has no left child, is removed as a leaf or as a
     * unary node with its right child. p is the successor's parent, where the climb starts.
     */
    method DeleteBinary(x: AvlNode<V>, ghost sp: seq<SFrame<V>>, ghost s: Shape<V>)
      returns (p: AvlNode?<V>, ghost dp: seq<SFrame<V>>, ghost cs: Shape<V>)
      requires Wired() && shape == SPlug(sp, s) && s.Real? && s.node == x && s.left.Real? && s.right.Real?
      modifies this`root, this`links, this`fields, this`shape, Objs(shape)
      ensures Wired() && shape == SPlug(dp, cs) && p == ParentOf(dp) && nodes == old(nodes)
      ensures fields.Keys <= old(fields.Keys)
      ensures old(Abs(s, fields)).Node?
      ensures Unlink(old(Abs(s, fields)), old(AbsPath(sp, fields))).0 == Abs(cs, fields)
      ensures Unlink(old(Abs(s, fields)), old(AbsPath(sp, fields))).1 == AbsPath(dp, fields)
    {
      Focus(sp, s, externalLeaf, links, fields);
      var suc, mq, ms := CopySuccessor(x, sp, s);
      p := GetParent(suc, mq, ms);
      Focus(mq, ms, externalLeaf, links, fields);
      if suc.right == externalLeaf {
        DeleteLeaf(suc, mq, ms);
      } else {
        DeleteUnary(suc, 'R', mq, ms);
      }
      dp, cs := mq, ms.right;
    }

    /**
     * The unlinking half of delete (AVLTree.java:251-277): x, at the end of the path sp, is
     * removed as a leaf, as a unary node or, when binary, by taking over its successor's
     * key and info and removing the successor. p is where the climb starts; the tree is the
     * replacement cs plugged into the frames dp, and both are what AvlUpdate.Unlink computes.
     */
    method Detach(x: AvlNode<V>, ghost sp: seq<SFrame<V>>, ghost s: Shape<V>)
      returns (p: AvlNode?<V>, ghost dp: seq<SFrame<V>>, ghost cs: Shape<V>)
      requires Wired() && shape == SPlug(sp, s) && s.Real? && s.node == x
      modifies this`root, this`links, this`fields, this`shape, Objs(shape)
      ensures Wired() && shape == SPlug(dp, cs) && p == ParentOf(dp) && nodes == old(nodes)
      ensures fields.Keys <= old(fields.Keys)
      ensures old(Abs(s, fields)).Node?
      ensures Unlink(old(Abs(s, fields)), old(AbsPath(sp, fields))).0 == Abs(cs, fields)
      ensures Unlink(old(Abs(s, fields)), old(AbsPath(sp, fields))).1 == AbsPath(dp, fields)
    {
      Focus(sp, s, externalLeaf, links, fields);
      assert (x.left == externalLeaf <==> s.left.Ext?) && (x.right == externalLeaf <==> s.right.Ext?);
      ChildHeights(sp, s, externalLeaf, links, fields);
      ghost var t, path := Abs(s, fields), AbsPath(sp, fields);
      p := GetParent(x, sp, s);
      if x.left == externalLeaf && x.right == externalLeaf {
        assert Unlink(t, path).0 == Leaf && Unlink(t, path).1 == path;
        DeleteLeaf(x, sp, s);
        dp, cs := sp, Ext;
      } else if x.right == externalLeaf {
        assert Unlink(t, path).0 == Abs(s.left, fields) && Unlink(t, path).1 == path;
        DeleteUnary(x, 'L', sp, s);
        dp, cs := sp, s.left;
      } else if x.left == externalLeaf {
        assert Unlink(t, path).0 == Abs(s.right, fields) && Unlink(t, path).1 == path;
        DeleteUnary(x, 'R', sp, s);
        dp, cs := sp, s.right;
      } else {
        p, dp, cs := DeleteBinary(x, sp, s);
      }
    }

    /**
     * The climb of delete (AVLTree.java:280-291) from the parent p of the removed node, whose
     * place now holds cs: updateHeight(p), then rebalance and updateHeight on every node from
     * p up to the root. As written the source calls updateHeight on a null p when the removed
     * node was the root; the model then leaves the tree as it is and counts nothing.
     */
    method ClimbFrom(p: AvlNode?<V>, ghost dp: seq<SFrame<V>>, ghost cs: Shape<V>, ghost x: Tree<V>)
      returns (counter: int)
      requires Wired() && shape == SPlug(dp, cs) && p == ParentOf(dp)
      requires var path, repl := AbsPath(dp, fields), Abs(cs, fields);
        Avl(Plug(path, x)) && Unary(x, repl) && SanePath(path) && Sane(repl) && Bst(Plug(path, repl))
      modifies this`root, this`links, this`fields, this`shape, Objs(shape)
      ensures Wired() && Bst(Model()) && fields.Keys == old(fields.Keys) && nodes == old(nodes)
      ensures Model() == Climb(old(Abs(cs, fields)), old(AbsPath(dp, fields))).0
      ensures counter == Climb(old(Abs(cs, fields)), old(AbsPath(dp, fields))).1
    {
      ghost var path, repl := AbsPath(dp, fields), Abs(cs, fields);
      Focus(dp, cs, externalLeaf, links, fields);
      if p == null {
        AbsPlug(dp, cs, fields);
        counter := 0;
      } else {
        counter := ClimbAbove(p, dp, cs, x, Climb(repl, path));
      }
    }

    /** The climb of delete from a parent p that exists (AVLTree.java:280-291), which ends
        with the tree and count `goal` of AvlUpdate.Climb. */
    method ClimbAbove(p: AvlNode<V>, ghost dp: seq<SFrame<V>>, ghost cs: Shape<V>, ghost x: Tree<V>,
                      ghost goal: (Tree<V>, int))
      returns (counter: int)
      requires Wired() && shape == SPlug(dp, cs) && dp != [] && p == dp[0].node
      requires var path, repl := AbsPath(dp, fields), Abs(cs, fields);
        && Avl(Plug(path, x)) && Unary(x, repl) && SanePath(path) && Sane(repl) && Bst(Plug(path, repl))
        && goal == Climb(repl, path)
      modifies this`root, this`links, this`fields, this`shape, Objs(shape)
      ensures Wired() && Bst(Model()) && fields.Keys == old(fields.Keys) && nodes == old(nodes)
      ensures Model() == goal.0 && counter == goal.1
    {
      PathTopIn(dp, cs, externalLeaf, links, fields);
      var changed := ClimbStart(p, dp, cs, x, goal);
      ghost var s := SAttach(dp[0], cs);
      ghost var w := Walk(Abs(s, fields), AbsPath(dp[1..], fields), false);
      assert goal.0 == w.0 && goal.1 == Count(changed) + w.1;
      counter := 0;
      if changed {
        counter := counter + 1;
      }
      var c := Retrace(p, dp[1..], s);
      assert Model() == w.0 && c == w.1;
      counter := counter + c;
    }

    /**
     * The first step of that climb, updateHeight(p) (AVLTree.java:281-283): afterwards the
     * upward walk from p over the rest of the path is what remains of AvlUpdate.Climb.
     */
    method ClimbStart(p: AvlNode<V>, ghost dp: seq<SFrame<V>>, ghost cs: Shape<V>, ghost x: Tree<V>,
                      ghost goal: (Tree<V>, int))
      returns (changed: bool)
      requires Wired() && shape == SPlug(dp, cs) && dp != [] && p == dp[0].node
      requires var path, repl := AbsPath(dp, fields), Abs(cs, fields);
        && Avl(Plug(path, x)) && Unary(x, repl) && SanePath(path) && Sane(repl) && Bst(Plug(path, repl))
        && goal == Climb(repl, path)
      modifies this`fields, p`height
      ensures Wired() && Bst(Model()) && fields.Keys == old(fields.Keys) && nodes == old(nodes)
      ensures var s := SAttach(dp[0], cs); shape == SPlug(dp[1..], s) && s.Real? && s.node == p
      ensures var t, up := Abs(SAttach(dp[0], cs), fields), AbsPath(dp[1..], fields);
        && t.Node? && Sane(t.left) && Sane(t.right) && SanePath(up) && Steady(t, up, false)
        && Walk(t, up, false).0 == goal.0 && Count(changed) + Walk(t, up, false).1 == goal.1
    {
      ghost var path, repl := AbsPath(dp, fields), Abs(cs, fields);
      Focus(dp, cs, externalLeaf, links, fields);
      ClimbReady(x, repl, path);
      changed := UpdateParent(p, dp, cs);
      ClimbFrame(dp, cs, fields);
    }

    /**
     * delete(k) (AVLTree.java:240-296): -1 and no change when k is absent; otherwise the node
     * is unlinked, the climb runs from where it was and the node counter drops by one. The
     * tree stays a valid AVL tree counting its nodes, and tree and count are what
     * AvlUpdate.Delete computes. The clause old(Sane(Model())) is the precondition of
     * AvlUpdate.Delete, which the next clause applies to the old tree.
     */
    method Delete(k: int) returns (counter: int)
      requires Valid()
      modifies this, Objs(shape)
      ensures Valid() && old(Sane(Model()))
      ensures Model() == AvlUpdate.Delete(old(Model()), k).0
      ensures counter == AvlUpdate.Delete(old(Model()), k).1
    {
      ghost var t0 := Model();
      AvlSane(t0);
      var x, sp, s := FindNode(k);
      if x == null {
        assert AvlUpdate.Delete(t0, k).0 == t0 && AvlUpdate.Delete(t0, k).1 == -1;
        return -1;
      }
      counter := Remove(x, k, sp, s);
    }

    /** treeSearch(root, k) (AVLTree.java:241) with the place it ends at: the node holding k,
        or null when the descent of AvlOps.Locate ends at a leaf. */
    method FindNode(k: int) returns (x: AvlNode?<V>, ghost sp: seq<SFrame<V>>, ghost s: Shape<V>)
      requires Wired()
      ensures x == null <==> Locate(Model(), k, []).0.Leaf?
      ensures x != null ==> shape == SPlug(sp, s) && s.Real? && s.node == x
      ensures x != null ==>
        Locate(Model(), k, []).0 == Abs(s, fields) && Locate(Model(), k, []).1 == AbsPath(sp, fields)
    {
      ghost var found := SLocate(shape, k, [], fields);
      SLocateAbs(shape, k, [], fields);
      s, sp := found.0, found.1;
      x := TreeSearch(root, k, [], shape);
      if x != null {
        Focus(sp, s, externalLeaf, links, fields);
      }
    }

    /** delete(k) once treeSearch has found k's node x at the end of the path sp
        (AVLTree.java:251-295): the unlinking, the climb and the node counter. */
    method Remove(x: AvlNode<V>, ghost k: int, ghost sp: seq<SFrame<V>>, ghost s: Shape<V>) returns (counter: int)
      requires Valid() && Sane(Model()) && shape == SPlug(sp, s) && s.Real? && s.node == x
      requires Locate(Model(), k, []).0 == Abs(s, fields) && Locate(Model(), k, []).1 == AbsPath(sp, fields)
      requires Abs(s, fields).Node?
      modifies this, Objs(shape)
      ensures Valid()
      ensures Model() == AvlUpdate.Delete(old(Model()), k).0
      ensures counter == AvlUpdate.Delete(old(Model()), k).1
    {
      ghost var t0 := Model();
      DeleteFound(t0, k);
      counter := Unhook(x, k, sp, s);
      SetNodes(nodes - 1);
    }

    /** The unlinking and the climb of delete (AVLTree.java:251-291). */
    method Unhook(x: AvlNode<V>, ghost k: int, ghost sp: seq<SFrame<V>>, ghost s: Shape<V>) returns (counter: int)
      requires Valid() && Sane(Model()) && shape == SPlug(sp, s) && s.Real? && s.node == x
      requires Locate(Model(), k, []).0 == Abs(s, fields) && Locate(Model(), k, []).1 == AbsPath(sp, fields)
      modifies this`root, this`links, this`fields, this`shape, Objs(shape)
      ensures Wired() && nodes == old(nodes)
      ensures Model() == AvlUpdate.Delete(old(Model()), k).0
      ensures counter == AvlUpdate.Delete(old(Model()), k).1
    {
      ghost var t0 := Model();
      ghost var spot, path := Abs(s, fields), AbsPath(sp, fields);
      Focus(sp, s, externalLeaf, links, fields);
      assert spot.Node?;
      DeleteReady(t0, k);
      ghost var repl, path1 := Unlink(spot, path).0, Unlink(spot, path).1;
      assert AvlUpdate.Delete(t0, k).0 == Climb(repl, path1).0;
      assert AvlUpdate.Delete(t0, k).1 == Climb(repl, path1).1;
      var p, dp, cs := Detach(x, sp, s);
      assert Objs(shape) <= old(Objs(shape));
      counter := ClimbFrom(p, dp, cs, Removed(spot));
    }

    /** empty() (AVLTree.java:58-60): whether the root is null. */
    function Empty(): (r: bool)
      reads this, externalLeaf
      reads links.Keys`left, links.Keys`right, links.Keys`parent, links.Keys`isExternal
      reads fields.Keys`key, fields.Keys`info, fields.Keys`height
      requires Wired()
      ensures r <==> Model().Leaf?
    {
      root == null
    }

    /** size() (AVLTree.java:461-463): the node counter, which is the number of nodes. */
    function Size(): (r: int)
      reads this, externalLeaf
      reads links.Keys`left, links.Keys`right, links.Keys`parent, links.Keys`isExternal
      reads fields.Keys`key, fields.Keys`info, fields.Keys`height
      requires Valid()
      ensures r == |InOrder(Model())| && r >= 0
    {
      nodes
    }

    /**
     * min() (AVLTree.java:382-392): None for an empty tree, otherwise the info of the node
     * reached by going left from the root until the external leaf. The loop always runs
     * once on a non-empty tree, so the source's final null test (AVLTree.java:391) never
     * fires and is not modelled.
     */
    method Min() returns (r: Option<V>)
      requires Wired()
      ensures r == MinInfo(Model())
    {
      if root == null {
        return None;
      }
      var n := root;
      var a: AvlNode? := null;
      ghost var q, t := [], shape;
      while n != null && n != externalLeaf
        invariant shape == SPlug(q, t) && n == TopOf(t, externalLeaf)
        invariant t.Ext? ==> a != null && a in fields
        invariant MinInfo(Model()) == if t.Ext? then Some(fields[a].info) else MinInfo(Abs(t, fields))
        decreases t
      {
        Focus(q, t, externalLeaf, links, fields);
        assert t.left.Real? ==> Abs(t.left, fields).Node?;
        a := n;
        n := n.left;
        assert ([SLeftOf(t.node, t.right)] + q)[1..] == q;
        q, t := [SLeftOf(t.node, t.right)] + q, t.left;
      }
      Focus(q, t, externalLeaf, links, fields);
      r := Some(a.info);
    }

    /** max() (AVLTree.java:401-411): min with right for left. */
    method Max() returns (r: Option<V>)
      requires Wired()
      ensures r == MaxInfo(Model())
    {
      if root == null {
        return None;
      }
      var n := root;
      var a: AvlNode? := null;
      ghost var q, t := [], shape;
      while n != null && n != externalLeaf
        invariant shape == SPlug(q, t) && n == TopOf(t, externalLeaf)
        invariant t.Ext? ==> a != null && a in fields
        invariant MaxInfo(Model()) == if t.Ext? then Some(fields[a].info) else MaxInfo(Abs(t, fields))
        decreases t
      {
        Focus(q, t, externalLeaf, links, fields);
        assert t.right.Real? ==> Abs(t.right, fields).Node?;
        a := n;
        n := n.right;
        assert ([SRightOf(t.left, t.node)] + q)[1..] == q;
        q, t := [SRightOf(t.left, t.node)] + q, t.right;
      }
      Focus(q, t, externalLeaf, links, fields);
      r := Some(a.info);
    }

    /**
     * inOrderTraversal(x) (AVLTree.java:603-611): the nodes of the subtree under x in
     * symmetric order, none for null or the external leaf; their keys and infos are the
     * entries of AvlCore.InOrder on the value subtree.
     */
    function InOrderTraversal(x: AvlNode?<V>, ghost sp: seq<SFrame<V>>, ghost s: Shape<V>): (r: seq<AvlNode<V>>)
      reads this, externalLeaf
      reads links.Keys`left, links.Keys`right, links.Keys`parent, links.Keys`isExternal
      reads fields.Keys`key, fields.Keys`info, fields.Keys`height
      requires Wired() && shape == SPlug(sp, s)
      requires x == (if s.Ext? && sp == [] then null else TopOf(s, externalLeaf))
      ensures |r| == |InOrder(Abs(s, fields))|
      ensures forall i :: 0 <= i < |r| ==>
        r[i] in fields && (fields[r[i]].key, fields[r[i]].info) == InOrder(Abs(s, fields))[i]
      decreases s
    {
      Focus(sp, s, externalLeaf, links, fields);
      if x == null || x.isExternal then []
      else
        assert ([SLeftOf(x, s.right)] + sp)[1..] == sp && ([SRightOf(s.left, x)] + sp)[1..] == sp;
        var left := InOrderTraversal(x.left, [SLeftOf(x, s.right)] + sp, s.left);
        var right := InOrderTraversal(x.right, [SRightOf(s.left, x)] + sp, s.right);
        TraversalJoin(left, x, right, fields, InOrder(Abs(s.left, fields)), InOrder(Abs(s.right, fields)));
        left + [x] + right
    }

    /** keysToArray() (AVLTree.java:419-429): the keys of inOrderTraversal(root), in order, in
        an array of size() entries. */
    method KeysToArray() returns (arr: array<int>)
      requires Valid()
      ensures fresh(arr) && arr[..] == Keys(InOrder(Model()))
    {
      var list := InOrderTraversal(root, [], shape);
      ghost var entries := InOrder(Model());
      KeysLength(entries);
      arr := FillKeys(nodes, list, Keys(entries));
    }

    /** The loop of keysToArray (AVLTree.java:420-427): the array of n entries holds the keys
        of the listed nodes, in list order. */
    method FillKeys(n: int, list: seq<AvlNode<V>>, ghost keys: seq<int>) returns (arr: array<int>)
      requires n == |list| == |keys| && forall j :: 0 <= j < |list| ==> list[j].key == keys[j]
      ensures fresh(arr) && arr[..] == keys
    {
      arr := new int[n];
      var i := 0;
      while i < |list|
        invariant 0 <= i <= |list| == arr.Length
        invariant forall j :: 0 <= j < i ==> arr[j] == keys[j]
      {
        arr[i] := list[i].key;
        i := i + 1;
      }
    }

    /** infoToArray() (AVLTree.java:439-449): the infos of inOrderTraversal(root), in key
        order, in an array of size() entries. */
    method InfoToArray() returns (arr: array<V>)
      requires Valid()
      ensures fresh(arr) && arr[..] == Infos(InOrder(Model()))
    {
      var list := InOrderTraversal(root, [], shape);
      ghost var entries := InOrder(Model());
      KeysLength(entries);
      arr := FillInfos(nodes, list, Infos(entries));
    }

    /** The loop of infoToArray (AVLTree.java:440-447): the array of n entries holds the infos
        of the listed nodes, in list order. */
    method FillInfos(n: int, list: seq<AvlNode<V>>, ghost infos: seq<V>) returns (arr: array<V>)
      requires n == |list| == |infos| && forall j :: 0 <= j < |list| ==> list[j].info == infos[j]
      ensures fresh(arr) && arr[..] == infos
    {
      arr := new V[n];
      var i := 0;
      while i < |list|
        invariant 0 <= i <= |list| == arr.Length
        invariant forall j :: 0 <= j < i ==> arr[j] == infos[j]
      {
        arr[i] := list[i].info;
        i := i + 1;
      }
    }
  }
}
