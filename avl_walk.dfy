/**
 * The upward walk of insert and delete (AVLTree.java:169-179 and 282-291):
 * `while (p != null) { rebalance(p); updateHeight(p); p = p.getParent(); }`.
 *
 * The parent links are modelled by a zipper: a path of frames from the parent of the
 * current node up to the root, each frame holding one ancestor and the sibling subtree.
 * Climbing to the parent is plugging the current subtree into the first frame.
 */
module AvlWalk {
  import opened AvlCore

  /** An ancestor of the current subtree: LeftOf when the subtree is its left child,
      RightOf when it is its right child. The stored height of the ancestor is kept,
      since the walk reaches it before recomputing it. */
  datatype Frame<V> =
    | LeftOf(key: int, info: V, height: int, right: Tree<V>)
    | RightOf(left: Tree<V>, key: int, info: V, height: int)

  /** Put a subtree back under its parent. */
  function Attach<V>(f: Frame<V>, t: Tree<V>): (r: Tree<V>)
    ensures r.Node? && r.key == f.key && r.info == f.info && r.height == f.height
  {
    match f
    case LeftOf(k, v, h, r) => Node(t, k, v, h, r)
    case RightOf(l, k, v, h) => Node(l, k, v, h, t)
  }

  /** Rebuild the whole tree from a subtree and the path of its ancestors (innermost first). */
  function Plug<V>(path: seq<Frame<V>>, t: Tree<V>): Tree<V>
    decreases |path|
  {
    if path == [] then t else Plug(path[1..], Attach(path[0], t))
  }

  /** The entries the ancestors contribute before the current subtree in symmetric order. */
  function Before<V>(path: seq<Frame<V>>): seq<(int, V)>
    decreases |path|
  {
    if path == [] then []
    else
      Before(path[1..]) +
      match path[0]
      case LeftOf(_, _, _, _) => []
      case RightOf(l, k, v, _) => InOrder(l) + [(k, v)]
  }

  /** The entries the ancestors contribute after the current subtree in symmetric order. */
  function After<V>(path: seq<Frame<V>>): seq<(int, V)>
    decreases |path|
  {
    if path == [] then []
    else
      (match path[0]
       case LeftOf(k, v, _, r) => [(k, v)] + InOrder(r)
       case RightOf(_, _, _, _) => []) +
      After(path[1..])
  }

  /** Symmetric order of a plugged tree: what lies before, the subtree, what lies after. */
  lemma {:induction false} PlugInOrder<V>(path: seq<Frame<V>>, t: Tree<V>)
    ensures InOrder(Plug(path, t)) == Before(path) + InOrder(t) + After(path)
    decreases |path|
  {
    if path != [] {
      PlugInOrder(path[1..], Attach(path[0], t));
    }
  }

  /** The symmetric order of a plugged tree around the root entry of the plugged subtree. */
  lemma PlugAround<V>(path: seq<Frame<V>>, t: Tree<V>)
    requires t.Node?
    ensures InOrder(Plug(path, t)) ==
      Before(path) + InOrder(t.left) + [(t.key, t.info)] + (InOrder(t.right) + After(path))
  {
    PlugInOrder(path, t);
  }

  /** Plugging into a concatenated path is plugging twice. */
  lemma {:induction false} PlugAppend<V>(p: seq<Frame<V>>, q: seq<Frame<V>>, t: Tree<V>)
    ensures Plug(p + q, t) == Plug(q, Plug(p, t))
    decreases |p|
  {
    if p != [] {
      assert (p + q)[0] == p[0] && (p + q)[1..] == p[1..] + q;
      PlugAppend(p[1..], q, Attach(p[0], t));
    } else {
      assert p + q == q;
    }
  }

  lemma {:induction false} BeforeAfterAppend<V>(p: seq<Frame<V>>, q: seq<Frame<V>>)
    ensures Before(p + q) == Before(q) + Before(p)
    ensures After(p + q) == After(p) + After(q)
    decreases |p|
  {
    if p != [] {
      assert (p + q)[0] == p[0] && (p + q)[1..] == p[1..] + q;
      BeforeAfterAppend(p[1..], q);
    } else {
      assert p + q == q;
    }
  }

  /** In a search tree, every entry of a subtree lies on the side of its parent's key that
      the first frame of its path says. */
  lemma FrameSide<V>(path: seq<Frame<V>>, t: Tree<V>, e: (int, V))
    requires path != [] && Sorted(InOrder(Plug(path, t))) && e in InOrder(t)
    ensures path[0].LeftOf? ==> e.0 < path[0].key
    ensures path[0].RightOf? ==> path[0].key < e.0
  {
    PlugInOrder(path, t);
    var s := InOrder(Plug(path, t));
    var i :| 0 <= i < |InOrder(t)| && InOrder(t)[i] == e;
    var b := Before(path);
    assert s[|b| + i] == e;
    match path[0]
    case LeftOf(k, v, _, r) =>
      assert After(path) == [(k, v)] + InOrder(r) + After(path[1..]);
      assert s[|b| + |InOrder(t)|] == (k, v);
      assert s[|b| + i].0 < s[|b| + |InOrder(t)|].0;
    case RightOf(l, k, v, _) =>
      assert b == Before(path[1..]) + (InOrder(l) + [(k, v)]);
      assert s[|b| - 1] == (k, v);
      assert s[|b| - 1].0 < s[|b| + i].0;
  }

  /** Two frames that differ at most in the ancestor's stored height. */
  ghost predicate SameFrame<V>(f: Frame<V>, g: Frame<V>)
  {
    match f
    case LeftOf(k, v, _, r) => g.LeftOf? && g.key == k && g.info == v && g.right == r
    case RightOf(l, k, v, _) => g.RightOf? && g.key == k && g.info == v && g.left == l
  }

  ghost predicate Follows<V>(path: seq<Frame<V>>, opath: seq<Frame<V>>)
  {
    |path| == |opath| && forall i :: 0 <= i < |path| ==> SameFrame(path[i], opath[i])
  }

  /** Stored heights of ancestors do not take part in the symmetric order. */
  lemma {:induction false} FollowsOrder<V>(path: seq<Frame<V>>, opath: seq<Frame<V>>)
    requires Follows(path, opath)
    ensures Before(path) == Before(opath) && After(path) == After(opath)
    decreases |path|
  {
    if path != [] {
      assert Follows(path[1..], opath[1..]) by {
        forall i | 0 <= i < |path| - 1 ensures SameFrame(path[1..][i], opath[1..][i]) {
          assert SameFrame(path[i + 1], opath[i + 1]);
        }
      }
      FollowsOrder(path[1..], opath[1..]);
      assert SameFrame(path[0], opath[0]);
    }
  }

  /** Every sibling on the path is Sane: the walk can rebalance every ancestor. */
  ghost predicate SanePath<V>(path: seq<Frame<V>>)
  {
    forall i :: 0 <= i < |path| ==>
      match path[i]
      case LeftOf(_, _, _, r) => Sane(r)
      case RightOf(l, _, _, _) => Sane(l)
  }

  /** A Sane tree is made of a Sane subtree and Sane siblings along its path. */
  lemma {:induction false} PlugSane<V>(path: seq<Frame<V>>, t: Tree<V>)
    requires Sane(Plug(path, t))
    ensures Sane(t) && SanePath(path)
    decreases |path|
  {
    if path != [] {
      PlugSane(path[1..], Attach(path[0], t));
      forall i | 0 <= i < |path| ensures SanePath([path[i]]) {
        if i > 0 {
          assert path[i] == path[1..][i - 1];
        }
      }
    }
  }

  lemma SanePathAppend<V>(p: seq<Frame<V>>, q: seq<Frame<V>>)
    requires SanePath(p) && SanePath(q)
    ensures SanePath(p + q)
  {
    forall i | 0 <= i < |p + q| ensures SanePath([(p + q)[i]]) {
      if i < |p| {
        assert SanePath([p[i]]);
      } else {
        assert SanePath([q[i - |p|]]);
      }
    }
  }

  lemma SanePathTail<V>(path: seq<Frame<V>>)
    requires SanePath(path) && path != []
    ensures SanePath(path[1..])
  {
    forall i | 0 <= i < |path| - 1 ensures path[1..][i] == path[i + 1] {
    }
  }

  /**
   * The loop `while (p != null)` started at p, the root of focus. After a rotation at p,
   * p is a child of the new subtree root, so p.getParent() is that new root and the next
   * pass is at the same position again (revisit); otherwise the walk climbs one frame.
   */
  function Walk<V>(focus: Tree<V>, path: seq<Frame<V>>, revisit: bool): (r: (Tree<V>, int))
    requires focus.Node? && Sane(focus.left) && Sane(focus.right) && SanePath(path)
    ensures r.0.Node? && Sane(r.0) && r.1 >= 0
    decreases |path|, if revisit then 0 else 1
  {
    var (f1, c1, rotated) := Visit(focus);
    if rotated && !revisit then
      var (t, c) := Walk(f1, path, true);
      (t, c1 + c)
    else if path == [] then
      (f1, c1)
    else
      var up := Attach(path[0], f1);
      var (t, c) := Walk(up, path[1..], false);
      (t, c1 + c)
  }

  /**
   * The walk never rotates when it revisits a position. Walk then visits the positions the
   * loop of the source visits: as written, a rotation during a revisit would make the loop
   * visit the same position once more, where Walk climbs.
   */
  ghost predicate Steady<V>(focus: Tree<V>, path: seq<Frame<V>>, revisit: bool)
    requires focus.Node? && Sane(focus.left) && Sane(focus.right) && SanePath(path)
    decreases |path|, if revisit then 0 else 1
  {
    var (f1, _, rotated) := Visit(focus);
    if rotated then !revisit && Steady(f1, path, true)
    else path == [] || Steady(Attach(path[0], f1), path[1..], false)
  }

  /** The walk keeps the symmetric order of the whole tree. */
  lemma {:induction false} WalkInOrder<V>(focus: Tree<V>, path: seq<Frame<V>>, revisit: bool)
    requires focus.Node? && Sane(focus.left) && Sane(focus.right) && SanePath(path)
    ensures InOrder(Walk(focus, path, revisit).0) == InOrder(Plug(path, focus))
    decreases |path|, if revisit then 0 else 1
  {
    var (f1, c1, rotated) := Visit(focus);
    PlugInOrder(path, focus);
    PlugInOrder(path, f1);
    if rotated && !revisit {
      WalkInOrder(f1, path, true);
    } else if path != [] {
      WalkInOrder(Attach(path[0], f1), path[1..], false);
    }
  }

  /**
   * The state of the walk at its current subtree `f` compared with the subtree `o` that
   * held the same position in the AVL tree before the edit: either f is already an AVL
   * tree at most one level away from o, or f is o with one child replaced by an AVL tree
   * at most one level away from the child it replaced.
   */
  ghost predicate Near<V>(f: Tree<V>, o: Tree<V>)
  {
    || (f.Node? && Avl(f) && -1 <= H(f) - H(o) <= 1)
    || (f.Node? && o.Node? && Avl(f.left) && Avl(f.right) &&
        ((f.right == o.right && -1 <= H(f.left) - H(o.left) <= 1) ||
         (f.left == o.left && -1 <= H(f.right) - H(o.right) <= 1)))
  }

  lemma {:induction false} PlugAvl<V>(path: seq<Frame<V>>, t: Tree<V>)
    requires Avl(Plug(path, t))
    ensures Avl(t)
    decreases |path|
  {
    if path != [] {
      PlugAvl(path[1..], Attach(path[0], t));
    }
  }

  /** Replacing a subtree by an AVL tree of the same height keeps the whole tree AVL. */
  lemma {:induction false} PlugAvlReplace<V>(path: seq<Frame<V>>, t: Tree<V>, u: Tree<V>)
    requires Avl(Plug(path, t)) && Avl(u) && H(u) == H(t)
    ensures Avl(Plug(path, u))
    decreases |path|
  {
    if path != [] {
      PlugAvl(path[1..], Attach(path[0], t));
      PlugAvlReplace(path[1..], Attach(path[0], t), Attach(path[0], u));
    }
  }

  lemma FollowsRefl<V>(path: seq<Frame<V>>)
    ensures Follows(path, path)
  {
    forall i | 0 <= i < |path| ensures SameFrame(path[i], path[i]) {
      match path[i]
      case LeftOf(_, _, _, _) =>
      case RightOf(_, _, _, _) =>
    }
  }

  lemma {:induction false} VisitNear<V>(f: Tree<V>, o: Tree<V>)
    requires Near(f, o) && Avl(o)
    ensures Sane(f.left) && Sane(f.right)
    ensures Avl(Visit(f).0) && -1 <= H(Visit(f).0) - H(o) <= 1
    ensures Avl(f) ==> Visit(f) == (f, 0, false)
  {
    if Avl(f) && -1 <= H(f) - H(o) <= 1 {
      VisitValid(f);
    } else {
      VisitRestores(f);
    }
  }

  /** The walk ends with an AVL tree whenever it starts in a Near state. */
  lemma {:induction false} WalkRestores<V>(focus: Tree<V>, path: seq<Frame<V>>, revisit: bool,
                                           ofocus: Tree<V>, opath: seq<Frame<V>>)
    requires Avl(Plug(opath, ofocus)) && Follows(path, opath) && Near(focus, ofocus)
    requires SanePath(path)
    ensures Sane(focus.left) && Sane(focus.right)
    ensures Avl(Walk(focus, path, revisit).0)
    decreases |path|, if revisit then 0 else 1
  {
    PlugAvl(opath, ofocus);
    VisitNear(focus, ofocus);
    var (f1, c1, rotated) := Visit(focus);
    if rotated && !revisit {
      WalkRestores(f1, path, true, ofocus, opath);
    } else if path != [] {
      var up := Attach(path[0], f1);
      var oup := Attach(opath[0], ofocus);
      assert Plug(opath, ofocus) == Plug(opath[1..], oup);
      PlugAvl(opath[1..], oup);
      assert SameFrame(path[0], opath[0]);
      assert Near(up, oup);
      assert Follows(path[1..], opath[1..]) by {
        forall i | 0 <= i < |path| - 1 ensures SameFrame(path[1..][i], opath[1..][i]) {
          assert SameFrame(path[i + 1], opath[i + 1]);
        }
      }
      SanePathTail(path);
      AvlSane(f1);
      WalkRestores(up, path[1..], false, oup, opath[1..]);
    }
  }

  /** Started in a Near state, the walk never rotates on a revisit: the subtree a rotation
      leaves is already an AVL tree. */
  lemma {:induction false} WalkSteady<V>(focus: Tree<V>, path: seq<Frame<V>>, revisit: bool,
                                         ofocus: Tree<V>, opath: seq<Frame<V>>)
    requires Avl(Plug(opath, ofocus)) && Follows(path, opath) && Near(focus, ofocus)
    requires SanePath(path) && (revisit ==> Avl(focus))
    ensures Sane(focus.left) && Sane(focus.right)
    ensures Steady(focus, path, revisit)
    decreases |path|, if revisit then 0 else 1
  {
    PlugAvl(opath, ofocus);
    VisitNear(focus, ofocus);
    var (f1, c1, rotated) := Visit(focus);
    if rotated {
      AvlSane(f1);
      WalkSteady(f1, path, true, ofocus, opath);
    } else if path != [] {
      var up := Attach(path[0], f1);
      var oup := Attach(opath[0], ofocus);
      assert Plug(opath, ofocus) == Plug(opath[1..], oup);
      PlugAvl(opath[1..], oup);
      assert SameFrame(path[0], opath[0]);
      assert Near(up, oup);
      assert Follows(path[1..], opath[1..]) by {
        forall i | 0 <= i < |path| - 1 ensures SameFrame(path[1..][i], opath[1..][i]) {
          assert SameFrame(path[i + 1], opath[i + 1]);
        }
      }
      SanePathTail(path);
      AvlSane(f1);
      WalkSteady(up, path[1..], false, oup, opath[1..]);
    }
  }
}
