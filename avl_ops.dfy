/**
 * The value model of the public operations of AVLTree.java: search and treeSearch,
 * insert, delete (leaf, unary and binary cases), minSubtree, successor, min and max,
 * each proved against the association-list reference of AvlOrder.
 */
module AvlOps {
  import opened AvlCore
  import opened AvlWalk
  import opened AvlOrder

  /**
   * The descent shared by insert (AVLTree.java:132-137) and treeSearch (AVLTree.java:90-97):
   * stop at the external leaf or at the node holding k, otherwise go left when k is smaller
   * and right when it is larger. The result is the subtree reached and the path above it.
   * treeSearch as written also stops at the external leaf when k == -1, the sentinel's key
   * (AVLTree.java:45, 91); the descent here never takes the sentinel for a match.
   */
  function Locate<V>(t: Tree<V>, k: int, path: seq<Frame<V>>): (r: (Tree<V>, seq<Frame<V>>))
    ensures Plug(r.1, r.0) == Plug(path, t)
    ensures r.0.Node? ==> r.0.key == k
  {
    match t
    case Leaf => (t, path)
    case Node(l, key, v, h, rt) =>
      if key == k then (t, path)
      else if k < key then Locate(l, k, [LeftOf(key, v, h, rt)] + path)
      else Locate(rt, k, [RightOf(l, key, v, h)] + path)
  }

  /** What lies before and after the left child of t, once t joins the path. */
  lemma LeftFrameOrder<V>(t: Tree<V>, path: seq<Frame<V>>)
    requires t.Node?
    ensures var p := [LeftOf(t.key, t.info, t.height, t.right)] + path;
      Before(p) == Before(path) && After(p) == [(t.key, t.info)] + InOrder(t.right) + After(path) &&
      Before(path) + InOrder(t) + After(path) == (Before(p) + InOrder(t.left)) + After(p)
  {
    var p := [LeftOf(t.key, t.info, t.height, t.right)] + path;
    assert p[0] == LeftOf(t.key, t.info, t.height, t.right) && p[1..] == path;
  }

  /** What lies before and after the right child of t, once t joins the path. */
  lemma RightFrameOrder<V>(t: Tree<V>, path: seq<Frame<V>>)
    requires t.Node?
    ensures var p := [RightOf(t.left, t.key, t.info, t.height)] + path;
      Before(p) == Before(path) + InOrder(t.left) + [(t.key, t.info)] && After(p) == After(path) &&
      Before(path) + InOrder(t) + After(path) == Before(p) + (InOrder(t.right) + After(p))
  {
    var p := [RightOf(t.left, t.key, t.info, t.height)] + path;
    assert p[0] == RightOf(t.left, t.key, t.info, t.height) && p[1..] == path;
  }

  /** One step of the descent to the left keeps k between the two sides. */
  lemma DescendLeft<V>(t: Tree<V>, k: int, path: seq<Frame<V>>)
    requires t.Node? && k < t.key
    requires Sorted(Before(path) + InOrder(t) + After(path))
    requires Below(Before(path), k) && Above(After(path), k)
    ensures var p := [LeftOf(t.key, t.info, t.height, t.right)] + path;
      Sorted(Before(p) + InOrder(t.left) + After(p)) && Below(Before(p), k) && Above(After(p), k)
  {
    var p := [LeftOf(t.key, t.info, t.height, t.right)] + path;
    LeftFrameOrder(t, path);
    var after := After(p);
    SortedSplit(Before(p) + InOrder(t.left), after);
    forall i | 0 <= i < |after| ensures k < after[i].0 {
      assert after[0].0 == t.key;
    }
  }

  /** One step of the descent to the right keeps k between the two sides. */
  lemma DescendRight<V>(t: Tree<V>, k: int, path: seq<Frame<V>>)
    requires t.Node? && t.key < k
    requires Sorted(Before(path) + InOrder(t) + After(path))
    requires Below(Before(path), k) && Above(After(path), k)
    ensures var p := [RightOf(t.left, t.key, t.info, t.height)] + path;
      Sorted(Before(p) + InOrder(t.right) + After(p)) && Below(Before(p), k) && Above(After(p), k)
  {
    var p := [RightOf(t.left, t.key, t.info, t.height)] + path;
    RightFrameOrder(t, path);
    var before := Before(p);
    SortedSplit(before, InOrder(t.right) + After(p));
    assert before + (InOrder(t.right) + After(p)) == before + InOrder(t.right) + After(p);
    forall i | 0 <= i < |before| ensures before[i].0 < k {
      assert before[|before| - 1].0 == t.key;
    }
  }

  /** The descent keeps k strictly between what lies before and after the current subtree. */
  lemma {:induction false} LocateSplits<V>(t: Tree<V>, k: int, path: seq<Frame<V>>)
    requires Sorted(Before(path) + InOrder(t) + After(path))
    requires Below(Before(path), k) && Above(After(path), k)
    ensures Below(Before(Locate(t, k, path).1), k) && Above(After(Locate(t, k, path).1), k)
  {
    match t
    case Leaf =>
    case Node(l, key, v, h, r) =>
      if k < key {
        DescendLeft(t, k, path);
        LocateSplits(l, k, [LeftOf(key, v, h, r)] + path);
      } else if key < k {
        DescendRight(t, k, path);
        LocateSplits(r, k, [RightOf(l, key, v, h)] + path);
      }
  }

  /** The descent from the root splits the symmetric order around the spot it reaches. */
  lemma LocateOrder<V>(t: Tree<V>, k: int)
    requires Bst(t)
    ensures Below(Before(Locate(t, k, []).1), k) && Above(After(Locate(t, k, []).1), k)
    ensures InOrder(t) == Before(Locate(t, k, []).1) + InOrder(Locate(t, k, []).0) + After(Locate(t, k, []).1)
  {
    var (spot, path) := Locate(t, k, []);
    assert Before<V>([]) + InOrder(t) + After<V>([]) == InOrder(t);
    LocateSplits(t, k, []);
    PlugInOrder(path, spot);
  }

  /** The descent from the root finds a node exactly when the key is in the tree. */
  lemma LocateFinds<V>(t: Tree<V>, k: int)
    requires Bst(t)
    ensures Locate(t, k, []).0.Node? <==> k in KeySet(t)
  {
    var (spot, path) := Locate(t, k, []);
    LocateOrder(t, k);
    var s := InOrder(t);
    if spot.Leaf? {
      forall i | 0 <= i < |s| ensures s[i].0 != k {
        if i < |Before(path)| {
          assert s[i] == Before(path)[i];
        } else {
          assert s[i] == After(path)[i - |Before(path)|];
        }
      }
    } else {
      assert (spot.key, spot.info) in s;
    }
  }

  /**
   * search(root, k) with the null/sentinel tests of search(k) (AVLTree.java:69-87):
   * the info under k, None where the Java code returns null.
   */
  function Search<V>(t: Tree<V>, k: int): (r: Option<V>)
    ensures r.Some? ==> (k, r.value) in InOrder(t)
  {
    match t
    case Leaf => None
    case Node(l, key, v, _, r) =>
      if key == k then Some(v)
      else if key < k then Search(r, k)
      else Search(l, k)
  }

  /** search answers exactly what the symmetric order holds under k. */
  lemma {:induction false} SearchCorrect<V>(t: Tree<V>, k: int)
    requires Bst(t)
    ensures Search(t, k) == Lookup(InOrder(t), k)
  {
    match t
    case Leaf =>
    case Node(l, key, v, _, r) =>
      var e := (key, v);
      SortedDropMiddle(InOrder(l), e, InOrder(r));
      SortedSplit(InOrder(l) + [e], InOrder(r));
      SortedSplit(InOrder(l), [e]);
      LookupAppend(InOrder(l) + [e], InOrder(r), k);
      LookupAppend(InOrder(l), [e], k);
      if key == k {
        LookupAbsent(InOrder(l), k);
      } else if key < k {
        LookupAbsent(InOrder(l), k);
        SearchCorrect(r, k);
      } else {
        LookupAbsent(InOrder(r), k);
        SearchCorrect(l, k);
      }
  }

  /** In a search tree, search finds info exactly for the keys the tree holds, and what it
      finds is the info stored with that key. */
  lemma SearchFinds<V>(t: Tree<V>, k: int)
    requires Bst(t)
    ensures Search(t, k).Some? <==> k in KeySet(t)
    ensures forall v :: Search(t, k) == Some(v) <==> (k, v) in InOrder(t)
  {
    SearchCorrect(t, k);
    var s := InOrder(t);
    if Search(t, k).Some? {
      LookupSome(s, k);
      assert (k, Search(t, k).value) in s;
    }
    forall v | (k, v) in s ensures Search(t, k) == Some(v) {
      var i :| 0 <= i < |s| && s[i] == (k, v);
      LookupAt(s, i);
    }
    if k !in KeySet(t) {
      forall i | 0 <= i < |s| ensures s[i].0 != k {
        assert s[i] in s;
      }
      LookupAbsent(s, k);
    } else {
      var e :| e in s && e.0 == k;
      assert e == (k, e.1);
    }
  }

  /** minSubtree (AVLTree.java:369-374): the leftmost node under t, and the path down to it. */
  function MinSubtree<V>(t: Tree<V>, path: seq<Frame<V>>): (r: (Tree<V>, seq<Frame<V>>))
    requires t.Node?
    ensures r.0.Node? && r.0.left.Leaf?
    ensures Plug(r.1, r.0) == Plug(path, t)
    ensures Before(r.1) == Before(path)
    ensures InOrder(t) + After(path) == [(r.0.key, r.0.info)] + InOrder(r.0.right) + After(r.1)
    ensures |r.1| >= |path| && r.1[|r.1| - |path|..] == path
  {
    if t.left.Leaf? then (t, path)
    else
      var p := [LeftOf(t.key, t.info, t.height, t.right)] + path;
      assert p[1..] == path;
      assert After(p) == [(t.key, t.info)] + InOrder(t.right) + After(path);
      assert InOrder(t) + After(path) == InOrder(t.left) + After(p);
      MinSubtree(t.left, p)
  }

  /** The descent of minSubtree does not depend on the path above where it starts. */
  lemma {:induction false} MinSubtreeShift<V>(t: Tree<V>, q: seq<Frame<V>>, path: seq<Frame<V>>)
    requires t.Node?
    ensures MinSubtree(t, q + path) == (MinSubtree(t, q).0, MinSubtree(t, q).1 + path)
  {
    if t.left.Node? {
      var f := [LeftOf(t.key, t.info, t.height, t.right)];
      assert f + (q + path) == (f + q) + path;
      MinSubtreeShift(t.left, f + q, path);
    }
  }

  /** The leftmost entry of a non-empty subtree, read off minSubtree. */
  function Leftmost<V>(t: Tree<V>): (r: (int, V))
    requires t.Node?
    ensures r == InOrder(t)[0]
  {
    var (m, _) := MinSubtree(t, []);
    assert InOrder(t) + After<V>([]) == InOrder(t);
    (m.key, m.info)
  }

  /** The climb of successor (AVLTree.java:356-361): the first ancestor of which the
      current subtree lies in the left subtree, None when there is none. */
  function FirstLeftOf<V>(path: seq<Frame<V>>): (r: Option<(int, V)>)
    ensures r == if After(path) == [] then None else Some(After(path)[0])
  {
    if path == [] then None
    else match path[0]
      case LeftOf(k, v, _, _) => Some((k, v))
      case RightOf(_, _, _, _) => FirstLeftOf(path[1..])
  }

  /**
   * successor(x) (AVLTree.java:352-362), with x the root of `focus` and `path` its ancestors:
   * the leftmost node of the right subtree if that is real, otherwise the nearest ancestor
   * reached from its left side; None (null) when x holds the largest key.
   */
  function Successor<V>(focus: Tree<V>, path: seq<Frame<V>>): (r: Option<(int, V)>)
    requires focus.Node?
    ensures var rest := InOrder(focus.right) + After(path);
      r == if rest == [] then None else Some(rest[0])
  {
    if focus.right.Node? then Some(Leftmost(focus.right)) else FirstLeftOf(path)
  }

  lemma SplitAround<V>(front: seq<(int, V)>, e: (int, V), rest: seq<(int, V)>)
    ensures var s := front + [e] + rest;
      |s| == |front| + 1 + |rest| && s[|front|] == e && s[|front| + 1..] == rest
  {
    var s := front + [e] + rest;
    assert s[|front| + 1..] == rest;
  }

  /** successor is the entry right after x in symmetric order of the whole tree. */
  lemma SuccessorCorrect<V>(focus: Tree<V>, path: seq<Frame<V>>)
    requires focus.Node?
    ensures |Before(path)| + |InOrder(focus.left)| < |InOrder(Plug(path, focus))|
    ensures InOrder(Plug(path, focus))[|Before(path)| + |InOrder(focus.left)|] == (focus.key, focus.info)
    ensures Successor(focus, path) ==
      if |Before(path)| + |InOrder(focus.left)| + 1 == |InOrder(Plug(path, focus))| then None
      else Some(InOrder(Plug(path, focus))[|Before(path)| + |InOrder(focus.left)| + 1])
  {
    PlugAround(path, focus);
    var front := Before(path) + InOrder(focus.left);
    var rest := InOrder(focus.right) + After(path);
    SplitAround(front, (focus.key, focus.info), rest);
  }

  /** In a search tree that next entry holds the smallest key larger than x's key. */
  lemma SuccessorIsNextKey<V>(focus: Tree<V>, path: seq<Frame<V>>)
    requires focus.Node? && Bst(Plug(path, focus))
    ensures IsNext(InOrder(Plug(path, focus)), focus.key, Successor(focus, path))
  {
    PlugAround(path, focus);
    SortedNext(Before(path) + InOrder(focus.left), (focus.key, focus.info),
               InOrder(focus.right) + After(path), Successor(focus, path));
  }

  /** min() (AVLTree.java:382-393): the info of the leftmost node, None when the tree is empty. */
  function MinInfo<V>(t: Tree<V>): (r: Option<V>)
    ensures r == if t.Leaf? then None else Some(InOrder(t)[0].1)
  {
    match t
    case Leaf => None
    case Node(l, _, v, _, _) => if l.Leaf? then Some(v) else MinInfo(l)
  }

  /** max() (AVLTree.java:401-411): the info of the rightmost node, None when the tree is empty. */
  function MaxInfo<V>(t: Tree<V>): (r: Option<V>)
    ensures r == if t.Leaf? then None else Some(InOrder(t)[|InOrder(t)| - 1].1)
  {
    match t
    case Leaf => None
    case Node(_, _, v, _, r) => if r.Leaf? then Some(v) else MaxInfo(r)
  }

  /** In a search tree min and max hold the infos of the smallest and the largest key. */
  lemma MinMaxExtreme<V>(t: Tree<V>)
    requires Bst(t) && t.Node?
    ensures exists e :: e in InOrder(t) && MinInfo(t) == Some(e.1) && forall f :: f in InOrder(t) ==> e.0 <= f.0
    ensures exists e :: e in InOrder(t) && MaxInfo(t) == Some(e.1) && forall f :: f in InOrder(t) ==> f.0 <= e.0
  {
    var s := InOrder(t);
    assert s != [] by { assert (t.key, t.info) in s; }
    forall f | f in s ensures s[0].0 <= f.0 && f.0 <= s[|s| - 1].0 {
      var j :| 0 <= j < |s| && s[j] == f;
      if j > 0 { assert s[0].0 < s[j].0; }
      if j < |s| - 1 { assert s[j].0 < s[|s| - 1].0; }
    }
    assert s[0] in s && s[|s| - 1] in s;
  }

  /**
   * keysToArray and infoToArray (AVLTree.java:419-449) list the keys and infos in the
   * symmetric order: in a search tree the keys come out strictly increasing, one per node,
   * and the i-th info belongs to the i-th key.
   */
  lemma {:induction false} ArraysSorted<V>(t: Tree<V>)
    requires Bst(t)
    ensures |Keys(InOrder(t))| == Size(t) && |Infos(InOrder(t))| == Size(t)
    ensures forall i, j :: 0 <= i < j < Size(t) ==> Keys(InOrder(t))[i] < Keys(InOrder(t))[j]
    ensures forall i :: 0 <= i < Size(t) ==> (Keys(InOrder(t))[i], Infos(InOrder(t))[i]) in InOrder(t)
    ensures forall k :: k in KeySet(t) <==> k in Keys(InOrder(t))
  {
    var s := InOrder(t);
    KeysLength(s);
    forall k ensures k in KeySet(t) <==> k in Keys(s) {
      if k in KeySet(t) {
        var e :| e in s && e.0 == k;
        var j :| 0 <= j < |s| && s[j] == e;
        assert Keys(s)[j] == k;
      }
      if k in Keys(s) {
        var j :| 0 <= j < |s| && Keys(s)[j] == k;
        assert s[j] in s;
      }
    }
  }
}
