/**
 * The nodes of AVLTree.java (class AVLNode, AVLTree.java:656-764) as heap objects, and the
 * ghost description of how they are linked.
 *
 * A Shape names, for each real node of a subtree, the object that holds it; Ext stands for
 * the shared external leaf. The tree keeps two ghost maps that mirror its real nodes: their
 * links (left, right, parent) and their fields (key, info, stored height). HoldsLinks and
 * HoldsFields say that the heap agrees with the maps; Linked says that the recorded links
 * form a shape, and Abs reads the value tree of AvlCore off the recorded fields. The parent
 * chain of a node is a path of frames (SFrame), innermost first, as in the value zipper.
 */
module AvlNodes {
  import opened AvlCore
  import opened AvlWalk

  /** AVLNode: key, info, stored height, the three links and the external-leaf flag.
      The per-node size field of the source is never read or written and is left out. */
  class AvlNode<V> {
    var info: V
    var key: int
    var height: int
    var left: AvlNode?<V>
    var right: AvlNode?<V>
    var parent: AvlNode?<V>
    var isExternal: bool

    /** new AVLNode(info, key): a real node of height 0 with no links yet. */
    constructor (info: V, key: int)
      ensures this.info == info && this.key == key && height == 0 && !isExternal
      ensures left == null && right == null && parent == null
    {
      this.info := info;
      this.key := key;
      this.isExternal := false;
      this.height := 0;
      left, right, parent := null, null, null;
    }
  }

  datatype Shape<V> = Ext | Real(left: Shape<V>, node: AvlNode<V>, right: Shape<V>)

  /** An ancestor object and the shape of the sibling subtree, as in AvlWalk.Frame. */
  datatype SFrame<V> =
    | SLeftOf(node: AvlNode<V>, right: Shape<V>)
    | SRightOf(left: Shape<V>, node: AvlNode<V>)

  /** The links of a real node: left child, right child, parent. */
  datatype Links<V> = Links(left: AvlNode?<V>, right: AvlNode?<V>, parent: AvlNode?<V>)

  /** The values of a real node: key, info, stored height. */
  datatype Fields<V> = Fields(key: int, info: V, height: int)

  type LinkMap<V> = map<AvlNode<V>, Links<V>>
  type FieldMap<V> = map<AvlNode<V>, Fields<V>>

  /** Every recorded node is real and its link fields hold the recorded links. */
  ghost predicate HoldsLinks<V>(lk: LinkMap<V>)
    reads lk.Keys`left, lk.Keys`right, lk.Keys`parent, lk.Keys`isExternal
  {
    forall n :: n in lk ==>
      !n.isExternal && n.left == lk[n].left && n.right == lk[n].right && n.parent == lk[n].parent
  }

  /** Every recorded node holds the recorded key, info and height. */
  ghost predicate HoldsFields<V>(fm: FieldMap<V>)
    reads fm.Keys`key, fm.Keys`info, fm.Keys`height
  {
    forall n :: n in fm ==> n.key == fm[n].key && n.info == fm[n].info && n.height == fm[n].height
  }

  ghost function Objs<V>(s: Shape<V>): set<AvlNode<V>>
  {
    match s
    case Ext => {}
    case Real(l, n, r) => Objs(l) + {n} + Objs(r)
  }

  /** The object a link points to for this shape: the node, or the external leaf. */
  function TopOf<V>(s: Shape<V>, ext: AvlNode<V>): AvlNode<V>
  {
    if s.Ext? then ext else s.node
  }

  function Sibling<V>(f: SFrame<V>): Shape<V>
  {
    match f
    case SLeftOf(_, r) => r
    case SRightOf(l, _) => l
  }

  ghost function FrameObjs<V>(f: SFrame<V>): set<AvlNode<V>>
  {
    {f.node} + Objs(Sibling(f))
  }

  ghost function PathObjs<V>(p: seq<SFrame<V>>): set<AvlNode<V>>
    decreases |p|
  {
    if p == [] then {} else FrameObjs(p[0]) + PathObjs(p[1..])
  }

  /** The parent object of the subtree a path leads to: null at the root. */
  function ParentOf<V>(p: seq<SFrame<V>>): AvlNode?<V>
  {
    if p == [] then null else p[0].node
  }

  function SAttach<V>(f: SFrame<V>, s: Shape<V>): Shape<V>
  {
    match f
    case SLeftOf(n, r) => Real(s, n, r)
    case SRightOf(l, n) => Real(l, n, s)
  }

  function SPlug<V>(p: seq<SFrame<V>>, s: Shape<V>): Shape<V>
    decreases |p|
  {
    if p == [] then s else SPlug(p[1..], SAttach(p[0], s))
  }

  /**
   * The recorded links form the shape s under `parent`: every real node points to the
   * objects of its two child shapes (the external leaf for Ext) and back to its parent,
   * and no object occurs twice.
   */
  ghost predicate Linked<V>(s: Shape<V>, parent: AvlNode?<V>, ext: AvlNode<V>, lk: LinkMap<V>)
  {
    match s
    case Ext => true
    case Real(l, n, r) =>
      && n in lk && lk[n] == Links(TopOf(l, ext), TopOf(r, ext), parent)
      && n !in Objs(l) && n !in Objs(r) && Objs(l) !! Objs(r)
      && Linked(l, n, ext, lk) && Linked(r, n, ext, lk)
  }

  /** The links of the ancestor of a frame whose subtree on the frame's side has top `child`. */
  function FrameLinks<V>(f: SFrame<V>, child: AvlNode<V>, up: AvlNode?<V>, ext: AvlNode<V>): Links<V>
  {
    match f
    case SLeftOf(_, r) => Links(child, TopOf(r, ext), up)
    case SRightOf(l, _) => Links(TopOf(l, ext), child, up)
  }

  /** The frames of a path are linked: each ancestor points to `child` on its side, to its
      sibling on the other, and up to the next ancestor. */
  ghost predicate LinkedPath<V>(p: seq<SFrame<V>>, child: AvlNode<V>, ext: AvlNode<V>, lk: LinkMap<V>)
    decreases |p|
  {
    p != [] ==>
      var n := p[0].node;
      && n in lk && lk[n] == FrameLinks(p[0], child, ParentOf(p[1..]), ext)
      && n !in Objs(Sibling(p[0]))
      && Linked(Sibling(p[0]), n, ext, lk)
      && FrameObjs(p[0]) !! PathObjs(p[1..])
      && LinkedPath(p[1..], n, ext, lk)
  }

  /** The value tree the recorded fields of the objects of s describe (every object of a
      wired tree is recorded; an unrecorded one would end the tree there). */
  ghost function Abs<V>(s: Shape<V>, fm: FieldMap<V>): Tree<V>
  {
    match s
    case Ext => Leaf
    case Real(l, n, r) =>
      if n in fm then Node(Abs(l, fm), fm[n].key, fm[n].info, fm[n].height, Abs(r, fm)) else Leaf
  }

  ghost function AbsFrame<V>(f: SFrame<V>, fm: FieldMap<V>): Frame<V>
    requires f.node in fm
  {
    var e := fm[f.node];
    match f
    case SLeftOf(_, r) => LeftOf(e.key, e.info, e.height, Abs(r, fm))
    case SRightOf(l, _) => RightOf(Abs(l, fm), e.key, e.info, e.height)
  }

  /** The value path of the recorded fields (up to the first unrecorded ancestor). */
  ghost function AbsPath<V>(p: seq<SFrame<V>>, fm: FieldMap<V>): (r: seq<Frame<V>>)
    ensures PathObjs(p) <= fm.Keys ==> |r| == |p|
    decreases |p|
  {
    if p == [] || p[0].node !in fm then [] else [AbsFrame(p[0], fm)] + AbsPath(p[1..], fm)
  }

  lemma {:induction false} PlugObjs<V>(p: seq<SFrame<V>>, s: Shape<V>)
    ensures Objs(SPlug(p, s)) == PathObjs(p) + Objs(s)
    decreases |p|
  {
    if p != [] {
      PlugObjs(p[1..], SAttach(p[0], s));
    }
  }

  /** The value tree of a plugged shape is the value tree plugged into the value path. */
  lemma {:induction false} AbsPlug<V>(p: seq<SFrame<V>>, s: Shape<V>, fm: FieldMap<V>)
    requires PathObjs(p) <= fm.Keys
    ensures Abs(SPlug(p, s), fm) == Plug(AbsPath(p, fm), Abs(s, fm))
    decreases |p|
  {
    if p != [] {
      AbsPlug(p[1..], SAttach(p[0], s), fm);
      assert AbsPath(p, fm)[1..] == AbsPath(p[1..], fm);
    }
  }

  /**
   * A whole tree is linked exactly when the subtree is linked under its parent, the path
   * above it is linked down to the subtree's top object, and the two share no object.
   */
  lemma {:induction false} LinkedZip<V>(p: seq<SFrame<V>>, s: Shape<V>, ext: AvlNode<V>, lk: LinkMap<V>)
    ensures Linked(SPlug(p, s), null, ext, lk) <==>
      Linked(s, ParentOf(p), ext, lk) && LinkedPath(p, TopOf(s, ext), ext, lk) && Objs(s) !! PathObjs(p)
    decreases |p|
  {
    if p != [] {
      LinkedZip(p[1..], SAttach(p[0], s), ext, lk);
    }
  }

  /** Two maps agree on the keys in S. */
  ghost predicate AgreeOn<K, W>(S: set<K>, m1: map<K, W>, m2: map<K, W>)
  {
    forall n :: n in S ==> (n in m1 <==> n in m2) && (n in m1 ==> m1[n] == m2[n])
  }

  /** Linking depends only on the recorded links of the shape's own objects. */
  lemma {:induction false} LinkedAgree<V>(s: Shape<V>, parent: AvlNode?<V>, ext: AvlNode<V>,
                                          lk1: LinkMap<V>, lk2: LinkMap<V>)
    requires Linked(s, parent, ext, lk1) && AgreeOn(Objs(s), lk1, lk2)
    ensures Linked(s, parent, ext, lk2)
  {
    if s.Real? {
      LinkedAgree(s.left, s.node, ext, lk1, lk2);
      LinkedAgree(s.right, s.node, ext, lk1, lk2);
    }
  }

  lemma {:induction false} LinkedPathAgree<V>(p: seq<SFrame<V>>, child: AvlNode<V>, ext: AvlNode<V>,
                                              lk1: LinkMap<V>, lk2: LinkMap<V>)
    requires LinkedPath(p, child, ext, lk1) && AgreeOn(PathObjs(p), lk1, lk2)
    ensures LinkedPath(p, child, ext, lk2)
    decreases |p|
  {
    if p != [] {
      LinkedAgree(Sibling(p[0]), p[0].node, ext, lk1, lk2);
      LinkedPathAgree(p[1..], p[0].node, ext, lk1, lk2);
    }
  }

  /** The value tree depends only on the recorded fields of the shape's own objects. */
  lemma {:induction false} AbsAgree<V>(s: Shape<V>, fm1: FieldMap<V>, fm2: FieldMap<V>)
    requires AgreeOn(Objs(s), fm1, fm2)
    ensures Abs(s, fm1) == Abs(s, fm2)
  {
    if s.Real? {
      AbsAgree(s.left, fm1, fm2);
      AbsAgree(s.right, fm1, fm2);
    }
  }

  lemma {:induction false} AbsPathAgree<V>(p: seq<SFrame<V>>, fm1: FieldMap<V>, fm2: FieldMap<V>)
    requires AgreeOn(PathObjs(p), fm1, fm2)
    ensures AbsPath(p, fm1) == AbsPath(p, fm2)
    decreases |p|
  {
    if p != [] {
      AbsAgree(Sibling(p[0]), fm1, fm2);
      AbsPathAgree(p[1..], fm1, fm2);
    }
  }

  /**
   * The links after updateParentsAfterRotation(newRoot, oldRoot) (AVLTree.java:540-547):
   * newRoot takes oldRoot's parent, oldRoot hangs under newRoot, and the parent's link to
   * oldRoot points to newRoot instead.
   */
  ghost function ParentsRelinked<V>(lk: LinkMap<V>, newRoot: AvlNode<V>, oldRoot: AvlNode<V>): LinkMap<V>
    requires newRoot in lk && oldRoot in lk
  {
    var p := lk[oldRoot].parent;
    var m := lk[newRoot := lk[newRoot].(parent := p)][oldRoot := lk[oldRoot].(parent := newRoot)];
    if p == null || p !in m then m
    else if lk[p].left == oldRoot then m[p := m[p].(left := newRoot)]
    else m[p := m[p].(right := newRoot)]
  }

  /** The links after rotateRight(oldRoot) (AVLTree.java:574-586), with the parent of the
      moved subtree z set to oldRoot. */
  ghost function RelinkedRight<V>(lk: LinkMap<V>, oldRoot: AvlNode<V>, ext: AvlNode<V>): LinkMap<V>
    requires oldRoot in lk && lk[oldRoot].left != null && lk[oldRoot].left in lk
  {
    var newRoot := lk[oldRoot].left;
    var z := lk[newRoot].right;
    var m := lk[newRoot := lk[newRoot].(right := oldRoot)][oldRoot := lk[oldRoot].(left := z)];
    var m := if z != null && z != ext && z in m then m[z := m[z].(parent := oldRoot)] else m;
    ParentsRelinked(m, newRoot, oldRoot)
  }

  /** The links after rotateLeft(oldRoot) (AVLTree.java:555-567), the mirror image. */
  ghost function RelinkedLeft<V>(lk: LinkMap<V>, oldRoot: AvlNode<V>, ext: AvlNode<V>): LinkMap<V>
    requires oldRoot in lk && lk[oldRoot].right != null && lk[oldRoot].right in lk
  {
    var newRoot := lk[oldRoot].right;
    var z := lk[newRoot].left;
    var m := lk[newRoot := lk[newRoot].(left := oldRoot)][oldRoot := lk[oldRoot].(right := z)];
    var m := if z != null && z != ext && z in m then m[z := m[z].(parent := oldRoot)] else m;
    ParentsRelinked(m, newRoot, oldRoot)
  }

  /** The ancestor a path hangs from is recorded and holds the subtree's top on the side of
      its frame, and is none of the subtree's objects. */
  lemma ParentHolds<V>(p: seq<SFrame<V>>, s: Shape<V>, ext: AvlNode<V>, lk: LinkMap<V>)
    requires Linked(SPlug(p, s), null, ext, lk) && s.Real? && ext !in lk
    ensures s.node in lk && lk[s.node].parent == ParentOf(p)
    ensures p != [] ==>
      && p[0].node in lk && p[0].node !in Objs(s)
      && (p[0].SLeftOf? <==> lk[p[0].node].left == s.node)
      && (p[0].SRightOf? <==> lk[p[0].node].right == s.node)
  {
    LinkedZip(p, s, ext, lk);
    if p != [] {
      assert p[0].node in PathObjs(p);
      assert Linked(Sibling(p[0]), p[0].node, ext, lk);
      assert Sibling(p[0]).Real? ==> Sibling(p[0]).node in Objs(Sibling(p[0]));
    }
  }

  /** What rotateRight does to the recorded links: the four objects it touches get their
      new links, every other object keeps its own. */
  lemma RelinkedRightFacts<V>(lk: LinkMap<V>, x: AvlNode<V>, ext: AvlNode<V>)
    requires x in lk && lk[x].left != null && lk[x].left in lk && ext !in lk
    requires var y := lk[x].left; var zn := lk[y].right; var p := lk[x].parent;
      y != x && zn != x && zn != y && (p != null ==> p in lk && p != x && p != y && p != zn) &&
      (zn != ext ==> zn != null && zn in lk)
    ensures var y := lk[x].left; var zn := lk[y].right; var p := lk[x].parent;
      var lk1 := RelinkedRight(lk, x, ext);
      && lk1.Keys == lk.Keys
      && lk1[y] == lk[y].(right := x, parent := p)
      && lk1[x] == lk[x].(left := zn, parent := y)
      && (zn != ext ==> lk1[zn] == lk[zn].(parent := x))
      && (p != null ==> lk1[p] == if lk[p].left == x then lk[p].(left := y) else lk[p].(right := y))
      && (forall n :: n in lk && n != x && n != y && n != zn && n != p ==> lk1[n] == lk[n])
  {
  }

  /** Maps that agree away from four keys agree on every set that avoids them. */
  lemma AgreeAway<K, W>(S: set<K>, a: K, b: K, c: K, d: K, m1: map<K, W>, m2: map<K, W>)
    requires m1.Keys == m2.Keys && a !in S && b !in S && c !in S && d !in S
    requires forall n :: n in m1 && n != a && n != b && n != c && n != d ==> m1[n] == m2[n]
    ensures AgreeOn(S, m1, m2)
  {
  }

  /** The objects of a path other than the ancestor the subtree hangs from. */
  ghost function UpperObjs<V>(p: seq<SFrame<V>>): set<AvlNode<V>>
  {
    if p == [] then {} else Objs(Sibling(p[0])) + PathObjs(p[1..])
  }

  /** The ancestor a linked path hangs from is not among the other objects of the path. */
  lemma UpperApart<V>(p: seq<SFrame<V>>, child: AvlNode<V>, ext: AvlNode<V>, lk: LinkMap<V>)
    requires LinkedPath(p, child, ext, lk)
    ensures UpperObjs(p) <= PathObjs(p)
    ensures p != [] ==> p[0].node in PathObjs(p) && p[0].node !in UpperObjs(p)
  {
  }

  /** The objects of a linked shape are recorded. */
  lemma {:induction false} LinkedRecorded<V>(s: Shape<V>, parent: AvlNode?<V>, ext: AvlNode<V>, lk: LinkMap<V>)
    requires Linked(s, parent, ext, lk)
    ensures Objs(s) <= lk.Keys
  {
    if s.Real? {
      LinkedRecorded(s.left, s.node, ext, lk);
      LinkedRecorded(s.right, s.node, ext, lk);
    }
  }

  /** The local half of a right rotation: with the links of the rotation written, the
      rotated subtree is linked under the same parent. */
  lemma RotatedRightLocal<V>(a: Shape<V>, y: AvlNode<V>, z: Shape<V>, x: AvlNode<V>, c: Shape<V>,
                             q: AvlNode?<V>, ext: AvlNode<V>, lk: LinkMap<V>, lk1: LinkMap<V>)
    requires Linked(Real(Real(a, y, z), x, c), q, ext, lk) && ext !in lk
    requires lk1.Keys == lk.Keys && x in lk1 && y in lk1 && (z.Real? ==> z.node in lk && z.node in lk1)
    requires lk1[y] == Links(TopOf(a, ext), x, q) && lk1[x] == Links(TopOf(z, ext), TopOf(c, ext), y)
    requires z.Real? ==> lk1[z.node] == lk[z.node].(parent := x)
    requires forall n :: n in lk && n != x && n != y && n != TopOf(z, ext) && n != q ==> lk1[n] == lk[n]
    requires q !in Objs(Real(Real(a, y, z), x, c))
    ensures Linked(Real(a, y, Real(z, x, c)), q, ext, lk1)
  {
    assert Linked(Real(a, y, z), x, ext, lk);
    LinkedRecorded(Real(Real(a, y, z), x, c), q, ext, lk);
    assert ext !in Objs(Real(Real(a, y, z), x, c));
    var zn, q' := TopOf(z, ext), if q == null then x else q;
    AgreeAway(Objs(a), x, y, zn, q', lk, lk1);
    LinkedAgree(a, y, ext, lk, lk1);
    AgreeAway(Objs(c), x, y, zn, q', lk, lk1);
    LinkedAgree(c, x, ext, lk, lk1);
    if z.Real? {
      assert Linked(z, y, ext, lk);
      AgreeAway(Objs(z.left), x, y, zn, q', lk, lk1);
      AgreeAway(Objs(z.right), x, y, zn, q', lk, lk1);
      Reparented(z, y, x, ext, lk, lk1);
    }
  }

  /**
   * Putting a new subtree s1 in place of s: when s1 is linked under the same parent, shares
   * no object with the path, the parent now points to s1's top on its side, and the rest
   * of the path keeps its links, the whole tree is linked again.
   */
  lemma PlugReplace<V>(p: seq<SFrame<V>>, s: Shape<V>, s1: Shape<V>, ext: AvlNode<V>,
                       lk: LinkMap<V>, lk1: LinkMap<V>)
    requires Linked(SPlug(p, s), null, ext, lk)
    requires Linked(s1, ParentOf(p), ext, lk1) && Objs(s1) !! PathObjs(p)
    requires p != [] ==>
      p[0].node in lk1 && lk1[p[0].node] == FrameLinks(p[0], TopOf(s1, ext), ParentOf(p[1..]), ext)
    requires AgreeOn(UpperObjs(p), lk, lk1)
    ensures Linked(SPlug(p, s1), null, ext, lk1)
  {
    LinkedZip(p, s, ext, lk);
    if p != [] {
      LinkedAgree(Sibling(p[0]), p[0].node, ext, lk, lk1);
      LinkedPathAgree(p[1..], p[0].node, ext, lk, lk1);
    }
    LinkedZip(p, s1, ext, lk1);
  }

  /**
   * After a right rotation has rewritten the links, the whole tree is linked again with
   * the rotated subtree Real(a, y, Real(z, x, c)) in place of Real(Real(a, y, z), x, c),
   * over the same objects.
   */
  lemma RotatedRightWired<V>(p: seq<SFrame<V>>, s: Shape<V>, ext: AvlNode<V>, lk: LinkMap<V>)
    requires s.Real? && s.left.Real? && Linked(SPlug(p, s), null, ext, lk) && ext !in lk
    ensures s.node in lk && lk[s.node].left == s.left.node && s.left.node in lk
    ensures var s1 := Real(s.left.left, s.left.node, Real(s.left.right, s.node, s.right));
      var lk1 := RelinkedRight(lk, s.node, ext);
      && Linked(SPlug(p, s1), null, ext, lk1) && lk1.Keys == lk.Keys
      && Objs(SPlug(p, s1)) == Objs(SPlug(p, s))
  {
    var Real(Real(a, y, z), x, c) := s;
    var s1 := Real(a, y, Real(z, x, c));
    var q := ParentOf(p);
    LinkedZip(p, s, ext, lk);
    LinkedRecorded(SPlug(p, s), null, ext, lk);
    PlugObjs(p, s);
    assert ext !in PathObjs(p) + Objs(s);
    assert Linked(Real(a, y, z), x, ext, lk);
    if z.Real? {
      assert Linked(z, y, ext, lk);
    }
    UpperApart(p, x, ext, lk);
    RelinkedRightFacts(lk, x, ext);
    var lk1 := RelinkedRight(lk, x, ext);
    RotatedRightLocal(a, y, z, x, c, q, ext, lk, lk1);
    assert Objs(s1) == Objs(s);
    var zn := TopOf(z, ext);
    assert x !in UpperObjs(p) && y !in UpperObjs(p) && zn !in UpperObjs(p);
    AgreeAway(UpperObjs(p), x, y, zn, if q == null then x else q, lk, lk1);
    PlugReplace(p, s, s1, ext, lk, lk1);
    PlugObjs(p, s1);
  }

  /** What rotateLeft does to the recorded links. */
  lemma RelinkedLeftFacts<V>(lk: LinkMap<V>, x: AvlNode<V>, ext: AvlNode<V>)
    requires x in lk && lk[x].right != null && lk[x].right in lk && ext !in lk
    requires var y := lk[x].right; var zn := lk[y].left; var p := lk[x].parent;
      y != x && zn != x && zn != y && (p != null ==> p in lk && p != x && p != y && p != zn) &&
      (zn != ext ==> zn != null && zn in lk)
    ensures var y := lk[x].right; var zn := lk[y].left; var p := lk[x].parent;
      var lk1 := RelinkedLeft(lk, x, ext);
      && lk1.Keys == lk.Keys
      && lk1[y] == lk[y].(left := x, parent := p)
      && lk1[x] == lk[x].(right := zn, parent := y)
      && (zn != ext ==> lk1[zn] == lk[zn].(parent := x))
      && (p != null ==> lk1[p] == if lk[p].left == x then lk[p].(left := y) else lk[p].(right := y))
      && (forall n :: n in lk && n != x && n != y && n != zn && n != p ==> lk1[n] == lk[n])
  {
  }

  /** A subtree stays linked when only its top's parent link changes. */
  lemma Reparented<V>(z: Shape<V>, y: AvlNode<V>, x: AvlNode<V>, ext: AvlNode<V>, lk: LinkMap<V>, lk1: LinkMap<V>)
    requires z.Real? && Linked(z, y, ext, lk) && z.node in lk1 && lk1[z.node] == lk[z.node].(parent := x)
    requires AgreeOn(Objs(z.left), lk, lk1) && AgreeOn(Objs(z.right), lk, lk1)
    ensures Linked(z, x, ext, lk1)
  {
    LinkedAgree(z.left, z.node, ext, lk, lk1);
    LinkedAgree(z.right, z.node, ext, lk, lk1);
  }

  /** The local half of a left rotation. */
  lemma RotatedLeftLocal<V>(a: Shape<V>, x: AvlNode<V>, z: Shape<V>, y: AvlNode<V>, c: Shape<V>,
                            q: AvlNode?<V>, ext: AvlNode<V>, lk: LinkMap<V>, lk1: LinkMap<V>)
    requires Linked(Real(a, x, Real(z, y, c)), q, ext, lk) && ext !in lk
    requires lk1.Keys == lk.Keys && x in lk1 && y in lk1 && (z.Real? ==> z.node in lk && z.node in lk1)
    requires lk1[y] == Links(x, TopOf(c, ext), q) && lk1[x] == Links(TopOf(a, ext), TopOf(z, ext), y)
    requires z.Real? ==> lk1[z.node] == lk[z.node].(parent := x)
    requires forall n :: n in lk && n != x && n != y && n != TopOf(z, ext) && n != q ==> lk1[n] == lk[n]
    requires q !in Objs(Real(a, x, Real(z, y, c)))
    ensures Linked(Real(Real(a, x, z), y, c), q, ext, lk1)
  {
    assert Linked(Real(z, y, c), x, ext, lk);
    LinkedRecorded(Real(a, x, Real(z, y, c)), q, ext, lk);
    assert ext !in Objs(Real(a, x, Real(z, y, c)));
    var zn, q' := TopOf(z, ext), if q == null then x else q;
    AgreeAway(Objs(a), x, y, zn, q', lk, lk1);
    LinkedAgree(a, x, ext, lk, lk1);
    AgreeAway(Objs(c), x, y, zn, q', lk, lk1);
    LinkedAgree(c, y, ext, lk, lk1);
    if z.Real? {
      assert Linked(z, y, ext, lk);
      AgreeAway(Objs(z.left), x, y, zn, q', lk, lk1);
      AgreeAway(Objs(z.right), x, y, zn, q', lk, lk1);
      Reparented(z, y, x, ext, lk, lk1);
    }
  }

  /** After a left rotation has rewritten the links, the whole tree is linked again with
      Real(Real(a, x, z), y, c) in place of Real(a, x, Real(z, y, c)). */
  lemma RotatedLeftWired<V>(p: seq<SFrame<V>>, s: Shape<V>, ext: AvlNode<V>, lk: LinkMap<V>)
    requires s.Real? && s.right.Real? && Linked(SPlug(p, s), null, ext, lk) && ext !in lk
    ensures s.node in lk && lk[s.node].right == s.right.node && s.right.node in lk
    ensures var s1 := Real(Real(s.left, s.node, s.right.left), s.right.node, s.right.right);
      var lk1 := RelinkedLeft(lk, s.node, ext);
      && Linked(SPlug(p, s1), null, ext, lk1) && lk1.Keys == lk.Keys
      && Objs(SPlug(p, s1)) == Objs(SPlug(p, s))
  {
    var Real(a, x, Real(z, y, c)) := s;
    var s1 := Real(Real(a, x, z), y, c);
    var q := ParentOf(p);
    LinkedZip(p, s, ext, lk);
    LinkedRecorded(SPlug(p, s), null, ext, lk);
    PlugObjs(p, s);
    assert ext !in PathObjs(p) + Objs(s);
    assert Linked(Real(z, y, c), x, ext, lk);
    if z.Real? {
      assert Linked(z, y, ext, lk);
    }
    UpperApart(p, x, ext, lk);
    RelinkedLeftFacts(lk, x, ext);
    var lk1 := RelinkedLeft(lk, x, ext);
    RotatedLeftLocal(a, x, z, y, c, q, ext, lk, lk1);
    assert Objs(s1) == Objs(s);
    var zn := TopOf(z, ext);
    assert x !in UpperObjs(p) && y !in UpperObjs(p) && zn !in UpperObjs(p);
    AgreeAway(UpperObjs(p), x, y, zn, if q == null then x else q, lk, lk1);
    PlugReplace(p, s, s1, ext, lk, lk1);
    PlugObjs(p, s1);
  }
}
