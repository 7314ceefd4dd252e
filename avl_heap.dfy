/** The height helpers shared by the two AVL trees, and what the height update and the two
    rotations do to a stored tree. The rotations themselves live in the two tree classes (one
    redirects the former parent of the pivot, the other does not); the lemmas here take the
    fields they write and conclude which shape the heap then holds. */
module AvlHeap {
  import opened Contacts
  import opened Shapes
  import opened SearchTrees
  import opened HeapViews
  import opened HeapTrees
  import opened AvlShapes

  /** `getHeight`: the stored height, 0 for a missing node. */
  function GetHeight(n: Node?): (h: int)
    reads n
    ensures n == null ==> h == 0
    ensures n != null ==> h == n.height
  {
    if n == null then 0 else n.height
  }

  /** `getBalanceFactor`: the left child's height minus the right child's, 0 for a missing node. */
  function GetBalanceFactor(n: Node?): (b: int)
    reads n, if n == null then {} else {n.left, n.right}
    ensures n == null ==> b == 0
    ensures n != null ==> b == GetHeight(n.left) - GetHeight(n.right)
  {
    if n == null then 0 else GetHeight(n.left) - GetHeight(n.right)
  }

  /** `updateHeight`: one more than the taller child; no other field changes. */
  method UpdateHeight(node: Node)
    modifies node
    ensures node.height == 1 + Max(old(GetHeight(node.left)), old(GetHeight(node.right)))
    ensures node.value == old(node.value) && node.left == old(node.left) && node.right == old(node.right)
    ensures node.parent == old(node.parent)
  {
    node.height := 1 + Max(GetHeight(node.left), GetHeight(node.right));
  }

  /** In a stored tree the height helpers read the shape's heights. */
  lemma HeightsOf(root: Node?, ctx: Ctx, t: Shape)
    requires Stores(root, Plug(ctx, t))
    ensures GetHeight(Root(t)) == H(t) && GetBalanceFactor(Root(t)) == BF(t)
  {
    if t.Br? {
      NodeFields(root, Plug(ctx, t), ctx, t);
      if t.left.Br? {
        NodeFields(root, Plug(ctx, t), Down(ctx, t, true), t.left);
      }
      if t.right.Br? {
        NodeFields(root, Plug(ctx, t), Down(ctx, t, false), t.right);
      }
    }
  }

  /** The heap holds the tree except that the node above the hole still links to `stale` where
      the subtree `t` now hangs. */
  ghost predicate StoresBut(c: Ctx, t: Shape, stale: Node?)
    reads Nodes(Plug(c, t))
  {
    ViewsKeys(Plug(c, t), null);
    PlugNodes(c, t);
    HoleFixKeys(c, stale, null);
    Distinct(Plug(c, t)) && HeapMatches(Views(Plug(c, t), null) + HoleFix(c, stale, null))
  }

  lemma HoleFixKeys(c: Ctx, x: Node?, top: Node?)
    ensures HoleFix(c, x, top).Keys <= CtxNodes(c)
  {
  }

  /** Only the root's view changes when a node keeps its children and place. */
  lemma SameChildrenViews(c: Ctx, s: Shape, t: Shape, top: Node?)
    requires Distinct(Plug(c, s)) && s.Br? && t.Br?
    requires t.node == s.node && t.left == s.left && t.right == s.right
    ensures Distinct(Plug(c, t))
    ensures Agrees(Views(Plug(c, t), top), Views(Plug(c, s), top) + RootFix(t, HoleParent(c, top)))
  {
    var p := HoleParent(c, top);
    PlugDistinct(c, s, t);
    var a := Views(t, p);
    var b := Views(s, p) + RootFix(t, p);
    forall y | y in a ensures y in b && a[y] == b[y] {
    }
    OverlaySame(c, s, t, RootFix(t, p), top);
  }

  /** A subtree together with its place in the whole tree. */
  datatype Site = Site(ctx: Ctx, sub: Shape) {
    ghost function Whole(): Shape {
      Plug(ctx, sub)
    }
  }

  /** `updateHeight` on a node of a stored tree: the heap then holds the tree with that node's
      height recomputed. */
  twostate lemma HeightFixed(at: Site)
    requires old(Stores(Root(at.Whole()), at.Whole())) && at.sub.Br?
    requires var n := at.sub.node;
      && n.value == old(n.value) && n.left == old(n.left) && n.right == old(n.right) && n.parent == old(n.parent)
      && n.height == 1 + Max(old(GetHeight(n.left)), old(GetHeight(n.right)))
    requires forall n :: n in Nodes(at.Whole()) && n != at.sub.node ==> old(allocated(n)) && unchanged(n)
    ensures Stores(Root(at.Whole()), Plug(at.ctx, Fix(at.sub)))
  {
    var ctx, sub := at.ctx, at.sub;
    var s := Plug(ctx, sub);
    var m: map<Node, View> := Views(s, null);
    var p := HoleParent(ctx, null);
    var f := Fix(sub);
    var u: map<Node, View> := RootFix(f, p);
    RootView(ctx, sub, null);
    assert old(Holds(sub.node, m[sub.node]));
    if sub.left.Br? {
      RootView(Down(ctx, sub, true), sub.left, null);
      assert old(Holds(sub.left.node, m[sub.left.node]));
    }
    if sub.right.Br? {
      RootView(Down(ctx, sub, false), sub.right, null);
      assert old(Holds(sub.right.node, m[sub.right.node]));
    }
    assert Holds(sub.node, u[sub.node]);
    HeapMatchesRootFix(f, p);
    ViewsKeys(s, null);
    HeapMatchesAfter(m, u);
    var s' := Plug(ctx, f);
    SameChildrenViews(ctx, sub, f, null);
    HeapMatchesAgrees(Views(s', null), m + u);
    ViewsKeys(s', null);
    if !ctx.Top? {
      PlugRoot(ctx, sub, f);
    }
  }

  /** Writing into a node of a stored tree the links it already has leaves the tree stored. */
  twostate lemma SameLinks(at: Site)
    requires old(Stores(Root(at.Whole()), at.Whole())) && at.sub.Br?
    requires var n := at.sub.node;
      && n.value == old(n.value) && n.left == old(n.left) && n.right == old(n.right)
      && n.parent == old(n.parent) && n.height == old(n.height)
    requires forall n :: n in Nodes(at.Whole()) ==> old(allocated(n)) && (n != at.sub.node ==> unchanged(n))
    ensures Stores(Root(at.Whole()), at.Whole())
  {
    var s := at.Whole();
    var m: map<Node, View> := Views(s, null);
    RootView(at.ctx, at.sub, null);
    assert old(Holds(at.sub.node, m[at.sub.node]));
    ViewsKeys(s, null);
    HeapMatchesKept(m, at.sub.node);
  }

  /** The parent of a subtree's root links to it on the side the context says, and not on the
      other side. */
  lemma ParentFields(at: Site)
    requires Stores(Root(at.Whole()), at.Whole()) && at.sub.Br?
    ensures !at.ctx.Top? ==> at.ctx.node in Nodes(at.Whole())
    ensures at.ctx.InLeft? ==> at.ctx.node.left == at.sub.node && at.ctx.node.right != at.sub.node
    ensures at.ctx.InRight? ==> at.ctx.node.right == at.sub.node && at.ctx.node.left != at.sub.node
  {
    match at.ctx
    case Top =>
    case InLeft(up, n, v, h, r) =>
      var b := Br(at.sub, n, v, h, r);
      NodeFields(Root(at.Whole()), at.Whole(), up, b);
      PlugDistinct(up, b, Nil);
      assert at.sub.node in Nodes(at.sub);
    case InRight(l, n, v, h, up) =>
      var b := Br(l, n, v, h, at.sub);
      NodeFields(Root(at.Whole()), at.Whole(), up, b);
      PlugDistinct(up, b, Nil);
      assert at.sub.node in Nodes(at.sub);
  }

  /** The cases of `balance` on the shape: which rotations `Bal` performs, on subtrees that
      cover the nodes of the whole tree and leave its root in place unless the subtree is the
      whole tree. */
  lemma BalanceSites(at: Site)
    requires at.sub.Br? && Distinct(at.Whole())
    ensures var ctx, f := at.ctx, Fix(at.sub);
      && at.sub.node in Nodes(at.Whole()) && Nodes(Plug(ctx, f)) == Nodes(at.Whole())
      && Root(Plug(ctx, f)) == Root(at.Whole())
      && (BF(f) > 1 ==> f.left.Br?) && (BF(f) < -1 ==> f.right.Br?)
      && (BF(f) > 1 && BF(f.left) >= 0 ==> Bal(at.sub) == RotR(f))
      && (BF(f) > 1 && BF(f.left) < 0 ==>
            (&& f.left.right.Br?
             && Plug(Down(ctx, f, true), RotL(f.left)) == Plug(ctx, Br(RotL(f.left), f.node, f.value, f.height, f.right))
             && Nodes(Plug(ctx, Br(RotL(f.left), f.node, f.value, f.height, f.right))) == Nodes(at.Whole())
             && Bal(at.sub) == RotR(Br(RotL(f.left), f.node, f.value, f.height, f.right))))
      && (BF(f) < -1 && BF(f.right) <= 0 ==> Bal(at.sub) == RotL(f))
      && (BF(f) < -1 && BF(f.right) > 0 ==>
            (&& f.right.left.Br?
             && Plug(Down(ctx, f, false), RotR(f.right)) == Plug(ctx, Br(f.left, f.node, f.value, f.height, RotR(f.right)))
             && Nodes(Plug(ctx, Br(f.left, f.node, f.value, f.height, RotR(f.right)))) == Nodes(at.Whole())
             && Bal(at.sub) == RotL(Br(f.left, f.node, f.value, f.height, RotR(f.right)))))
      && (-1 <= BF(f) <= 1 ==> Bal(at.sub) == f)
  {
    var ctx, f := at.ctx, Fix(at.sub);
    PlugNodes(ctx, at.sub);
    PlugNodes(ctx, f);
    if !ctx.Top? {
      PlugRoot(ctx, at.sub, f);
    }
    if BF(f) > 1 && BF(f.left) < 0 {
      PlugNodes(ctx, Br(RotL(f.left), f.node, f.value, f.height, f.right));
    }
    if BF(f) < -1 && BF(f.right) > 0 {
      PlugNodes(ctx, Br(f.left, f.node, f.value, f.height, RotR(f.right)));
    }
  }

  // ---------------------------------------------------------------------------------------
  // Rotations.

  /** The views a right rotation gives the three nodes it moves: the middle subtree's root
      (new parent), the old root (new left child and parent) and the promoted node. */
  ghost function RightFix(t: Shape, p: Node?): map<Node, View>
    requires t.Br? && t.right.Br?
  {
    RootFix(t.right.left, t.right.node) + RootFix(t.right, t.node) + RootFix(t, p)
  }

  ghost function LeftFix(t: Shape, p: Node?): map<Node, View>
    requires t.Br? && t.left.Br?
  {
    RootFix(t.left.right, t.left.node) + RootFix(t.left, t.node) + RootFix(t, p)
  }

  /** The nodes a right rotation touches are distinct from one another and from the roots of
      the two outer subtrees. */
  lemma RightNodes(ctx: Ctx, s: Shape)
    requires Distinct(Plug(ctx, s)) && s.Br? && s.left.Br?
    ensures var x, y, t2, p := s.left.node, s.node, Root(s.left.right), HoleParent(ctx, null);
      var a, c := Root(s.left.left), Root(s.right);
      && x != y && t2 != x && t2 != y && p != x && p != y && (t2 != null ==> t2 != p)
      && a != x && a != y && (a != null ==> a != t2 && a != p)
      && c != x && c != y && (c != null ==> c != t2 && c != p)
      && x in Nodes(Plug(ctx, s)) && y in Nodes(Plug(ctx, s))
      && (t2 != null ==> t2 in Nodes(Plug(ctx, s))) && (p != null ==> p in Nodes(Plug(ctx, s)))
  {
    PlugDistinct(ctx, s, Nil);
    PlugNodes(ctx, s);
    assert Distinct(s.left);
  }

  lemma LeftNodes(ctx: Ctx, s: Shape)
    requires Distinct(Plug(ctx, s)) && s.Br? && s.right.Br?
    ensures var x, y, t2, p := s.node, s.right.node, Root(s.right.left), HoleParent(ctx, null);
      var a, c := Root(s.left), Root(s.right.right);
      && x != y && t2 != x && t2 != y && p != x && p != y && (t2 != null ==> t2 != p)
      && a != x && a != y && (a != null ==> a != t2 && a != p)
      && c != x && c != y && (c != null ==> c != t2 && c != p)
      && x in Nodes(Plug(ctx, s)) && y in Nodes(Plug(ctx, s))
      && (t2 != null ==> t2 in Nodes(Plug(ctx, s))) && (p != null ==> p in Nodes(Plug(ctx, s)))
  {
    PlugDistinct(ctx, s, Nil);
    PlugNodes(ctx, s);
    assert Distinct(s.right);
  }

  /** The writes of a right rotation about the root `y` of the site's subtree, with `x` its left
      child, `t2` the right child of `x` and `p` the parent of `y`: `x` takes `y` as right child
      and `p` as parent, `y` takes `t2` as left child and `x` as parent, `t2` takes `y` as parent,
      both heights are recomputed (lower node first) and, when `relinked`, `p` points to `x`
      where it pointed to `y`. The heap then holds the rotated tree, or, without the redirect,
      holds it except for `p`'s stale link. */
  twostate lemma RotatedRight(at: Site, new relinked: bool)
    requires old(Stores(Root(at.Whole()), at.Whole())) && at.sub.Br? && at.sub.left.Br?
    requires RightWritten(at)
    requires !at.ctx.Top? ==> var p, x, y := at.ctx.node, at.sub.left.node, at.sub.node;
      && p.value == old(p.value) && p.height == old(p.height) && p.parent == old(p.parent)
      && p.left == (if relinked && old(p.left) == y then x else old(p.left))
      && p.right == (if relinked && old(p.right) == y then x else old(p.right))
    requires forall n :: (n in Nodes(at.Whole()) && n != at.sub.node && n != at.sub.left.node
      && n != Root(at.sub.left.right) && n != HoleParent(at.ctx, null)) ==> old(allocated(n)) && unchanged(n)
    ensures relinked ==> Stores(Root(Plug(at.ctx, RotR(at.sub))), Plug(at.ctx, RotR(at.sub)))
    ensures !relinked ==> StoresBut(at.ctx, RotR(at.sub), at.sub.node)
  {
    var ctx, s := at.ctx, at.sub;
    var w := Plug(ctx, s);
    var m: map<Node, View> := Views(w, null);
    var x, y, p := s.left.node, s.node, HoleParent(ctx, null);
    RightNodes(ctx, s);
    RightFixHolds(at);
    var fix: map<Node, View> := RightFix(RotR(s), p);
    ViewsKeys(w, null);
    var h: map<Node, View> := HoleFix(ctx, if relinked then x else y, null);
    ParentHolds(at, x, relinked);
    HeapMatchesUnion(fix, h);
    HeapMatchesAfter(m, fix + h);
    RightStored(ctx, s, relinked);
  }

  /** The parent of a rotated subtree keeps its fields, except that with `relinked` it points to
      the new subtree root `x` where it pointed to the old one. It then holds the view the hole
      gives it. */
  twostate lemma ParentHolds(at: Site, new x: Node, new relinked: bool)
    requires old(Stores(Root(at.Whole()), at.Whole())) && at.sub.Br?
    requires !at.ctx.Top? ==> var p, y := at.ctx.node, at.sub.node;
      && p.value == old(p.value) && p.height == old(p.height) && p.parent == old(p.parent)
      && p.left == (if relinked && old(p.left) == y then x else old(p.left))
      && p.right == (if relinked && old(p.right) == y then x else old(p.right))
    ensures HeapMatches(HoleFix(at.ctx, if relinked then x else at.sub.node, null))
  {
    var ctx, s := at.ctx, at.sub;
    if !ctx.Top? {
      var m: map<Node, View> := Views(Plug(ctx, s), null);
      HoleView(ctx, s, null);
      assert old(Holds(ctx.node, m[ctx.node]));
      match ctx
      case InLeft(up, n, v, h, r) =>
        PlugDistinct(up, Br(s, n, v, h, r), Nil);
        assert s.node in Nodes(s);
      case InRight(l, n, v, h, up) =>
        PlugDistinct(up, Br(l, n, v, h, s), Nil);
        assert s.node in Nodes(s);
    }
    HeapMatchesHoleFix(ctx, if relinked then x else s.node, null);
  }

  /** The fields a right rotation leaves in the two nodes it moves and in the root of the middle
      subtree. */
  twostate predicate RightWritten(at: Site)
    requires at.sub.Br? && at.sub.left.Br?
    reads at.sub.node, at.sub.left.node, if at.sub.left.right.Br? then {at.sub.left.right.node} else {}
  {
    var x, y, t2 := at.sub.left.node, at.sub.node, Root(at.sub.left.right);
    && x.value == old(x.value) && x.left == old(x.left) && x.right == y && x.parent == old(y.parent)
    && y.value == old(y.value) && y.left == t2 && y.right == old(y.right) && y.parent == x
    && y.height == 1 + Max(old(GetHeight(t2)), old(GetHeight(y.right)))
    && x.height == 1 + Max(old(GetHeight(x.left)), y.height)
    && (t2 != null ==> t2.value == old(t2.value) && t2.left == old(t2.left) && t2.right == old(t2.right)
                       && t2.height == old(t2.height) && t2.parent == y)
  }

  /** Once the written nodes hold their new views, the heap holds the right-rotated tree, or
      all of it but the stale link above it. */
  lemma RightStored(ctx: Ctx, s: Shape, relinked: bool)
    requires Distinct(Plug(ctx, s)) && s.Br? && s.left.Br?
    requires HeapMatches(Views(Plug(ctx, s), null) + (RightFix(RotR(s), HoleParent(ctx, null))
      + HoleFix(ctx, if relinked then s.left.node else s.node, null)))
    ensures relinked ==> Stores(Root(Plug(ctx, RotR(s))), Plug(ctx, RotR(s)))
    ensures !relinked ==> StoresBut(ctx, RotR(s), s.node)
  {
    if relinked {
      RightRelinked(ctx, s);
    } else {
      RightStale(ctx, s);
    }
  }

  lemma RightRelinked(ctx: Ctx, s: Shape)
    requires Distinct(Plug(ctx, s)) && s.Br? && s.left.Br?
    requires HeapMatches(Views(Plug(ctx, s), null) + (RightFix(RotR(s), HoleParent(ctx, null))
      + HoleFix(ctx, s.left.node, null)))
    ensures Stores(Root(Plug(ctx, RotR(s))), Plug(ctx, RotR(s)))
  {
    var tr := RotR(s);
    var m: map<Node, View> := Views(Plug(ctx, s), null);
    var fix: map<Node, View> := RightFix(tr, HoleParent(ctx, null));
    RightOverlay(ctx, s);
    StoredAfter(Plug(ctx, tr), m + (fix + HoleFix(ctx, Root(tr), null)));
  }

  lemma RightStale(ctx: Ctx, s: Shape)
    requires Distinct(Plug(ctx, s)) && s.Br? && s.left.Br?
    requires HeapMatches(Views(Plug(ctx, s), null) + (RightFix(RotR(s), HoleParent(ctx, null))
      + HoleFix(ctx, s.node, null)))
    ensures StoresBut(ctx, RotR(s), s.node)
  {
    var tr := RotR(s);
    var m: map<Node, View> := Views(Plug(ctx, s), null);
    var fix: map<Node, View> := RightFix(tr, HoleParent(ctx, null));
    RightOverlay(ctx, s);
    HoleAgrees(ctx, s, s.left.node, null);
    PlugDistinct(ctx, s, Nil);
    assert fix.Keys <= Nodes(s);
    StaleAfter(ctx, tr, s.node, m, fix);
  }


  lemma StoredAfter(t: Shape, m: map<Node, View>)
    requires Distinct(t) && HeapMatches(m) && Agrees(Views(t, null), m)
    ensures Stores(Root(t), t)
  {
    HeapMatchesAgrees(Views(t, null), m);
    ViewsKeys(t, null);
  }

  lemma StaleAfter(c: Ctx, t: Shape, stale: Node?, m: map<Node, View>, u: map<Node, View>)
    requires Distinct(Plug(c, t)) && HeapMatches(m + (u + HoleFix(c, stale, null)))
    requires Agrees(Views(Plug(c, t), null) + HoleFix(c, stale, null), m + u)
    requires Agrees(HoleFix(c, stale, null), m) && u.Keys !! HoleFix(c, stale, null).Keys
    ensures StoresBut(c, t, stale)
  {
    var h := HoleFix(c, stale, null);
    var a := Views(Plug(c, t), null) + h;
    forall n | n in a ensures n in m + (u + h) && a[n] == (m + (u + h))[n] {
      if n !in h {
        assert n in m + u;
      }
    }
    HeapMatchesAgrees(a, m + (u + h));
  }

  lemma AgreesBoth(a: map<Node, View>, b: map<Node, View>, h: map<Node, View>)
    requires Agrees(a + h, b) && Agrees(h, b)
    ensures Agrees(a + h, b + h)
  {
  }

  /** The three written nodes hold the views the rotated tree gives them. */
  twostate lemma RightFixHolds(at: Site)
    requires old(Stores(Root(at.Whole()), at.Whole())) && at.sub.Br? && at.sub.left.Br? && RightWritten(at)
    ensures HeapMatches(RightFix(RotR(at.sub), HoleParent(at.ctx, null)))
  {
    var ctx, s := at.ctx, at.sub;
    var m: map<Node, View> := Views(Plug(ctx, s), null);
    var tr := RotR(s);
    var x, y, p := s.left.node, s.node, HoleParent(ctx, null);
    var a, b, c := s.left.left, s.left.right, s.right;
    var cl := Down(ctx, s, true);
    RightNodes(ctx, s);
    RootView(ctx, s, null);
    assert old(Holds(y, m[y]));
    RootView(cl, s.left, null);
    assert old(Holds(x, m[x]));
    if a.Br? {
      RootView(Down(cl, s.left, true), a, null);
      assert old(Holds(a.node, m[a.node]));
    }
    if b.Br? {
      RootView(Down(cl, s.left, false), b, null);
      assert old(Holds(b.node, m[b.node]));
    }
    if c.Br? {
      RootView(Down(ctx, s, false), c, null);
      assert old(Holds(c.node, m[c.node]));
    }
    HeapMatchesRootFix(tr.right.left, y);
    HeapMatchesRootFix(tr.right, x);
    HeapMatchesRootFix(tr, p);
    HeapMatchesUnion(RootFix(tr.right.left, y), RootFix(tr.right, x));
    HeapMatchesUnion(RootFix(tr.right.left, y) + RootFix(tr.right, x), RootFix(tr, p));
  }

  /** Where a right rotation leaves the views of the whole tree, with and without the redirect. */
  lemma RightOverlay(ctx: Ctx, s: Shape)
    requires Distinct(Plug(ctx, s)) && s.Br? && s.left.Br?
    ensures var tr, p := RotR(s), HoleParent(ctx, null);
      && Distinct(Plug(ctx, tr)) && Root(tr) == s.left.node
      && Agrees(Views(Plug(ctx, tr), null), Views(Plug(ctx, s), null) + (RightFix(tr, p) + HoleFix(ctx, Root(tr), null)))
      && Agrees(Views(Plug(ctx, tr), null) + HoleFix(ctx, s.node, null), Views(Plug(ctx, s), null) + RightFix(tr, p))
  {
    var tr, p := RotR(s), HoleParent(ctx, null);
    PlugDistinct(ctx, s, tr);
    PlugNodes(ctx, s);
    RightLocal(s, p);
    Overlay(ctx, s, tr, RightFix(tr, p), null);
    OverlayStale(ctx, s, tr, RightFix(tr, p), null);
  }

  /** The mirror image: a left rotation about the root `x` of the site's subtree, with `y` its
      right child, `t2` the left child of `y` and `p` the parent of `x`. */
  twostate lemma RotatedLeft(at: Site, new relinked: bool)
    requires old(Stores(Root(at.Whole()), at.Whole())) && at.sub.Br? && at.sub.right.Br?
    requires LeftWritten(at)
    requires !at.ctx.Top? ==> var p, x, y := at.ctx.node, at.sub.node, at.sub.right.node;
      && p.value == old(p.value) && p.height == old(p.height) && p.parent == old(p.parent)
      && p.left == (if relinked && old(p.left) == x then y else old(p.left))
      && p.right == (if relinked && old(p.right) == x then y else old(p.right))
    requires forall n :: (n in Nodes(at.Whole()) && n != at.sub.node && n != at.sub.right.node
      && n != Root(at.sub.right.left) && n != HoleParent(at.ctx, null)) ==> old(allocated(n)) && unchanged(n)
    ensures relinked ==> Stores(Root(Plug(at.ctx, RotL(at.sub))), Plug(at.ctx, RotL(at.sub)))
    ensures !relinked ==> StoresBut(at.ctx, RotL(at.sub), at.sub.node)
  {
    var ctx, s := at.ctx, at.sub;
    var w := Plug(ctx, s);
    var m: map<Node, View> := Views(w, null);
    var x, y, p := s.node, s.right.node, HoleParent(ctx, null);
    LeftNodes(ctx, s);
    LeftFixHolds(at);
    var fix: map<Node, View> := LeftFix(RotL(s), p);
    ViewsKeys(w, null);
    var h: map<Node, View> := HoleFix(ctx, if relinked then y else x, null);
    ParentHolds(at, y, relinked);
    HeapMatchesUnion(fix, h);
    HeapMatchesAfter(m, fix + h);
    LeftStored(ctx, s, relinked);
  }

  twostate predicate LeftWritten(at: Site)
    requires at.sub.Br? && at.sub.right.Br?
    reads at.sub.node, at.sub.right.node, if at.sub.right.left.Br? then {at.sub.right.left.node} else {}
  {
    var x, y, t2 := at.sub.node, at.sub.right.node, Root(at.sub.right.left);
    && y.value == old(y.value) && y.right == old(y.right) && y.left == x && y.parent == old(x.parent)
    && x.value == old(x.value) && x.right == t2 && x.left == old(x.left) && x.parent == y
    && x.height == 1 + Max(old(GetHeight(x.left)), old(GetHeight(t2)))
    && y.height == 1 + Max(x.height, old(GetHeight(y.right)))
    && (t2 != null ==> t2.value == old(t2.value) && t2.left == old(t2.left) && t2.right == old(t2.right)
                       && t2.height == old(t2.height) && t2.parent == x)
  }

  lemma LeftStored(ctx: Ctx, s: Shape, relinked: bool)
    requires Distinct(Plug(ctx, s)) && s.Br? && s.right.Br?
    requires HeapMatches(Views(Plug(ctx, s), null) + (LeftFix(RotL(s), HoleParent(ctx, null))
      + HoleFix(ctx, if relinked then s.right.node else s.node, null)))
    ensures relinked ==> Stores(Root(Plug(ctx, RotL(s))), Plug(ctx, RotL(s)))
    ensures !relinked ==> StoresBut(ctx, RotL(s), s.node)
  {
    if relinked {
      LeftRelinked(ctx, s);
    } else {
      LeftStale(ctx, s);
    }
  }

  lemma LeftRelinked(ctx: Ctx, s: Shape)
    requires Distinct(Plug(ctx, s)) && s.Br? && s.right.Br?
    requires HeapMatches(Views(Plug(ctx, s), null) + (LeftFix(RotL(s), HoleParent(ctx, null))
      + HoleFix(ctx, s.right.node, null)))
    ensures Stores(Root(Plug(ctx, RotL(s))), Plug(ctx, RotL(s)))
  {
    var tr := RotL(s);
    var m: map<Node, View> := Views(Plug(ctx, s), null);
    var fix: map<Node, View> := LeftFix(tr, HoleParent(ctx, null));
    LeftOverlay(ctx, s);
    StoredAfter(Plug(ctx, tr), m + (fix + HoleFix(ctx, Root(tr), null)));
  }

  lemma LeftStale(ctx: Ctx, s: Shape)
    requires Distinct(Plug(ctx, s)) && s.Br? && s.right.Br?
    requires HeapMatches(Views(Plug(ctx, s), null) + (LeftFix(RotL(s), HoleParent(ctx, null))
      + HoleFix(ctx, s.node, null)))
    ensures StoresBut(ctx, RotL(s), s.node)
  {
    var tr := RotL(s);
    var m: map<Node, View> := Views(Plug(ctx, s), null);
    var fix: map<Node, View> := LeftFix(tr, HoleParent(ctx, null));
    LeftOverlay(ctx, s);
    HoleAgrees(ctx, s, s.right.node, null);
    PlugDistinct(ctx, s, Nil);
    assert fix.Keys <= Nodes(s);
    StaleAfter(ctx, tr, s.node, m, fix);
  }


  twostate lemma LeftFixHolds(at: Site)
    requires old(Stores(Root(at.Whole()), at.Whole())) && at.sub.Br? && at.sub.right.Br? && LeftWritten(at)
    ensures HeapMatches(LeftFix(RotL(at.sub), HoleParent(at.ctx, null)))
  {
    var ctx, s := at.ctx, at.sub;
    var m: map<Node, View> := Views(Plug(ctx, s), null);
    var tr := RotL(s);
    var x, y, p := s.node, s.right.node, HoleParent(ctx, null);
    var a, b, c := s.left, s.right.left, s.right.right;
    var cr := Down(ctx, s, false);
    LeftNodes(ctx, s);
    RootView(ctx, s, null);
    assert old(Holds(x, m[x]));
    RootView(cr, s.right, null);
    assert old(Holds(y, m[y]));
    if a.Br? {
      RootView(Down(ctx, s, true), a, null);
      assert old(Holds(a.node, m[a.node]));
    }
    if b.Br? {
      RootView(Down(cr, s.right, true), b, null);
      assert old(Holds(b.node, m[b.node]));
    }
    if c.Br? {
      RootView(Down(cr, s.right, false), c, null);
      assert old(Holds(c.node, m[c.node]));
    }
    HeapMatchesRootFix(tr.left.right, x);
    HeapMatchesRootFix(tr.left, y);
    HeapMatchesRootFix(tr, p);
    HeapMatchesUnion(RootFix(tr.left.right, x), RootFix(tr.left, y));
    HeapMatchesUnion(RootFix(tr.left.right, x) + RootFix(tr.left, y), RootFix(tr, p));
  }

  lemma LeftOverlay(ctx: Ctx, s: Shape)
    requires Distinct(Plug(ctx, s)) && s.Br? && s.right.Br?
    ensures var tr, p := RotL(s), HoleParent(ctx, null);
      && Distinct(Plug(ctx, tr)) && Root(tr) == s.right.node
      && Agrees(Views(Plug(ctx, tr), null), Views(Plug(ctx, s), null) + (LeftFix(tr, p) + HoleFix(ctx, Root(tr), null)))
      && Agrees(Views(Plug(ctx, tr), null) + HoleFix(ctx, s.node, null), Views(Plug(ctx, s), null) + LeftFix(tr, p))
  {
    var tr, p := RotL(s), HoleParent(ctx, null);
    PlugDistinct(ctx, s, tr);
    PlugNodes(ctx, s);
    LeftLocal(s, p);
    Overlay(ctx, s, tr, LeftFix(tr, p), null);
    OverlayStale(ctx, s, tr, LeftFix(tr, p), null);
  }

  /** Locally, a rotation changes exactly the views of the three nodes it moves. */
  lemma RightLocal(s: Shape, p: Node?)
    requires Distinct(s) && s.Br? && s.left.Br?
    ensures Agrees(Views(RotR(s), p), Views(s, p) + RightFix(RotR(s), p))
  {
    var t := RotR(s);
    var a, x, b, y, c := s.left.left, s.left.node, s.left.right, s.node, s.right;
    assert Distinct(s.left);
    ViewsKeys(a, x);
    ViewsKeys(b, x);
    ViewsKeys(c, y);
    Reparent(b, x, y);
    assert t.left == a && t.node == x && t.right.left == b && t.right.node == y && t.right.right == c;
    assert Views(t.right, x) == Views(b, y) + Views(c, y) + RootFix(t.right, x);
    assert Views(s.left, y) == Views(a, x) + Views(b, x) + RootFix(s.left, y);
    RightMaps(Views(a, x), Views(b, x), Views(c, y), RootFix(b, y), RootFix(t, p), RootFix(t.right, x),
      RootFix(s.left, y), RootFix(s, p));
  }

  lemma RightMaps(a: map<Node, View>, b: map<Node, View>, c: map<Node, View>, rb: map<Node, View>,
      rx: map<Node, View>, ry: map<Node, View>, rx0: map<Node, View>, ry0: map<Node, View>)
    requires a.Keys !! b.Keys && a.Keys !! c.Keys && b.Keys !! c.Keys && rb.Keys <= b.Keys
    requires rx.Keys == rx0.Keys && ry.Keys == ry0.Keys
    requires rx.Keys !! (a.Keys + b.Keys + c.Keys + ry.Keys) && ry.Keys !! (a.Keys + b.Keys + c.Keys)
    ensures Agrees(a + (b + rb + c + ry) + rx, ((a + b + rx0) + c + ry0) + (rb + ry + rx))
  {
    var l: map<Node, View> := a + (b + rb + c + ry) + rx;
    var r: map<Node, View> := ((a + b + rx0) + c + ry0) + (rb + ry + rx);
    forall n | n in l ensures n in r && l[n] == r[n] {
      if n in rx {
      } else if n in ry {
      } else if n in rb {
      } else if n in a {
        assert n !in c && n !in b;
      } else if n in b {
        assert n !in c;
      }
    }
  }

  lemma LeftLocal(s: Shape, p: Node?)
    requires Distinct(s) && s.Br? && s.right.Br?
    ensures Agrees(Views(RotL(s), p), Views(s, p) + LeftFix(RotL(s), p))
  {
    var t := RotL(s);
    var a, x, b, y, c := s.left, s.node, s.right.left, s.right.node, s.right.right;
    assert Distinct(s.right);
    ViewsKeys(a, x);
    ViewsKeys(b, y);
    ViewsKeys(c, y);
    Reparent(b, y, x);
    assert t.right == c && t.node == y && t.left.right == b && t.left.node == x && t.left.left == a;
    assert Views(t.left, y) == Views(a, x) + Views(b, x) + RootFix(t.left, y);
    assert Views(s.right, x) == Views(b, y) + Views(c, y) + RootFix(s.right, x);
    LeftMaps(Views(a, x), Views(b, y), Views(c, y), RootFix(b, x), RootFix(t.left, y), RootFix(t, p),
      RootFix(s.right, x), RootFix(s, p));
  }

  lemma LeftMaps(a: map<Node, View>, b: map<Node, View>, c: map<Node, View>, rb: map<Node, View>,
      rx: map<Node, View>, ry: map<Node, View>, ry0: map<Node, View>, rx0: map<Node, View>)
    requires a.Keys !! b.Keys && a.Keys !! c.Keys && b.Keys !! c.Keys && rb.Keys <= b.Keys
    requires rx.Keys == rx0.Keys && ry.Keys == ry0.Keys
    requires rx.Keys !! (a.Keys + b.Keys + c.Keys + ry.Keys) && ry.Keys !! (a.Keys + b.Keys + c.Keys)
    ensures Agrees((a + (b + rb) + rx) + c + ry, (a + (b + c + ry0) + rx0) + (rb + rx + ry))
  {
    var l: map<Node, View> := (a + (b + rb) + rx) + c + ry;
    var r: map<Node, View> := (a + (b + c + ry0) + rx0) + (rb + rx + ry);
    forall n | n in l ensures n in r && l[n] == r[n] {
      if n in ry {
      } else if n in rx {
      } else if n in rb {
      } else if n in a {
        assert n !in c && n !in b;
      } else if n in b {
        assert n !in c;
      }
    }
  }

  /** A replaced subtree whose new root is not yet linked from the node above the hole: that
      node keeps its old view. */
  lemma OverlayStale(c: Ctx, s: Shape, t: Shape, u: map<Node, View>, top: Node?)
    requires Distinct(Plug(c, s))
    requires u.Keys !! CtxNodes(c) && Nodes(t) !! CtxNodes(c)
    requires Agrees(Views(t, HoleParent(c, top)), Views(s, HoleParent(c, top)) + u)
    ensures Agrees(Views(Plug(c, t), top) + HoleFix(c, Root(s), top), Views(Plug(c, s), top) + u)
  {
    Overlay(c, s, t, u, top);
    HoleAgrees(c, s, Root(t), top);
    StaleMaps(Views(Plug(c, t), top), Views(Plug(c, s), top), u, HoleFix(c, Root(t), top),
      HoleFix(c, Root(s), top));
  }

  lemma HoleAgrees(c: Ctx, s: Shape, x: Node?, top: Node?)
    requires Distinct(Plug(c, s))
    ensures Agrees(HoleFix(c, Root(s), top), Views(Plug(c, s), top))
    ensures HoleFix(c, x, top).Keys == HoleFix(c, Root(s), top).Keys <= CtxNodes(c)
  {
    if !c.Top? {
      HoleView(c, s, top);
    }
  }

  lemma StaleMaps(vt: map<Node, View>, vs: map<Node, View>, u: map<Node, View>, h: map<Node, View>,
      h0: map<Node, View>)
    requires Agrees(vt, vs + (u + h)) && Agrees(h0, vs)
    requires h.Keys == h0.Keys && h.Keys !! u.Keys
    ensures Agrees(vt + h0, vs + u)
  {
    forall n | n in vt + h0 ensures n in vs + u && (vt + h0)[n] == (vs + u)[n] {
      if n in h0 {
        assert n !in u;
      } else {
        assert n !in h;
      }
    }
  }
}
