/** What the fields of the nodes of a shape hold (`Views`), and how those views change when a
    subtree is replaced: the lemmas that let a method touch a few nodes and conclude that the heap
    holds the new shape. */
module HeapViews {
  import opened Contacts
  import opened Shapes

  /** What the fields of one node hold. */
  datatype View = View(value: Contact, left: Node?, right: Node?, parent: Node?, height: int)

  predicate Holds(n: Node, w: View)
    reads n
  {
    n.value == w.value && n.left == w.left && n.right == w.right && n.parent == w.parent
    && n.height == w.height
  }

  /** Every node in the map holds its view. */
  ghost predicate HeapMatches(m: map<Node, View>)
    reads m.Keys
  {
    forall n {:trigger Holds(n, m[n])} :: n in m ==> Holds(n, m[n])
  }

  /** The fields of the nodes of `s` as `s` says they are, with `p` the parent of its root. */
  ghost function Views(s: Shape, p: Node?): map<Node, View> {
    if s.Nil? then map[]
    else
      Views(s.left, s.node) + Views(s.right, s.node)
      + map[s.node := View(s.value, Root(s.left), Root(s.right), p, s.height)]
  }

  /** The view of the root of `s` when its parent is `p`. */
  ghost function RootFix(s: Shape, p: Node?): map<Node, View> {
    if s.Nil? then map[] else map[s.node := View(s.value, Root(s.left), Root(s.right), p, s.height)]
  }

  /** Every view in `a` is also in `b`. */
  ghost predicate Agrees(a: map<Node, View>, b: map<Node, View>) {
    forall x :: x in a ==> x in b && a[x] == b[x]
  }

  /** The view of the node above the hole once `x` is its child there. */
  ghost function HoleFix(c: Ctx, x: Node?, top: Node?): map<Node, View> {
    match c
    case Top => map[]
    case InLeft(up, n, v, h, r) => map[n := View(v, x, Root(r), HoleParent(up, top), h)]
    case InRight(l, n, v, h, up) => map[n := View(v, Root(l), x, HoleParent(up, top), h)]
  }

  // ---------------------------------------------------------------------------------------
  // From views to the heap.

  lemma HeapMatchesAgrees(a: map<Node, View>, b: map<Node, View>)
    requires HeapMatches(b) && Agrees(a, b)
    ensures HeapMatches(a)
  {
  }

  /** The map still holds when every node but `n0` is unchanged and `n0` holds its view. */
  twostate lemma HeapMatchesKept(m: map<Node, View>, new n0: Node)
    requires old(HeapMatches(m)) && (n0 in m ==> Holds(n0, m[n0]))
    requires forall n :: n in m && n != n0 ==> unchanged(n)
    ensures HeapMatches(m)
  {
    forall n | n in m ensures Holds(n, m[n]) {
      if n != n0 {
        assert old(Holds(n, m[n]));
      }
    }
  }

  /** Nodes that keep their fields keep agreeing with the views; only the written ones need
      checking again. */
  twostate lemma HeapMatchesAfter(m: map<Node, View>, new u: map<Node, View>)
    requires old(HeapMatches(m)) && HeapMatches(u)
    requires forall n :: n in m && n !in u ==> unchanged(n)
    ensures HeapMatches(m + u)
  {
    forall n | n in m + u ensures Holds(n, (m + u)[n]) {
      if n !in u {
        assert old(Holds(n, m[n]));
      }
    }
  }

  lemma HeapMatchesUnion(a: map<Node, View>, b: map<Node, View>)
    requires HeapMatches(a) && HeapMatches(b)
    ensures HeapMatches(a + b)
  {
  }

  lemma HeapMatchesHang(s: Shape, n: Node, x: Contact, left: bool, p: Node?)
    requires s.Br?
    requires Holds(n, View(x, null, null, s.node, 1))
    requires Holds(s.node, View(s.value, if left then n else Root(s.left), if left then Root(s.right) else n, p, s.height))
    ensures HeapMatches(HangFix(s, n, x, left, p))
  {
  }

  lemma HeapMatchesRootFix(s: Shape, p: Node?)
    requires s.Br? ==> Holds(s.node, View(s.value, Root(s.left), Root(s.right), p, s.height))
    ensures HeapMatches(RootFix(s, p))
  {
  }

  lemma HeapMatchesHoleFix(c: Ctx, x: Node?, top: Node?)
    requires !c.Top? ==> c.node in HoleFix(c, x, top) && Holds(c.node, HoleFix(c, x, top)[c.node])
    ensures HeapMatches(HoleFix(c, x, top))
  {
  }

  lemma HeapMatchesOne(n: Node, w: View)
    requires Holds(n, w)
    ensures HeapMatches(map[n := w])
  {
  }

  // ---------------------------------------------------------------------------------------
  // Views of subtrees.

  lemma {:induction false} ViewsKeys(s: Shape, p: Node?)
    ensures Views(s, p).Keys == Nodes(s)
  {
    if s.Br? {
      ViewsKeys(s.left, s.node);
      ViewsKeys(s.right, s.node);
    }
  }

  /** Another parent for the root changes the root's view only. */
  lemma Reparent(s: Shape, p: Node?, q: Node?)
    ensures Views(s, q) == Views(s, p) + RootFix(s, q)
  {
  }

  /** The views of a subtree are the views its nodes have in the whole tree. */
  lemma {:induction false} SubViews(c: Ctx, s: Shape, top: Node?)
    requires Distinct(Plug(c, s))
    ensures Agrees(Views(s, HoleParent(c, top)), Views(Plug(c, s), top))
  {
    match c
    case Top =>
    case InLeft(up, n, v, h, r) =>
      var b := Br(s, n, v, h, r);
      SubViews(up, b, top);
      PlugDistinct(up, b, Nil);
      ViewsKeys(s, n);
      ViewsKeys(r, n);
      var w := View(v, Root(s), Root(r), HoleParent(up, top), h);
      assert Views(b, HoleParent(up, top)) == Views(s, n) + Views(r, n) + map[n := w];
      MapBelowLeft(Views(s, n), Views(r, n), n, w);
    case InRight(l, n, v, h, up) =>
      var b := Br(l, n, v, h, s);
      SubViews(up, b, top);
      PlugDistinct(up, b, Nil);
      ViewsKeys(s, n);
      var w := View(v, Root(l), Root(s), HoleParent(up, top), h);
      assert Views(b, HoleParent(up, top)) == Views(l, n) + Views(s, n) + map[n := w];
      MapBelowRight(Views(l, n), Views(s, n), n, w);
  }

  lemma MapBelowLeft(a: map<Node, View>, b: map<Node, View>, n: Node, w: View)
    ensures forall x :: x in a && x !in b && x != n ==> x in a + b + map[n := w] && (a + b + map[n := w])[x] == a[x]
  {
  }

  lemma MapBelowRight(a: map<Node, View>, b: map<Node, View>, n: Node, w: View)
    ensures forall x :: x in b && x != n ==> x in a + b + map[n := w] && (a + b + map[n := w])[x] == b[x]
  {
  }

  /** A heap holding a tree holds each of its subtrees. */
  lemma SubHeap(c: Ctx, s: Shape, top: Node?)
    requires Distinct(Plug(c, s)) && HeapMatches(Views(Plug(c, s), top))
    ensures Distinct(s) && HeapMatches(Views(s, HoleParent(c, top)))
  {
    SubViews(c, s, top);
    PlugDistinct(c, s, Nil);
    HeapMatchesAgrees(Views(s, HoleParent(c, top)), Views(Plug(c, s), top));
  }

  /** What the root of a subtree holds, read off the whole tree. */
  lemma RootView(c: Ctx, s: Shape, top: Node?)
    requires Distinct(Plug(c, s)) && s.Br?
    ensures s.node in Views(Plug(c, s), top)
    ensures Views(Plug(c, s), top)[s.node]
      == View(s.value, Root(s.left), Root(s.right), HoleParent(c, top), s.height)
  {
    SubViews(c, s, top);
  }

  /** What the node above the hole holds, read off the whole tree. */
  lemma HoleView(c: Ctx, s: Shape, top: Node?)
    requires Distinct(Plug(c, s)) && !c.Top?
    ensures c.node in Views(Plug(c, s), top)
    ensures Views(Plug(c, s), top)[c.node] == HoleFix(c, Root(s), top)[c.node]
  {
    match c
    case InLeft(up, n, v, h, r) =>
      RootView(up, Br(s, n, v, h, r), top);
    case InRight(l, n, v, h, up) =>
      RootView(up, Br(l, n, v, h, s), top);
  }

  // ---------------------------------------------------------------------------------------
  // Replacing a subtree.

  /** One step up from a replaced left subtree (`vs` before, `vt` after) beside an untouched
      right one (`vo`), below a node `n` whose view goes from `w` to `w'`. */
  lemma AgreeStepLeft(vs: map<Node, View>, vt: map<Node, View>, vo: map<Node, View>, u: map<Node, View>,
      n: Node, w: View, w': View)
    requires Agrees(vt, vs + u) && vt.Keys !! vo.Keys && u.Keys !! vo.Keys && vs.Keys !! vo.Keys
    requires n !in u && n !in vt
    ensures Agrees(vt + vo + map[n := w'], (vs + vo + map[n := w]) + (u + map[n := w']))
  {
    var a := vt + vo + map[n := w'];
    var b := (vs + vo + map[n := w]) + (u + map[n := w']);
    forall x | x in a ensures x in b && a[x] == b[x] {
      if x == n {
      } else if x in vo {
        assert x !in vt && x !in u && x !in vs;
      } else {
        assert x in vt;
      }
    }
  }

  /** The same for a replaced right subtree. */
  lemma AgreeStepRight(vs: map<Node, View>, vt: map<Node, View>, vo: map<Node, View>, u: map<Node, View>,
      n: Node, w: View, w': View)
    requires Agrees(vt, vs + u) && vt.Keys !! vo.Keys && u.Keys !! vo.Keys && vs.Keys !! vo.Keys
    requires n !in u && n !in vt
    ensures Agrees(vo + vt + map[n := w'], (vo + vs + map[n := w]) + (u + map[n := w']))
  {
    var a := vo + vt + map[n := w'];
    var b := (vo + vs + map[n := w]) + (u + map[n := w']);
    forall x | x in a ensures x in b && a[x] == b[x] {
      if x == n {
      } else if x in vo {
        assert x !in vt && x !in u && x !in vs;
      } else {
        assert x in vt;
      }
    }
  }

  /** One step up from a replaced left subtree, below a node whose view stays. */
  lemma AgreeSameLeft(vs: map<Node, View>, vt: map<Node, View>, vo: map<Node, View>, u: map<Node, View>,
      n: Node, w: View)
    requires Agrees(vt, vs + u) && vt.Keys !! vo.Keys && u.Keys !! vo.Keys && vs.Keys !! vo.Keys
    requires n !in u && n !in vt
    ensures Agrees(vt + vo + map[n := w], (vs + vo + map[n := w]) + u)
  {
    var a := vt + vo + map[n := w];
    var b := (vs + vo + map[n := w]) + u;
    forall x | x in a ensures x in b && a[x] == b[x] {
      if x == n {
      } else if x in vo {
        assert x !in vt && x !in u && x !in vs;
      } else {
        assert x in vt;
      }
    }
  }

  /** The same for a replaced right subtree. */
  lemma AgreeSameRight(vs: map<Node, View>, vt: map<Node, View>, vo: map<Node, View>, u: map<Node, View>,
      n: Node, w: View)
    requires Agrees(vt, vs + u) && vt.Keys !! vo.Keys && u.Keys !! vo.Keys && vs.Keys !! vo.Keys
    requires n !in u && n !in vt
    ensures Agrees(vo + vt + map[n := w], (vo + vs + map[n := w]) + u)
  {
    var a := vo + vt + map[n := w];
    var b := (vo + vs + map[n := w]) + u;
    forall x | x in a ensures x in b && a[x] == b[x] {
      if x == n {
      } else if x in vo {
        assert x !in vt && x !in u && x !in vs;
      } else {
        assert x in vt;
      }
    }
  }

  /** Replacing a subtree by one with the same root: the views of the whole tree change where
      those of the subtree change. */
  lemma {:induction false} OverlaySame(c: Ctx, s: Shape, t: Shape, u: map<Node, View>, top: Node?)
    requires Distinct(Plug(c, s)) && Root(s) == Root(t)
    requires u.Keys !! CtxNodes(c) && Nodes(t) !! CtxNodes(c)
    requires Agrees(Views(t, HoleParent(c, top)), Views(s, HoleParent(c, top)) + u)
    ensures Agrees(Views(Plug(c, t), top), Views(Plug(c, s), top) + u)
  {
    match c
    case Top =>
    case InLeft(up, n, v, h, r) =>
      PlugDistinct(up, Br(s, n, v, h, r), Nil);
      ViewsKeys(s, n);
      ViewsKeys(t, n);
      ViewsKeys(r, n);
      AgreeSameLeft(Views(s, n), Views(t, n), Views(r, n), u, n, View(v, Root(s), Root(r), HoleParent(up, top), h));
      OverlaySame(up, Br(s, n, v, h, r), Br(t, n, v, h, r), u, top);
    case InRight(l, n, v, h, up) =>
      PlugDistinct(up, Br(l, n, v, h, s), Nil);
      ViewsKeys(s, n);
      ViewsKeys(t, n);
      ViewsKeys(l, n);
      AgreeSameRight(Views(s, n), Views(t, n), Views(l, n), u, n, View(v, Root(l), Root(s), HoleParent(up, top), h));
      OverlaySame(up, Br(l, n, v, h, s), Br(l, n, v, h, t), u, top);
  }

  /** An empty fix changes nothing. */
  lemma AgreesNoFix(a: map<Node, View>, b: map<Node, View>, u: map<Node, View>)
    requires Agrees(a, b + u)
    ensures Agrees(a, b + (u + map[]))
  {
  }

  /** Replacing a subtree: the views of the whole tree change where those of the subtree change,
      and at the node above the hole, whose child there becomes the new root. */
  lemma Overlay(c: Ctx, s: Shape, t: Shape, u: map<Node, View>, top: Node?)
    requires Distinct(Plug(c, s))
    requires u.Keys !! CtxNodes(c) && Nodes(t) !! CtxNodes(c)
    requires Agrees(Views(t, HoleParent(c, top)), Views(s, HoleParent(c, top)) + u)
    ensures Agrees(Views(Plug(c, t), top), Views(Plug(c, s), top) + (u + HoleFix(c, Root(t), top)))
  {
    match c
    case Top =>
      AgreesNoFix(Views(t, top), Views(s, top), u);
    case InLeft(up, n, v, h, r) =>
      PlugDistinct(up, Br(s, n, v, h, r), Nil);
      OverlayLeft(up, s, t, n, v, h, r, u, top);
    case InRight(l, n, v, h, up) =>
      PlugDistinct(up, Br(l, n, v, h, s), Nil);
      OverlayRight(up, l, n, v, h, s, t, u, top);
  }

  lemma OverlayLeft(up: Ctx, s: Shape, t: Shape, n: Node, v: Contact, h: Height, r: Shape,
                    u: map<Node, View>, top: Node?)
    requires Distinct(Plug(up, Br(s, n, v, h, r))) && Distinct(Br(s, n, v, h, r))
    requires Nodes(Br(s, n, v, h, r)) !! CtxNodes(up)
    requires u.Keys !! CtxNodes(InLeft(up, n, v, h, r)) && Nodes(t) !! CtxNodes(InLeft(up, n, v, h, r))
    requires Agrees(Views(t, n), Views(s, n) + u)
    ensures Agrees(Views(Plug(up, Br(t, n, v, h, r)), top),
                   Views(Plug(up, Br(s, n, v, h, r)), top) + (u + HoleFix(InLeft(up, n, v, h, r), Root(t), top)))
  {
    ViewsKeys(s, n);
    ViewsKeys(t, n);
    ViewsKeys(r, n);
    var p := HoleParent(up, top);
    var w' := View(v, Root(t), Root(r), p, h);
    assert HoleFix(InLeft(up, n, v, h, r), Root(t), top) == map[n := w'];
    AgreeStepLeft(Views(s, n), Views(t, n), Views(r, n), u, n, View(v, Root(s), Root(r), p, h), w');
    OverlaySame(up, Br(s, n, v, h, r), Br(t, n, v, h, r), u + map[n := w'], top);
  }

  lemma OverlayRight(up: Ctx, l: Shape, n: Node, v: Contact, h: Height, s: Shape, t: Shape,
                     u: map<Node, View>, top: Node?)
    requires Distinct(Plug(up, Br(l, n, v, h, s))) && Distinct(Br(l, n, v, h, s))
    requires Nodes(Br(l, n, v, h, s)) !! CtxNodes(up)
    requires u.Keys !! CtxNodes(InRight(l, n, v, h, up)) && Nodes(t) !! CtxNodes(InRight(l, n, v, h, up))
    requires Agrees(Views(t, n), Views(s, n) + u)
    ensures Agrees(Views(Plug(up, Br(l, n, v, h, t)), top),
                   Views(Plug(up, Br(l, n, v, h, s)), top) + (u + HoleFix(InRight(l, n, v, h, up), Root(t), top)))
  {
    ViewsKeys(s, n);
    ViewsKeys(t, n);
    ViewsKeys(l, n);
    var p := HoleParent(up, top);
    var w' := View(v, Root(l), Root(t), p, h);
    assert HoleFix(InRight(l, n, v, h, up), Root(t), top) == map[n := w'];
    AgreeStepRight(Views(s, n), Views(t, n), Views(l, n), u, n, View(v, Root(l), Root(s), p, h), w');
    OverlaySame(up, Br(l, n, v, h, s), Br(l, n, v, h, t), u + map[n := w'], top);
  }

  // ---------------------------------------------------------------------------------------
  // Hanging a new leaf.

  /** `s` with a leaf holding `x` as its left or right child. */
  function Hang(s: Shape, n: Node, x: Contact, left: bool): Shape
    requires s.Br?
  {
    if left then Br(Br(Nil, n, x, 1, Nil), s.node, s.value, s.height, s.right)
    else Br(s.left, s.node, s.value, s.height, Br(Nil, n, x, 1, Nil))
  }

  /** The views that change when a leaf is hung below the root of `s`: the leaf's, and the
      root's, whose child there becomes the leaf. */
  ghost function HangFix(s: Shape, n: Node, x: Contact, left: bool, p: Node?): map<Node, View>
    requires s.Br?
  {
    map[n := View(x, null, null, s.node, 1),
        s.node := View(s.value, if left then n else Root(s.left), if left then Root(s.right) else n, p, s.height)]
  }

  /** Hanging a fresh leaf in a missing child keeps every node distinct. */
  lemma HangDistinct(c: Ctx, s: Shape, n: Node, x: Contact, left: bool)
    requires Distinct(Plug(c, s)) && s.Br? && n !in Nodes(Plug(c, s))
    requires if left then s.left.Nil? else s.right.Nil?
    ensures Plug(Down(c, s, left), Br(Nil, n, x, 1, Nil)) == Plug(c, Hang(s, n, x, left))
    ensures Distinct(Plug(c, Hang(s, n, x, left)))
    ensures Nodes(Hang(s, n, x, left)) !! CtxNodes(c)
  {
    var leaf := Br(Nil, n, x, 1, Nil);
    PlugNodes(c, s);
    PlugDistinct(c, s, Nil);
    assert Nodes(leaf) == {n} && Distinct(leaf);
    assert n !in Nodes(s.left) && n !in Nodes(s.right) && n != s.node;
    assert Nodes(Hang(s, n, x, left)) == Nodes(s) + {n};
    PlugDistinct(c, s, Hang(s, n, x, left));
  }

  /** Hanging a fresh leaf changes the views of the whole tree at the leaf and at its parent
      only. */
  lemma HangViews(c: Ctx, s: Shape, n: Node, x: Contact, left: bool, top: Node?)
    requires Distinct(Plug(c, s)) && s.Br? && n !in Nodes(Plug(c, s))
    requires if left then s.left.Nil? else s.right.Nil?
    ensures Agrees(Views(Plug(c, Hang(s, n, x, left)), top),
                   Views(Plug(c, s), top) + HangFix(s, n, x, left, HoleParent(c, top)))
  {
    HangDistinct(c, s, n, x, left);
    PlugNodes(c, s);
    PlugDistinct(c, s, Nil);
    HangLocal(s, n, x, left, HoleParent(c, top));
    OverlaySame(c, s, Hang(s, n, x, left), HangFix(s, n, x, left, HoleParent(c, top)), top);
  }

  /** The same, for the subtree alone. */
  lemma HangLocal(s: Shape, n: Node, x: Contact, left: bool, p: Node?)
    requires Distinct(s) && s.Br? && n !in Nodes(s)
    requires if left then s.left.Nil? else s.right.Nil?
    ensures Views(Hang(s, n, x, left), p) == Views(s, p) + HangFix(s, n, x, left, p)
  {
    var leaf := Br(Nil, n, x, 1, Nil);
    var wl := View(x, null, null, s.node, 1);
    var w := View(s.value, Root(s.left), Root(s.right), p, s.height);
    var w' := View(s.value, if left then n else Root(s.left), if left then Root(s.right) else n, p, s.height);
    assert Views(leaf, s.node) == map[] + map[] + map[n := wl];
    if left {
      ViewsKeys(s.right, s.node);
      MapHangLeft(Views(s.right, s.node), n, wl, s.node, w, w');
    } else {
      ViewsKeys(s.left, s.node);
      MapHangRight(Views(s.left, s.node), n, wl, s.node, w, w');
    }
  }

  lemma MapHangLeft(b: map<Node, View>, n: Node, wl: View, m: Node, w: View, w': View)
    requires n !in b && n != m
    ensures (map[] + map[] + map[n := wl]) + b + map[m := w'] == (map[] + b + map[m := w]) + map[n := wl, m := w']
  {
  }

  lemma MapHangRight(a: map<Node, View>, n: Node, wl: View, m: Node, w: View, w': View)
    requires n !in a && n != m
    ensures a + (map[] + map[] + map[n := wl]) + map[m := w'] == (a + map[] + map[m := w]) + map[n := wl, m := w']
  {
  }

  // ---------------------------------------------------------------------------------------
  // Overwriting the value of a node.

  /** Only the view of the node whose value changes is new. */
  lemma ValueViews(c: Ctx, s: Shape, x: Contact, top: Node?)
    requires Distinct(Plug(c, s)) && s.Br?
    ensures Distinct(Plug(c, WithValue(s, x)))
    ensures Agrees(Views(Plug(c, WithValue(s, x)), top),
                   Views(Plug(c, s), top) + RootFix(WithValue(s, x), HoleParent(c, top)))
  {
    var p := HoleParent(c, top);
    var t := WithValue(s, x);
    PlugDistinct(c, s, t);
    var a := Views(t, p);
    var b := Views(s, p) + RootFix(t, p);
    forall y | y in a ensures y in b && a[y] == b[y] {
    }
    OverlaySame(c, s, t, RootFix(t, p), top);
  }

  // ---------------------------------------------------------------------------------------
  // Splicing out a node with at most one child.

  /** Splicing out the root of `s` changes, besides dropping that root, only the view of the
      child that moves up (its parent) and of the node above the hole (its child there). */
  lemma SpliceViews(c: Ctx, s: Shape, top: Node?)
    requires Distinct(Plug(c, s)) && s.Br? && (s.left.Nil? || s.right.Nil?)
    ensures Distinct(Plug(c, OnlyChild(s)))
    ensures Agrees(Views(Plug(c, OnlyChild(s)), top),
                   Views(Plug(c, s), top)
                   + (RootFix(OnlyChild(s), HoleParent(c, top)) + HoleFix(c, Root(OnlyChild(s)), top)))
  {
    PlugDistinct(c, s, Nil);
    SpliceLocal(s, HoleParent(c, top));
    PlugDistinct(c, s, OnlyChild(s));
    Overlay(c, s, OnlyChild(s), RootFix(OnlyChild(s), HoleParent(c, top)), top);
  }

  lemma SpliceLocal(s: Shape, p: Node?)
    requires Distinct(s) && s.Br? && (s.left.Nil? || s.right.Nil?)
    ensures Nodes(OnlyChild(s)) <= Nodes(s) && Distinct(OnlyChild(s))
    ensures RootFix(OnlyChild(s), p).Keys <= Nodes(s)
    ensures Agrees(Views(OnlyChild(s), p), Views(s, p) + RootFix(OnlyChild(s), p))
  {
    var k := OnlyChild(s);
    ViewsKeys(s.left, s.node);
    ViewsKeys(s.right, s.node);
    Reparent(k, s.node, p);
    var a := Views(k, p);
    var b := Views(s, p) + RootFix(k, p);
    forall x | x in a ensures x in b && a[x] == b[x] {
      if x !in RootFix(k, p) {
        assert x in Views(k, s.node) && x != s.node;
      }
    }
  }
}
