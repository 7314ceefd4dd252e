/** Heap operations shared by the tree classes: the walk down a search path and the hanging of a
    new leaf. Each is proved against the ghost shape the heap holds. */
module HeapTrees {
  import opened Contacts
  import opened Shapes
  import opened SearchTrees
  import opened HeapViews

  /** The nodes reachable from `root` are those of `s`, each occurring once and holding the
      fields `s` gives it; the root has no parent. */
  ghost predicate Stores(root: Node?, s: Shape)
    reads Nodes(s)
  {
    ViewsKeys(s, null);
    root == Root(s) && Distinct(s) && HeapMatches(Views(s, null))
  }

  /** A node of a stored tree holds the fields its place in the shape gives it. */
  lemma NodeFields(root: Node?, s: Shape, ctx: Ctx, sub: Shape)
    requires Stores(root, s) && Plug(ctx, sub) == s && sub.Br?
    ensures sub.node in Nodes(s) && sub.node.value == sub.value && sub.node.height == sub.height
    ensures sub.node.left == Root(sub.left) && sub.node.right == Root(sub.right)
    ensures sub.node.parent == HoleParent(ctx, null)
  {
    RootView(ctx, sub, null);
    ViewsKeys(s, null);
    assert Holds(sub.node, Views(s, null)[sub.node]);
  }

  /** A fresh node on its own is a tree of one leaf. */
  lemma StoresLeaf(n: Node)
    requires n.left == null && n.right == null && n.parent == null && n.height == 1
    ensures Stores(n, Leaf(n, n.value))
  {
    ViewsKeys(Leaf(n, n.value), null);
    HeapMatchesOne(n, View(n.value, null, null, null, 1));
    assert Views(Leaf(n, n.value), null) == map[n := View(n.value, null, null, null, 1)];
  }

  /** The search loop: from the root, go left on a smaller name and right on a larger one, and
      stop at an equal name or where the child to go to is missing. */
  method Descend(root: Node, ghost s: Shape, k: string) returns (cur: Node, parent: Node?, ghost ctx: Ctx, ghost sub: Shape)
    requires Stores(root, s)
    ensures Stores(root, s)
    ensures Plug(ctx, sub) == s && sub.Br? && cur == sub.node && OnPath(ctx, k) && parent == HoleParent(ctx, null)
    ensures cur.value == sub.value && cur in Nodes(s)
    ensures k == sub.value.name || (if Less(k, sub.value.name) then sub.left.Nil? else sub.right.Nil?)
  {
    cur, parent := root, null;
    ctx, sub := Top, s;
    while true
      invariant Plug(ctx, sub) == s && sub.Br? && cur == sub.node && OnPath(ctx, k) && parent == HoleParent(ctx, null)
      invariant Stores(root, s)
      decreases Size(sub)
    {
      NodeFields(root, s, ctx, sub);
      if k == cur.value.name {
        PlugNodes(ctx, sub);
        return;
      } else if Less(k, cur.value.name) {
        if cur.left == null {
          PlugNodes(ctx, sub);
          return;
        }
        ctx, sub := Down(ctx, sub, true), sub.left;
        parent, cur := cur, cur.left;
      } else {
        if cur.right == null {
          PlugNodes(ctx, sub);
          return;
        }
        ctx, sub := Down(ctx, sub, false), sub.right;
        parent, cur := cur, cur.right;
      }
    }
  }

  /** The recursive in-order walk: the contacts of the subtree at `node` pushed after `acc`. */
  method Collect(node: Node?, ghost root: Node?, ghost s: Shape, ghost ctx: Ctx, ghost sub: Shape, acc: seq<Contact>)
    returns (r: seq<Contact>)
    requires Stores(root, s) && Plug(ctx, sub) == s && node == Root(sub)
    ensures Stores(root, s)
    ensures r == acc + InOrder(sub)
    decreases Size(sub)
  {
    if node == null {
      return acc;
    }
    NodeFields(root, s, ctx, sub);
    r := Collect(node.left, root, s, Down(ctx, sub, true), sub.left, acc);
    r := r + [node.value];
    r := Collect(node.right, root, s, Down(ctx, sub, false), sub.right, r);
  }

  /** `cur.left = leaf; leaf.parent = cur` (or the same on the right): the heap then holds the
      shape with the leaf in the hole below `cur`. */
  method LinkLeaf(root: Node?, ghost s: Shape, cur: Node, leaf: Node, left: bool, ghost ctx: Ctx, ghost sub: Shape)
    requires Stores(root, s) && Plug(ctx, sub) == s && sub.Br? && cur == sub.node
    requires if left then sub.left.Nil? else sub.right.Nil?
    requires leaf !in Nodes(s) && leaf.left == null && leaf.right == null && leaf.height == 1
    modifies cur, leaf
    ensures leaf.value == old(leaf.value)
    ensures Stores(root, Plug(Down(ctx, sub, left), Leaf(leaf, leaf.value)))
  {
    ghost var m: map<Node, View> := Views(s, null);
    ghost var p := HoleParent(ctx, null);
    assert cur != leaf && Holds(cur, View(sub.value, Root(sub.left), Root(sub.right), p, sub.height)) by {
      RootView(ctx, sub, null);
      PlugNodes(ctx, sub);
    }
    assert forall n :: n in m ==> allocated(n) && n != leaf by {
      NodesAllocated(s);
      ViewsKeys(s, null);
    }
    ghost var cw := View(sub.value, if left then leaf else Root(sub.left), if left then Root(sub.right) else leaf, p, sub.height);
    Attach(cur, leaf, left, cw, View(leaf.value, null, null, cur, 1));
    ghost var u: map<Node, View> := HangFix(sub, leaf, leaf.value, left, p);
    HeapMatchesHang(sub, leaf, leaf.value, left, p);
    assert cur in u && leaf in u;
    forall n | n in m && n !in u ensures unchanged(n) {
      assert n != cur && n != leaf;
    }
    HeapMatchesAfter(m, u);
    ghost var s' := Plug(Down(ctx, sub, left), Leaf(leaf, leaf.value));
    assert Stores(root, s') by {
      HangDistinct(ctx, sub, leaf, leaf.value, left);
      HangViews(ctx, sub, leaf, leaf.value, left, null);
      HeapMatchesAgrees(Views(s', null), m + u);
      PlugRootSame(ctx, sub, Leaf(leaf, leaf.value), left);
      ViewsKeys(s', null);
    }
  }

  /** Removes `node`, which has at most one child, from the tree: the parent's link to it (or
      the root) goes to that child, and the child's parent becomes `node`'s parent. */
  method Splice(root: Node?, ghost s: Shape, node: Node, parent: Node?, child: Node?, ghost ctx: Ctx, ghost sub: Shape)
    returns (newRoot: Node?)
    requires Stores(root, s) && Plug(ctx, sub) == s && sub.Br? && node == sub.node
    requires sub.left.Nil? || sub.right.Nil?
    requires parent == HoleParent(ctx, null) && child == Root(OnlyChild(sub))
    modifies parent, child
    ensures newRoot == (if parent == null then child else root)
    ensures Stores(newRoot, Plug(ctx, OnlyChild(sub)))
  {
    ghost var m: map<Node, View> := Views(s, null);
    ghost var k := OnlyChild(sub);
    ghost var left := !sub.left.Nil?;
    ghost var cfix: map<Node, View> := RootFix(k, parent);
    ghost var pfix: map<Node, View> := HoleFix(ctx, child, null);
    assert Plug(Down(ctx, sub, left), k) == s;
    assert child != null ==> (child != node && child != parent && child in m && child in cfix
      && child.value == cfix[child].value && child.left == cfix[child].left && child.right == cfix[child].right
      && child.height == cfix[child].height && cfix[child].parent == parent) by {
      PlugDistinct(ctx, sub, Nil);
      if child != null {
        NodeFields(root, s, Down(ctx, sub, left), k);
        ViewsKeys(s, null);
      }
    }
    assert parent != null ==> (!ctx.Top? && parent == ctx.node && parent != node && parent in m && parent in pfix
      && parent.value == pfix[parent].value && parent.parent == pfix[parent].parent && parent.height == pfix[parent].height
      && (ctx.InLeft? ==> parent.left == node && pfix[parent].left == child && parent.right == pfix[parent].right)
      && (ctx.InRight? ==> parent.left != node && pfix[parent].right == child && parent.left == pfix[parent].left)) by {
      PlugDistinct(ctx, sub, Nil);
      if parent != null {
        HoleView(ctx, sub, null);
        assert Holds(parent, m[parent]);
      }
    }
    assert forall n :: n in m ==> allocated(n) by {
      NodesAllocated(s);
      ViewsKeys(s, null);
    }
    Relink(node, parent, child, pfix, cfix);
    newRoot := if parent == null then child else root;
    ghost var u: map<Node, View> := cfix + pfix;
    HeapMatchesRootFix(k, parent);
    HeapMatchesHoleFix(ctx, child, null);
    HeapMatchesUnion(cfix, pfix);
    assert (parent != null ==> parent in u) && (child != null ==> child in u);
    forall n | n in m && n !in u ensures unchanged(n) {
      assert n != parent && n != child;
    }
    HeapMatchesAfter(m, u);
    ghost var s' := Plug(ctx, k);
    assert Stores(newRoot, s') by {
      SpliceViews(ctx, sub, null);
      HeapMatchesAgrees(Views(s', null), m + u);
      ViewsKeys(s', null);
      if !ctx.Top? {
        PlugRoot(ctx, sub, k);
      }
    }
  }

  /** The writes of `Splice`: `parent`'s link to `node` goes to `child`, and `child`'s parent
      becomes `parent`; `pfix` and `cfix` give the fields the two then hold. */
  method Relink(node: Node, parent: Node?, child: Node?, ghost pfix: map<Node, View>, ghost cfix: map<Node, View>)
    requires parent != null ==> (parent in pfix && parent.value == pfix[parent].value
      && parent.parent == pfix[parent].parent && parent.height == pfix[parent].height
      && (parent.left == node ==> pfix[parent].left == child && parent.right == pfix[parent].right)
      && (parent.left != node ==> pfix[parent].right == child && parent.left == pfix[parent].left))
    requires child != null ==> (child != parent && child in cfix && child.value == cfix[child].value
      && child.left == cfix[child].left && child.right == cfix[child].right
      && child.height == cfix[child].height && cfix[child].parent == parent)
    modifies parent, child
    ensures parent != null ==> Holds(parent, pfix[parent])
    ensures child != null ==> Holds(child, cfix[child])
  {
    if parent == null {
    } else if parent.left == node {
      parent.left := child;
    } else {
      parent.right := child;
    }
    if child != null {
      child.parent := parent;
    }
  }

  /** The writes of `LinkLeaf`: `cur`'s child on the given side becomes `leaf`, and `leaf`'s
      parent becomes `cur`; `cw` and `lw` give the fields the two then hold. */
  method Attach(cur: Node, leaf: Node, left: bool, ghost cw: View, ghost lw: View)
    requires cur != leaf
    requires cur.value == cw.value && cur.parent == cw.parent && cur.height == cw.height
    requires if left then cw.left == leaf && cur.right == cw.right else cw.right == leaf && cur.left == cw.left
    requires leaf.value == lw.value && leaf.left == lw.left && leaf.right == lw.right
    requires leaf.height == lw.height && lw.parent == cur
    modifies cur, leaf
    ensures Holds(cur, cw) && Holds(leaf, lw)
  {
    if left {
      cur.left := leaf;
    } else {
      cur.right := leaf;
    }
    leaf.parent := cur;
  }

  /** `node.value = x`: the heap then holds the shape with `x` at `node`. */
  method SetValue(root: Node?, ghost s: Shape, node: Node, x: Contact, ghost ctx: Ctx, ghost sub: Shape)
    requires Stores(root, s) && Plug(ctx, sub) == s && sub.Br? && node == sub.node
    modifies node
    ensures Stores(root, Plug(ctx, WithValue(sub, x)))
  {
    ghost var m: map<Node, View> := Views(s, null);
    ghost var p := HoleParent(ctx, null);
    ghost var u: map<Node, View> := RootFix(WithValue(sub, x), p);
    assert Holds(node, View(sub.value, Root(sub.left), Root(sub.right), p, sub.height)) by {
      RootView(ctx, sub, null);
    }
    assert forall n :: n in m ==> allocated(n) by {
      NodesAllocated(s);
      ViewsKeys(s, null);
    }
    node.value := x;
    HeapMatchesRootFix(WithValue(sub, x), p);
    assert node in u;
    forall n | n in m && n !in u ensures unchanged(n) {
      assert n != node;
    }
    HeapMatchesAfter(m, u);
    ghost var s' := Plug(ctx, WithValue(sub, x));
    assert Stores(root, s') by {
      ValueViews(ctx, sub, x, null);
      HeapMatchesAgrees(Views(s', null), m + u);
      ViewsKeys(s', null);
      if !ctx.Top? {
        PlugRoot(ctx, sub, WithValue(sub, x));
      }
    }
  }

  /** The successor search: from the right child of `node`, follow left children to the end,
      keeping the node above the one reached. */
  method FindMin(root: Node?, ghost s: Shape, node: Node, ghost ctx: Ctx, ghost sub: Shape)
    returns (succParent: Node, succ: Node, ghost spine: Ctx, ghost min: Shape)
    requires Stores(root, s) && Plug(ctx, sub) == s && sub.Br? && node == sub.node && sub.right.Br?
    ensures Stores(root, s)
    ensures Plug(spine, min) == sub.right && LeftSpine(spine) && min.Br? && min.left.Nil?
    ensures succ == min.node && succParent == HoleParent(spine, node) && succ != node
    ensures succ.value == min.value && succ.right == Root(min.right)
    ensures succParent in Nodes(s) && succ in Nodes(s) && (succ.right != null ==> succ.right in Nodes(s))
  {
    ghost var o := Down(ctx, sub, false);
    NodeFields(root, s, ctx, sub);
    succParent, succ := node, node.right;
    spine, min := Top, sub.right;
    PlugCat(spine, o, min, null);
    NodeFields(root, s, Cat(spine, o), min);
    while succ.left != null
      invariant Plug(spine, min) == sub.right && LeftSpine(spine) && min.Br? && succ == min.node
      invariant succParent == HoleParent(spine, node) && Plug(Cat(spine, o), min) == s
      invariant Stores(root, s)
      invariant Holds(succ, View(min.value, Root(min.left), Root(min.right), succParent, min.height))
      decreases Size(min)
    {
      ghost var spine', min' := Down(spine, min, true), min.left;
      PlugCat(spine', o, min', null);
      NodeFields(root, s, Cat(spine', o), min');
      succParent, succ := succ, succ.left;
      spine, min := spine', min';
    }
    assert succ != node by {
      PlugDistinct(ctx, sub, Nil);
      PlugNodes(spine, min);
    }
    NodeFields(root, s, Cat(spine, o), min);
    PlugNodes(Cat(spine, o), min);
    PlugNodes(InRight(min.left, min.node, min.value, min.height, Cat(spine, o)), min.right);
    if !spine.Top? {
      PlugNodes(ctx, sub);
      PlugNodes(spine, min);
      PlugNodes(o, sub.right);
    }
  }

  /** The successor of a node with two children ends a left spine below its right child: with
      the successor's value copied into the node, splicing the successor out removes the root of
      `sub`. */
  lemma SuccessorSplice(ctx: Ctx, sub: Shape, spine: Ctx, min: Shape)
    requires sub.Br? && sub.left.Br? && Plug(spine, min) == sub.right && LeftSpine(spine)
    requires min.Br? && min.left.Nil?
    ensures Plug(Cat(spine, InRight(sub.left, sub.node, min.value, sub.height, ctx)), min)
      == Plug(ctx, WithValue(sub, min.value))
    ensures Plug(Cat(spine, InRight(sub.left, sub.node, min.value, sub.height, ctx)), OnlyChild(min))
      == Plug(ctx, RemoveRoot(sub))
  {
    var o := InRight(sub.left, sub.node, min.value, sub.height, ctx);
    PlugCat(spine, o, min, null);
    PlugCat(spine, o, OnlyChild(min), null);
    PlugMin(spine, min);
  }

  /** Unlinks the node found by a search: a leaf or a node with one child is spliced out; a node
      with two children takes its in-order successor's value and the successor is spliced out. */
  method Remove(root: Node?, ghost s: Shape, cur: Node, parent: Node?, ghost ctx: Ctx, ghost sub: Shape)
    returns (newRoot: Node?)
    requires Stores(root, s) && Plug(ctx, sub) == s && sub.Br? && cur == sub.node
    requires parent == HoleParent(ctx, null)
    modifies Nodes(s)
    ensures Stores(newRoot, Plug(ctx, RemoveRoot(sub)))
  {
    assert cur.left == Root(sub.left) && cur.right == Root(sub.right)
      && (parent != null ==> parent in Nodes(s))
      && (cur.left != null ==> cur.left in Nodes(s)) && (cur.right != null ==> cur.right in Nodes(s))
      && cur in Nodes(s) by {
      NodeFields(root, s, ctx, sub);
      PlugNodes(ctx, sub);
      PlugNodes(Down(ctx, sub, true), sub.left);
      PlugNodes(Down(ctx, sub, false), sub.right);
    }
    if cur.left == null || cur.right == null {
      var child := if cur.left == null then cur.right else cur.left;
      assert RemoveRoot(sub) == OnlyChild(sub);
      newRoot := Splice(root, s, cur, parent, child, ctx, sub);
    } else {
      var _, _, _ := SpliceSuccessor(root, s, cur, ctx, sub);
      newRoot := root;
    }
  }

  /** The two-children case of a removal: `node` takes the value of its in-order successor
      (the leftmost node of its right subtree), and the successor gives way to its right child.
      The successor's former parent is returned, with the path `spine` from it down to the
      successor's place. */
  method SpliceSuccessor(root: Node?, ghost s: Shape, node: Node, ghost ctx: Ctx, ghost sub: Shape)
    returns (succParent: Node, ghost spine: Ctx, ghost min: Shape)
    requires Stores(root, s) && Plug(ctx, sub) == s && sub.Br? && node == sub.node
    requires sub.left.Br? && sub.right.Br?
    modifies Nodes(s)
    ensures Plug(spine, min) == sub.right && LeftSpine(spine) && min.Br? && min.left.Nil?
    ensures var c := Cat(spine, InRight(sub.left, sub.node, min.value, sub.height, ctx));
      && !c.Top? && succParent == c.node
      && Plug(c, OnlyChild(min)) == Plug(ctx, RemoveRoot(sub))
      && Nodes(Plug(c, OnlyChild(min))) <= Nodes(s)
      && Stores(root, Plug(c, OnlyChild(min)))
  {
    assert node in Nodes(s) by {
      NodeFields(root, s, ctx, sub);
    }
    var succ;
    succParent, succ, spine, min := FindMin(root, s, node, ctx, sub);
    SetValue(root, s, node, succ.value, ctx, sub);
    ghost var outer := InRight(sub.left, node, min.value, sub.height, ctx);
    ghost var c := Cat(spine, outer);
    SuccessorSplice(ctx, sub, spine, min);
    PlugCat(spine, outer, min, null);
    var _ := Splice(root, Plug(ctx, WithValue(sub, min.value)), succ, succParent, succ.right, c, min);
    assert Nodes(Plug(c, OnlyChild(min))) <= Nodes(s) by {
      PlugNodes(c, OnlyChild(min));
      PlugNodes(c, min);
      PlugNodes(ctx, WithValue(sub, min.value));
      PlugNodes(ctx, sub);
    }
  }
}
