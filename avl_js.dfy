/** `backend/data-structures/AVLTree.js`: the AVL tree of contacts behind the Express backend.
    Its rotations leave the link from the pivot's former parent alone: the walk up of `delete`
    redirects it to the node `balance` returns, the walk up of `insert` only does so at the
    root. The insertion here is the one that redirects like `delete`; the insertion as written
    is `AvlArena.Insert`. */
module AvlJs {
  import opened Contacts
  import opened Shapes
  import opened SearchTrees
  import opened TimeViews
  import opened HeapViews
  import opened HeapTrees
  import opened AvlShapes
  import opened AvlHeap
  import opened AvlBalance

  /** The stale link above a subtree that points to the subtree's own root is no stale link:
      the heap then holds the whole tree, and conversely. */
  lemma StoresButRoot(c: Ctx, t: Shape)
    requires t.Br?
    ensures StoresBut(c, t, t.node) <==> Stores(Root(Plug(c, t)), Plug(c, t))
  {
    var w := Plug(c, t);
    var v: map<Node, View> := Views(w, null);
    var h: map<Node, View> := HoleFix(c, t.node, null);
    ViewsKeys(w, null);
    PlugNodes(c, t);
    HoleFixKeys(c, t.node, null);
    if Distinct(w) {
      HoleAgrees(c, t, t.node, null);
      assert Agrees(v, v + h) && Agrees(v + h, v);
      if HeapMatches(v) {
        HeapMatchesAgrees(v + h, v);
      }
      if HeapMatches(v + h) {
        HeapMatchesAgrees(v, v + h);
      }
    }
  }

  /** At the root there is no link above the subtree to be stale. */
  lemma StoresButTop(t: Shape, stale: Node)
    requires StoresBut(Top, t, stale)
    ensures Stores(Root(t), t)
  {
    var v: map<Node, View> := Views(t, null);
    ViewsKeys(t, null);
    assert Agrees(v, v + HoleFix(Top, stale, null));
    HeapMatchesAgrees(v, v + HoleFix(Top, stale, null));
  }

  /** With a stale link above the subtree `t`, the root of `t` has the parent its place gives
      it, and the node above the hole links to the stale node exactly on the side of the hole. */
  lemma StaleFields(c: Ctx, t: Shape, stale: Node)
    requires StoresBut(c, t, stale) && t.Br? && stale in Nodes(t)
    ensures t.node.parent == HoleParent(c, null)
    ensures !c.Top? ==> c.node in Nodes(Plug(c, t)) && (c.node.left == stale <==> c.InLeft?)
  {
    var m: map<Node, View> := Views(Plug(c, t), null) + HoleFix(c, stale, null);
    PlugNodes(c, t);
    PlugDistinct(c, t, t);
    RootView(c, t, null);
    assert t.node !in HoleFix(c, stale, null);
    assert Holds(t.node, m[t.node]);
    if !c.Top? {
      assert Holds(c.node, m[c.node]);
      match c
      case InLeft(_, _, _, _, _) =>
      case InRight(l, n, v, h, up) =>
        PlugDistinct(up, Br(l, n, v, h, t), Nil);
        assert Root(l) != stale;
    }
  }

  /** `p.left = x` (or `p.right = x`): the link above the hole, stale until now, goes to the
      root `x` of the subtree that hangs there. */
  method Link(p: Node, left: bool, x: Node, ghost c: Ctx, ghost t: Shape, ghost stale: Node)
    requires StoresBut(c, t, stale) && t.Br? && x == t.node && !c.Top? && p == c.node && left == c.InLeft?
    modifies p
    ensures Stores(Root(Plug(c, t)), Plug(c, t))
  {
    ghost var w := Plug(c, t);
    ghost var m: map<Node, View> := Views(w, null) + HoleFix(c, stale, null);
    ghost var u: map<Node, View> := HoleFix(c, x, null);
    assert p in m && m[p] == HoleFix(c, stale, null)[p] && HeapMatches(m);
    assert Holds(p, m[p]);
    if left {
      p.left := x;
    } else {
      p.right := x;
    }
    assert p in u && Holds(p, u[p]);
    forall n | n in m + u
      ensures Holds(n, (m + u)[n])
    {
      if n != p {
        assert old(Holds(n, m[n]));
      }
    }
    StaleReplaced(c, t, stale);
    HeapMatchesAgrees(Views(w, null), m + u);
  }

  /** Once the stale link is replaced by one to the subtree's root, the views of the whole
      tree are all in place. */
  lemma StaleReplaced(c: Ctx, t: Shape, stale: Node)
    requires Distinct(Plug(c, t)) && t.Br?
    ensures var v := Views(Plug(c, t), null);
      Agrees(v, v + HoleFix(c, stale, null) + HoleFix(c, t.node, null))
    ensures Stores(Root(Plug(c, t)), Plug(c, t)) <==> HeapMatches(Views(Plug(c, t), null))
  {
    var v: map<Node, View> := Views(Plug(c, t), null);
    HoleAgrees(c, t, stale, null);
    ViewsKeys(Plug(c, t), null);
  }

  class AVLTree {
    var root: Node?
    var size: int
    /** The tree reachable from `root`. */
    ghost var shape: Shape

    ghost predicate Valid()
      reads this, Nodes(shape)
    {
      Stores(root, shape) && Ordered(shape) && Balanced(shape) && size == Shapes.Size(shape)
    }

    constructor ()
      ensures Valid() && shape == Nil
    {
      root := null;
      size := 0;
      shape := Nil;
    }

    /** `rotateRight(y)`: the left child `x` of `y` takes its place; `y`'s former parent still
        links to `y`. */
    method RotateRight(y: Node, ghost at: Site) returns (x: Node)
      requires Stores(Root(at.Whole()), at.Whole()) && at.sub.Br? && at.sub.left.Br? && y == at.sub.node
      modifies Nodes(at.Whole())
      ensures StoresBut(at.ctx, RotR(at.sub), y)
      ensures x == Root(RotR(at.sub))
    {
      ghost var s, ctx := at.sub, at.ctx;
      NodesAllocated(at.Whole());
      RightNodes(ctx, s);
      ParentFields(at);
      NodeFields(Root(at.Whole()), at.Whole(), ctx, s);
      NodeFields(Root(at.Whole()), at.Whole(), Down(ctx, s, true), s.left);
      x := y.left;
      var t2 := x.right;
      x.right := y;
      y.left := t2;
      if t2 != null {
        t2.parent := y;
      }
      x.parent := y.parent;
      y.parent := x;
      UpdateHeight(y);
      UpdateHeight(x);
      RotatedRight(at, false);
    }

    /** `rotateLeft(x)`: the right child `y` of `x` takes its place; `x`'s former parent still
        links to `x`. */
    method RotateLeft(x: Node, ghost at: Site) returns (y: Node)
      requires Stores(Root(at.Whole()), at.Whole()) && at.sub.Br? && at.sub.right.Br? && x == at.sub.node
      modifies Nodes(at.Whole())
      ensures StoresBut(at.ctx, RotL(at.sub), x)
      ensures y == Root(RotL(at.sub))
    {
      ghost var s, ctx := at.sub, at.ctx;
      NodesAllocated(at.Whole());
      LeftNodes(ctx, s);
      ParentFields(at);
      NodeFields(Root(at.Whole()), at.Whole(), ctx, s);
      NodeFields(Root(at.Whole()), at.Whole(), Down(ctx, s, false), s.right);
      y := x.right;
      var t2 := y.left;
      y.left := x;
      x.right := t2;
      if t2 != null {
        t2.parent := x;
      }
      y.parent := x.parent;
      x.parent := y;
      UpdateHeight(x);
      UpdateHeight(y);
      RotatedLeft(at, false);
    }

    /** `balance(node)`: recompute the height of `node`, then rotate once or twice when its
        balance factor is beyond one either way. The result is the root of the rebalanced
        subtree; the parent of `node` still links to `node`. */
    method Balance(node: Node, ghost at: Site) returns (r: Node)
      requires Stores(Root(at.Whole()), at.Whole()) && at.sub.Br? && node == at.sub.node
      modifies Nodes(at.Whole())
      ensures StoresBut(at.ctx, Bal(at.sub), node)
      ensures r == Root(Bal(at.sub))
    {
      NodesAllocated(at.Whole());
      PlugNodes(at.ctx, at.sub);
      PlugNodes(at.ctx, Fix(at.sub));
      UpdateHeight(node);
      HeightFixed(at);
      r := RotateIfUnbalanced(node, Site(at.ctx, Fix(at.sub)));
    }

    /** The rotations of `balance`, on a subtree whose root height is already up to date. */
    method RotateIfUnbalanced(node: Node, ghost at: Site) returns (r: Node)
      requires Stores(Root(at.Whole()), at.Whole()) && at.sub.Br? && node == at.sub.node
      requires at.sub.height == 1 + Max(H(at.sub.left), H(at.sub.right))
      modifies Nodes(at.Whole())
      ensures StoresBut(at.ctx, Bal(at.sub), node)
      ensures r == Root(Bal(at.sub))
    {
      ghost var ctx, f := at.ctx, at.sub;
      ghost var top := Root(at.Whole());
      BalanceSites(at);
      NodeFields(top, at.Whole(), ctx, f);
      HeightsOf(top, ctx, f);
      var balanceFactor := GetBalanceFactor(node);
      if balanceFactor > 1 {
        HeightsOf(top, Down(ctx, f, true), f.left);
      } else if balanceFactor < -1 {
        HeightsOf(top, Down(ctx, f, false), f.right);
      }
      if balanceFactor > 1 && GetBalanceFactor(node.left) >= 0 {
        r := RotateRight(node, at);
        return;
      }
      if balanceFactor > 1 && GetBalanceFactor(node.left) < 0 {
        r := RotateLeftRight(node, at);
        return;
      }
      if balanceFactor < -1 && GetBalanceFactor(node.right) <= 0 {
        r := RotateLeft(node, at);
        return;
      }
      if balanceFactor < -1 && GetBalanceFactor(node.right) > 0 {
        r := RotateRightLeft(node, at);
        return;
      }
      r := node;
      StoresButRoot(ctx, f);
    }

    /** `node.left = this.rotateLeft(node.left)`, then `rotateRight(node)`. */
    method RotateLeftRight(node: Node, ghost at: Site) returns (r: Node)
      requires Stores(Root(at.Whole()), at.Whole()) && at.sub.Br? && node == at.sub.node
      requires at.sub.left.Br? && at.sub.left.right.Br?
      modifies Nodes(at.Whole())
      ensures var f := at.sub;
        var g := Br(RotL(f.left), f.node, f.value, f.height, f.right);
        StoresBut(at.ctx, RotR(g), node) && r == Root(RotR(g))
    {
      ghost var ctx, f := at.ctx, at.sub;
      ghost var g := Br(RotL(f.left), f.node, f.value, f.height, f.right);
      assert node.left == Root(f.left) && node in Nodes(at.Whole()) && Nodes(Plug(ctx, g)) == Nodes(at.Whole()) by {
        NodeFields(Root(at.Whole()), at.Whole(), ctx, f);
        PlugNodes(ctx, g);
        PlugNodes(ctx, f);
      }
      var y := RotateLeft(node.left, Site(Down(ctx, f, true), f.left));
      Link(node, true, y, Down(ctx, f, true), RotL(f.left), f.left.node);
      r := RotateRight(node, Site(ctx, g));
    }

    /** `node.right = this.rotateRight(node.right)`, then `rotateLeft(node)`. */
    method RotateRightLeft(node: Node, ghost at: Site) returns (r: Node)
      requires Stores(Root(at.Whole()), at.Whole()) && at.sub.Br? && node == at.sub.node
      requires at.sub.right.Br? && at.sub.right.left.Br?
      modifies Nodes(at.Whole())
      ensures var f := at.sub;
        var g := Br(f.left, f.node, f.value, f.height, RotR(f.right));
        StoresBut(at.ctx, RotL(g), node) && r == Root(RotL(g))
    {
      ghost var ctx, f := at.ctx, at.sub;
      ghost var g := Br(f.left, f.node, f.value, f.height, RotR(f.right));
      assert node.right == Root(f.right) && node in Nodes(at.Whole()) && Nodes(Plug(ctx, g)) == Nodes(at.Whole()) by {
        NodeFields(Root(at.Whole()), at.Whole(), ctx, f);
        PlugNodes(ctx, g);
        PlugNodes(ctx, f);
      }
      var x := RotateRight(node.right, Site(Down(ctx, f, false), f.right));
      Link(node, false, x, Down(ctx, f, false), RotR(f.right), f.right.node);
      r := RotateLeft(node, Site(ctx, g));
    }

    /** The walk up of `delete`: `balance` at `current`, redirect the link to `current` (or
        the root) to the node `balance` returned, then go on at that node's parent. The walk
        starts at the node above the hole `c` in which `t` hangs. */
    method Rebalance(start: Node, ghost c: Ctx, ghost t: Shape)
      requires Stores(root, Plug(c, t)) && !c.Top? && start == c.node
      modifies this, Nodes(Plug(c, t))
      ensures Stores(root, Climb(c, t))
      ensures size == old(size) && shape == old(shape)
    {
      ghost var target, all := Climb(c, t), Nodes(Plug(c, t));
      ghost var ctx, below := c, t;
      var current: Node? := start;
      while current != null
        invariant Stores(root, Plug(ctx, below)) && current == HoleParent(ctx, null)
        invariant Climb(ctx, below) == target && Nodes(Plug(ctx, below)) == all
        invariant size == old(size) && shape == old(shape)
        decreases ctx
      {
        ghost var up, sub := ctx.up, Lift(ctx, below);
        assert Nodes(Plug(up, sub)) == all && Nodes(Plug(up, Bal(sub))) == all by {
          PlugNodes(up, sub);
          PlugNodes(up, Bal(sub));
        }
        var balancedNode := Balance(current, Site(up, sub));
        assert current in Nodes(Bal(sub)) && ((balancedNode == current || !up.Top?) ==> root == Root(Plug(up, Bal(sub)))) by {
          if !up.Top? {
            PlugRoot(up, sub, Bal(sub));
          }
        }
        Redirect(current, balancedNode, up, Bal(sub));
        assert balancedNode.parent == HoleParent(up, null) by {
          NodeFields(root, Plug(up, Bal(sub)), up, Bal(sub));
        }
        current := balancedNode.parent;
        ctx, below := up, Bal(sub);
      }
    }

    /** The step of the walk of `delete` after `balance(current)` returned `balancedNode`: when
        they differ, the new subtree root becomes the root of the tree if it has no parent, and
        otherwise replaces `current` as its parent's child. */
    method Redirect(current: Node, balancedNode: Node, ghost up: Ctx, ghost t: Shape)
      requires StoresBut(up, t, current) && t.Br? && balancedNode == t.node && current in Nodes(t)
      requires (balancedNode == current || !up.Top?) ==> root == Root(Plug(up, t))
      modifies this, Nodes(Plug(up, t))
      ensures Stores(root, Plug(up, t))
      ensures size == old(size) && shape == old(shape)
    {
      StaleFields(up, t, current);
      if balancedNode != current {
        if balancedNode.parent == null {
          StoresButTop(t, current);
          root := balancedNode;
        } else if balancedNode.parent.left == current {
          Link(balancedNode.parent, true, balancedNode, up, t, current);
        } else {
          Link(balancedNode.parent, false, balancedNode, up, t, current);
        }
      } else {
        StoresButRoot(up, t);
      }
    }

    /** `insert(contact)` with its walk up redirecting links as `delete`'s does. `None` stands
        for an argument that is not a `Contact` instance, which is refused; a name already on
        the search path is refused too. Otherwise the contact becomes a leaf at the end of the
        search path and every node from its parent up to the root is rebalanced. */
    method Insert(x: Option<Contact>) returns (ok: bool, ghost n: Node?)
      requires Valid()
      modifies this, Nodes(shape)
      ensures Valid()
      ensures x.None? ==> !ok && shape == old(shape)
      ensures x.Some? ==> n != null && fresh(n) && shape == AvlInsert(old(shape), n, x.value)
      ensures x.Some? ==> (ok <==> Lookup(old(shape), x.value.name).None?)
      ensures size == old(size) + (if ok then 1 else 0)
    {
      if x.None? {
        return false, null;
      }
      var contact := x.value;
      NodesAllocated(shape);
      var newNode := new Node(contact);
      n := newNode;
      if root == null {
        root := newNode;
        size := size + 1;
        shape := Leaf(newNode, contact);
        StoresLeaf(newNode);
        return true, n;
      }
      var cur, _, ctx, sub := Descend(root, shape, contact.name);
      if contact.name == cur.value.name {
        assert Lookup(shape, contact.name).Some? by {
          PlugLookup(ctx, sub, contact.name);
        }
        return false, n;
      }
      ghost var s := shape;
      assert Lookup(s, contact.name).None? by {
        InsertClimb(ctx, sub, newNode, contact);
      }
      InsertBelow(cur, newNode, Less(contact.name, cur.value.name), ctx, sub);
      AvlInsertBalanced(s, newNode, contact);
      size := size + 1;
      shape := AvlInsert(s, newNode, contact);
      return true, n;
    }

    /** The rest of `insert` once the search has ended below `cur` without meeting the name:
        the result is the AVL insertion into the tree. */
    method InsertBelow(cur: Node, newNode: Node, left: bool, ghost ctx: Ctx, ghost sub: Shape)
      requires sub.Br? && cur == sub.node && Stores(root, Plug(ctx, sub)) && Ordered(Plug(ctx, sub))
      requires OnPath(ctx, newNode.value.name) && newNode.value.name != sub.value.name
      requires left == Less(newNode.value.name, sub.value.name)
      requires if left then sub.left.Nil? else sub.right.Nil?
      requires newNode !in Nodes(Plug(ctx, sub)) && newNode.left == null && newNode.right == null && newNode.height == 1
      modifies this, Nodes(Plug(ctx, sub)), newNode
      ensures var s, x := Plug(ctx, sub), old(newNode.value);
        Stores(root, AvlInsert(s, newNode, x)) && Ordered(AvlInsert(s, newNode, x))
        && Shapes.Size(AvlInsert(s, newNode, x)) == Shapes.Size(s) + 1
      ensures size == old(size) && shape == old(shape)
    {
      ghost var s, x := Plug(ctx, sub), newNode.value;
      assert Climb(Down(ctx, sub, left), Leaf(newNode, x)) == AvlInsert(s, newNode, x) by {
        InsertClimb(ctx, sub, newNode, x);
      }
      assert Ordered(AvlInsert(s, newNode, x)) && Shapes.Size(AvlInsert(s, newNode, x)) == Shapes.Size(s) + 1 by {
        InsertClimb(ctx, sub, newNode, x);
        AvlInsertContent(s, newNode, x);
      }
      Hang(cur, newNode, left, ctx, sub);
    }

    /** `currentNode.left = newNode; newNode.parent = currentNode` (or on the right), then the
        walk up from `currentNode`. */
    method Hang(cur: Node, newNode: Node, left: bool, ghost ctx: Ctx, ghost sub: Shape)
      requires Stores(root, Plug(ctx, sub)) && sub.Br? && cur == sub.node
      requires if left then sub.left.Nil? else sub.right.Nil?
      requires newNode !in Nodes(Plug(ctx, sub)) && newNode.left == null && newNode.right == null && newNode.height == 1
      modifies this, Nodes(Plug(ctx, sub)), newNode
      ensures Stores(root, Climb(Down(ctx, sub, left), Leaf(newNode, old(newNode.value))))
      ensures size == old(size) && shape == old(shape)
    {
      ghost var c, t := Down(ctx, sub, left), Leaf(newNode, newNode.value);
      assert cur in Nodes(Plug(ctx, sub)) && Nodes(Plug(c, t)) <= Nodes(Plug(ctx, sub)) + {newNode} by {
        PlugNodes(c, t);
        PlugNodes(ctx, sub);
      }
      LinkLeaf(root, Plug(ctx, sub), cur, newNode, left, ctx, sub);
      Rebalance(cur, c, t);
    }

    /** `delete(name)`: the contact removed, or `None` (`null`) when no node on the search path
        holds the name. A leaf is unlinked, a node with one child is replaced by it, and a node
        with two children takes its in-order successor's value while the successor is spliced
        out; in every case every node from the parent of the removed node up to the root is
        rebalanced. */
    method Delete(k: string) returns (r: Option<Contact>)
      requires Valid()
      modifies this, Nodes(shape)
      ensures Valid()
      ensures r == Lookup(old(shape), k)
      ensures shape == AvlDelete(old(shape), k)
      ensures size == old(size) - (if r.Some? then 1 else 0)
    {
      if root == null {
        return None;
      }
      ghost var s := shape;
      var cur, parent, ctx, sub := Descend(root, shape, k);
      DeleteFound(ctx, sub, k);
      if k != cur.value.name {
        return None;
      }
      r := Some(cur.value);
      RemoveFound(cur, parent, ctx, sub);
      AvlDeleteBalanced(s, k);
      size := size - 1;
      shape := AvlDelete(s, k);
    }

    /** The rest of `delete` once the search has found `cur`: the AVL deletion of its name. */
    method RemoveFound(cur: Node, parent: Node?, ghost ctx: Ctx, ghost sub: Shape)
      requires sub.Br? && cur == sub.node && parent == HoleParent(ctx, null)
      requires Stores(root, Plug(ctx, sub)) && OnPath(ctx, sub.value.name)
      modifies this, Nodes(Plug(ctx, sub))
      ensures Stores(root, Del(Plug(ctx, sub), sub.value.name))
      ensures size == old(size) && shape == old(shape)
    {
      assert cur.left == Root(sub.left) && cur.right == Root(sub.right) by {
        NodeFields(root, Plug(ctx, sub), ctx, sub);
      }
      if cur.left == null || cur.right == null {
        SpliceOut(cur, parent, ctx, sub);
        assert Climb(ctx, OnlyChild(sub)) == Del(Plug(ctx, sub), sub.value.name) by {
          DeleteClimb(ctx, sub, sub.value.name);
        }
      } else {
        var spine, min := Succeed(cur, ctx, sub);
        assert Climb(Cat(spine, InRight(sub.left, sub.node, min.value, sub.height, ctx)), OnlyChild(min))
          == Del(Plug(ctx, sub), sub.value.name) by {
          SuccessorClimb(ctx, sub, sub.value.name, spine, min);
        }
      }
    }

    /** Cases 1 and 2 of `delete`: the parent's link to `cur` (or the root) goes to its only
        child, or to nothing for a leaf, and the walk up starts at that parent. */
    method SpliceOut(cur: Node, parent: Node?, ghost ctx: Ctx, ghost sub: Shape)
      requires sub.Br? && cur == sub.node && parent == HoleParent(ctx, null) && Stores(root, Plug(ctx, sub))
      requires sub.left.Nil? || sub.right.Nil?
      modifies this, Nodes(Plug(ctx, sub))
      ensures Stores(root, Climb(ctx, OnlyChild(sub)))
      ensures size == old(size) && shape == old(shape)
    {
      var child := if cur.left == null then cur.right else cur.left;
      assert child == Root(OnlyChild(sub)) && Nodes(Plug(ctx, OnlyChild(sub))) <= Nodes(Plug(ctx, sub))
        && (parent != null ==> parent in Nodes(Plug(ctx, sub))) && (child != null ==> child in Nodes(Plug(ctx, sub))) by {
        NodeFields(root, Plug(ctx, sub), ctx, sub);
        PlugNodes(ctx, sub);
        PlugNodes(ctx, OnlyChild(sub));
      }
      root := Splice(root, Plug(ctx, sub), cur, parent, child, ctx, sub);
      if parent != null {
        Rebalance(parent, ctx, OnlyChild(sub));
      }
    }

    /** Case 3 of `delete`: the successor splice followed by the walk up from the successor's
        former parent. */
    method Succeed(cur: Node, ghost ctx: Ctx, ghost sub: Shape) returns (ghost spine: Ctx, ghost min: Shape)
      requires sub.Br? && sub.left.Br? && sub.right.Br? && cur == sub.node
      requires Stores(root, Plug(ctx, sub))
      modifies this, Nodes(Plug(ctx, sub))
      ensures Plug(spine, min) == sub.right && LeftSpine(spine) && min.Br? && min.left.Nil?
      ensures Stores(root, Climb(Cat(spine, InRight(sub.left, sub.node, min.value, sub.height, ctx)), OnlyChild(min)))
      ensures size == old(size) && shape == old(shape)
    {
      var successorParent;
      successorParent, spine, min := SpliceSuccessor(root, Plug(ctx, sub), cur, ctx, sub);
      Rebalance(successorParent, Cat(spine, InRight(sub.left, sub.node, min.value, sub.height, ctx)), OnlyChild(min));
    }

    /** `_inOrderCollect(this.root, [])`: the stored contacts in ascending name order. */
    method InOrderCollect() returns (r: seq<Contact>)
      requires Valid()
      ensures r == InOrder(shape)
    {
      r := Collect(root, root, shape, Top, shape, []);
    }

    /** `search(name)`, inherited from the backend's binary search tree class: the same walk
        down from the root as `search` in `functions/src/data-structures/BinarySearchTree.js`. */
    method Search(k: string) returns (r: Option<Contact>)
      requires Valid()
      ensures r == Lookup(shape, k)
    {
      var cur := root;
      ghost var ctx, sub := Top, shape;
      while cur != null
        invariant Plug(ctx, sub) == shape && cur == Root(sub) && OnPath(ctx, k)
        invariant Lookup(sub, k) == Lookup(shape, k)
        invariant Stores(root, shape)
        decreases Size(sub)
      {
        NodeFields(root, shape, ctx, sub);
        if k == cur.value.name {
          return Some(cur.value);
        } else if Less(k, cur.value.name) {
          ctx, sub := Down(ctx, sub, true), sub.left;
          cur := cur.left;
        } else {
          ctx, sub := Down(ctx, sub, false), sub.right;
          cur := cur.right;
        }
      }
      return None;
    }

    /** `getContactsNewlyAddedFirst()`: the collected contacts sorted by `dateAdded`, newest
        first; a timestamp that is not a `Date` counts as 0. */
    method NewlyAddedFirst() returns (r: seq<Contact>)
      requires Valid()
      ensures Descending(r, DateAdded) && multiset(r) == multiset(InOrder(shape))
    {
      var contacts := InOrderCollect();
      r := SortedCopy(contacts, DateAdded);
    }

    /** `getContactsMostRecentActivityFirst()`: the same by `lastActivity`. */
    method MostRecentActivityFirst() returns (r: seq<Contact>)
      requires Valid()
      ensures Descending(r, LastActivity) && multiset(r) == multiset(InOrder(shape))
    {
      var contacts := InOrderCollect();
      r := SortedCopy(contacts, LastActivity);
    }
  }
}
