/** `functions/src/data-structures/AVLTree.ts`: the AVL tree of contacts behind the cloud
    functions. Its rotations redirect the former parent of the pivot; insertion rebalances every
    node from the new leaf's parent up to the root; deletion rebalances only after removing a
    node with two children, from the successor's former parent up. */
module AvlTs {
  import opened Contacts
  import opened Shapes
  import opened SearchTrees
  import opened TimeViews
  import opened HeapViews
  import opened HeapTrees
  import opened AvlShapes
  import opened AvlHeap

  class AVLTree {
    var root: Node?
    var size: int
    /** The tree reachable from `root`. */
    ghost var shape: Shape

    ghost predicate Valid()
      reads this, Nodes(shape)
    {
      Stores(root, shape) && Ordered(shape) && size == Shapes.Size(shape)
    }

    constructor ()
      ensures Valid() && shape == Nil
    {
      root := null;
      size := 0;
      shape := Nil;
    }

    /** `rotateRight(y)`: the left child `x` of `y` takes its place, redirecting `y`'s parent. */
    method RotateRight(y: Node, ghost at: Site) returns (x: Node)
      requires Stores(Root(at.Whole()), at.Whole()) && at.sub.Br? && at.sub.left.Br? && y == at.sub.node
      modifies Nodes(at.Whole())
      ensures Stores(Root(Plug(at.ctx, RotR(at.sub))), Plug(at.ctx, RotR(at.sub)))
      ensures x == Root(RotR(at.sub))
    {
      ghost var s, ctx := at.sub, at.ctx;
      NodesAllocated(at.Whole());
      RightNodes(ctx, s);
      ParentFields(at);
      NodeFields(Root(at.Whole()), at.Whole(), ctx, s);
      NodeFields(Root(at.Whole()), at.Whole(), Down(ctx, s, true), s.left);
      x := y.left;
      var t2 := x.right;
      x.right := y;
      y.left := t2;
      if y.parent != null {
        if y.parent.left == y {
          y.parent.left := x;
        } else {
          y.parent.right := x;
        }
      }
      x.parent := y.parent;
      y.parent := x;
      if t2 != null {
        t2.parent := y;
      }
      UpdateHeight(y);
      UpdateHeight(x);
      RotatedRight(at, true);
    }

    /** `rotateLeft(x)`: the right child `y` of `x` takes its place, redirecting `x`'s parent. */
    method RotateLeft(x: Node, ghost at: Site) returns (y: Node)
      requires Stores(Root(at.Whole()), at.Whole()) && at.sub.Br? && at.sub.right.Br? && x == at.sub.node
      modifies Nodes(at.Whole())
      ensures Stores(Root(Plug(at.ctx, RotL(at.sub))), Plug(at.ctx, RotL(at.sub)))
      ensures y == Root(RotL(at.sub))
    {
      ghost var s, ctx := at.sub, at.ctx;
      NodesAllocated(at.Whole());
      LeftNodes(ctx, s);
      ParentFields(at);
      NodeFields(Root(at.Whole()), at.Whole(), ctx, s);
      NodeFields(Root(at.Whole()), at.Whole(), Down(ctx, s, false), s.right);
      y := x.right;
      var t2 := y.left;
      y.left := x;
      x.right := t2;
      if x.parent != null {
        if x.parent.left == x {
          x.parent.left := y;
        } else {
          x.parent.right := y;
        }
      }
      y.parent := x.parent;
      x.parent := y;
      if t2 != null {
        t2.parent := x;
      }
      UpdateHeight(x);
      UpdateHeight(y);
      RotatedLeft(at, true);
    }

    /** `balance(node)`: recompute the height of `node`, then rotate once or twice when its
        balance factor is beyond one either way. The result is the root of the rebalanced
        subtree, which its parent now links to. */
    method Balance(node: Node, ghost at: Site) returns (r: Node)
      requires Stores(Root(at.Whole()), at.Whole()) && at.sub.Br? && node == at.sub.node
      modifies Nodes(at.Whole())
      ensures Stores(Root(Plug(at.ctx, Bal(at.sub))), Plug(at.ctx, Bal(at.sub)))
      ensures r == Root(Bal(at.sub))
    {
      NodesAllocated(at.Whole());
      PlugNodes(at.ctx, at.sub);
      PlugNodes(at.ctx, Fix(at.sub));
      UpdateHeight(node);
      HeightFixed(at);
      r := RotateIfUnbalanced(node, Site(at.ctx, Fix(at.sub)));
    }

    /** The rotations of `balance`, on a subtree whose root height is already up to date: once
        when the taller child leans the same way, twice when it leans the other way. */
    method RotateIfUnbalanced(node: Node, ghost at: Site) returns (r: Node)
      requires Stores(Root(at.Whole()), at.Whole()) && at.sub.Br? && node == at.sub.node
      requires at.sub.height == 1 + Max(H(at.sub.left), H(at.sub.right))
      modifies Nodes(at.Whole())
      ensures Stores(Root(Plug(at.ctx, Bal(at.sub))), Plug(at.ctx, Bal(at.sub)))
      ensures r == Root(Bal(at.sub))
    {
      ghost var ctx, f := at.ctx, at.sub;
      ghost var top := Root(at.Whole());
      BalanceSites(at);
      NodeFields(top, at.Whole(), ctx, f);
      HeightsOf(top, ctx, f);
      var balanceFactor := GetBalanceFactor(node);
      if balanceFactor > 1 {
        HeightsOf(top, Down(ctx, f, true), f.left);
      } else if balanceFactor < -1 {
        HeightsOf(top, Down(ctx, f, false), f.right);
      }
      if balanceFactor > 1 && GetBalanceFactor(node.left) >= 0 {
        r := RotateRight(node, at);
        return;
      }
      if balanceFactor > 1 && GetBalanceFactor(node.left) < 0 {
        r := RotateLeftRight(node, at);
        return;
      }
      if balanceFactor < -1 && GetBalanceFactor(node.right) <= 0 {
        r := RotateLeft(node, at);
        return;
      }
      if balanceFactor < -1 && GetBalanceFactor(node.right) > 0 {
        r := RotateRightLeft(node, at);
        return;
      }
      r := node;
    }

    /** `node.left = rotateLeft(node.left)`, then `rotateRight(node)`. */
    method RotateLeftRight(node: Node, ghost at: Site) returns (r: Node)
      requires Stores(Root(at.Whole()), at.Whole()) && at.sub.Br? && node == at.sub.node
      requires at.sub.left.Br? && at.sub.left.right.Br?
      modifies Nodes(at.Whole())
      ensures var f := at.sub;
        var g := Br(RotL(f.left), f.node, f.value, f.height, f.right);
        Stores(Root(Plug(at.ctx, RotR(g))), Plug(at.ctx, RotR(g))) && r == Root(RotR(g))
    {
      ghost var ctx, f := at.ctx, at.sub;
      ghost var g := Br(RotL(f.left), f.node, f.value, f.height, f.right);
      assert node.left == Root(f.left) && Nodes(Plug(ctx, g)) == Nodes(at.Whole()) by {
        NodeFields(Root(at.Whole()), at.Whole(), ctx, f);
        PlugNodes(ctx, g);
        PlugNodes(ctx, f);
      }
      var y := RotateLeft(node.left, Site(Down(ctx, f, true), f.left));
      NodeFields(Root(Plug(ctx, g)), Plug(ctx, g), ctx, g);
      NodesAllocated(Plug(ctx, g));
      label rotated:
      node.left := y;
      SameLinks@rotated(Site(ctx, g));
      r := RotateRight(node, Site(ctx, g));
    }

    /** `node.right = rotateRight(node.right)`, then `rotateLeft(node)`. */
    method RotateRightLeft(node: Node, ghost at: Site) returns (r: Node)
      requires Stores(Root(at.Whole()), at.Whole()) && at.sub.Br? && node == at.sub.node
      requires at.sub.right.Br? && at.sub.right.left.Br?
      modifies Nodes(at.Whole())
      ensures var f := at.sub;
        var g := Br(f.left, f.node, f.value, f.height, RotR(f.right));
        Stores(Root(Plug(at.ctx, RotL(g))), Plug(at.ctx, RotL(g))) && r == Root(RotL(g))
    {
      ghost var ctx, f := at.ctx, at.sub;
      ghost var g := Br(f.left, f.node, f.value, f.height, RotR(f.right));
      assert node.right == Root(f.right) && Nodes(Plug(ctx, g)) == Nodes(at.Whole()) by {
        NodeFields(Root(at.Whole()), at.Whole(), ctx, f);
        PlugNodes(ctx, g);
        PlugNodes(ctx, f);
      }
      var x := RotateRight(node.right, Site(Down(ctx, f, false), f.right));
      NodeFields(Root(Plug(ctx, g)), Plug(ctx, g), ctx, g);
      NodesAllocated(Plug(ctx, g));
      label rotated:
      node.right := x;
      SameLinks@rotated(Site(ctx, g));
      r := RotateLeft(node, Site(ctx, g));
    }

    /** The walk up shared by `insert` and the two-child `delete`: `balance` at `current`, then
        on at the parent of the node it returns, until that node has no parent and becomes the
        root. The walk starts at the node above the hole `c` in which `t` hangs. */
    method Rebalance(start: Node, ghost c: Ctx, ghost t: Shape)
      requires Stores(Root(Plug(c, t)), Plug(c, t)) && !c.Top? && start == c.node
      modifies this, Nodes(Plug(c, t))
      ensures Stores(root, Climb(c, t))
      ensures size == old(size) && shape == old(shape)
    {
      ghost var target, all := Climb(c, t), Nodes(Plug(c, t));
      ghost var ctx, below := c, t;
      var current: Node? := start;
      while current != null
        invariant Stores(Root(Plug(ctx, below)), Plug(ctx, below)) && current == HoleParent(ctx, null)
        invariant ctx.Top? ==> root == Root(below)
        invariant Climb(ctx, below) == target && Nodes(Plug(ctx, below)) == all
        invariant size == old(size) && shape == old(shape)
        decreases ctx
      {
        ghost var up, sub := ctx.up, Lift(ctx, below);
        assert Nodes(Plug(up, sub)) == all && Nodes(Plug(up, Bal(sub))) == all by {
          PlugNodes(up, sub);
          PlugNodes(up, Bal(sub));
        }
        current := Balance(current, Site(up, sub));
        assert current.parent == HoleParent(up, null) by {
          NodeFields(Root(Plug(up, Bal(sub))), Plug(up, Bal(sub)), up, Bal(sub));
        }
        ctx, below := up, Bal(sub);
        if current.parent == null {
          assert ctx.Top? && Plug(ctx, below) == below;
          if root != current {
            root := current;
          }
          break;
        }
        current := current.parent;
      }
    }

    /** `insert(contact)`: always `true`. A name equal to one on the search path adds nothing;
        any other contact becomes a leaf below the last node of the path. */
    method Insert(x: Contact) returns (ok: bool, ghost n: Node)
      requires Valid()
      modifies this, Nodes(shape)
      ensures Valid() && ok && fresh(n)
      ensures shape == AvlInsert(old(shape), n, x)
      ensures size == old(size) + (if Lookup(old(shape), x.name).Some? then 0 else 1)
    {
      NodesAllocated(shape);
      var newNode := new Node(x);
      n := newNode;
      if root == null {
        root := newNode;
        size := size + 1;
        shape := Leaf(newNode, x);
        StoresLeaf(newNode);
        return true, n;
      }
      var cur, _, ctx, sub := Descend(root, shape, x.name);
      if x.name == cur.value.name {
        assert Lookup(shape, x.name).Some? by {
          PlugLookup(ctx, sub, x.name);
        }
        return true, n;
      }
      ghost var s := shape;
      assert Lookup(s, x.name).None? by {
        InsertClimb(ctx, sub, newNode, x);
      }
      InsertBelow(cur, newNode, Less(x.name, cur.value.name), ctx, sub);
      size := size + 1;
      shape := AvlInsert(s, newNode, x);
      return true, n;
    }

    /** The rest of `insert` once the search has ended below `cur` without meeting the name:
        the new node goes in as `cur`'s child on the side the name falls, and the result is the
        AVL insertion into the tree. */
    method InsertBelow(cur: Node, newNode: Node, left: bool, ghost ctx: Ctx, ghost sub: Shape)
      requires sub.Br? && cur == sub.node && Stores(root, Plug(ctx, sub)) && Ordered(Plug(ctx, sub))
      requires OnPath(ctx, newNode.value.name) && newNode.value.name != sub.value.name
      requires left == Less(newNode.value.name, sub.value.name)
      requires if left then sub.left.Nil? else sub.right.Nil?
      requires newNode !in Nodes(Plug(ctx, sub)) && newNode.left == null && newNode.right == null && newNode.height == 1
      modifies this, Nodes(Plug(ctx, sub)), newNode
      ensures var s, x := Plug(ctx, sub), old(newNode.value);
        Stores(root, AvlInsert(s, newNode, x)) && Ordered(AvlInsert(s, newNode, x))
        && Shapes.Size(AvlInsert(s, newNode, x)) == Shapes.Size(s) + 1
      ensures size == old(size) && shape == old(shape)
    {
      ghost var s, x := Plug(ctx, sub), newNode.value;
      assert Climb(Down(ctx, sub, left), Leaf(newNode, x)) == AvlInsert(s, newNode, x) by {
        InsertClimb(ctx, sub, newNode, x);
      }
      assert Ordered(AvlInsert(s, newNode, x)) && Shapes.Size(AvlInsert(s, newNode, x)) == Shapes.Size(s) + 1 by {
        InsertClimb(ctx, sub, newNode, x);
        AvlInsertContent(s, newNode, x);
      }
      Hang(cur, newNode, left, ctx, sub);
    }

    /** The new node is linked as `cur`'s child on the side `left` names, and every node from
        `cur` up to the root is rebalanced. */
    method Hang(cur: Node, newNode: Node, left: bool, ghost ctx: Ctx, ghost sub: Shape)
      requires Stores(root, Plug(ctx, sub)) && sub.Br? && cur == sub.node
      requires if left then sub.left.Nil? else sub.right.Nil?
      requires newNode !in Nodes(Plug(ctx, sub)) && newNode.left == null && newNode.right == null && newNode.height == 1
      modifies this, Nodes(Plug(ctx, sub)), newNode
      ensures Stores(root, Climb(Down(ctx, sub, left), Leaf(newNode, old(newNode.value))))
      ensures size == old(size) && shape == old(shape)
    {
      ghost var c, t := Down(ctx, sub, left), Leaf(newNode, newNode.value);
      assert cur in Nodes(Plug(ctx, sub)) && Nodes(Plug(c, t)) <= Nodes(Plug(ctx, sub)) + {newNode} by {
        PlugNodes(c, t);
        PlugNodes(ctx, sub);
      }
      LinkLeaf(root, Plug(ctx, sub), cur, newNode, left, ctx, sub);
      assert root == Root(Plug(c, t)) by {
        PlugRootSame(ctx, sub, t, left);
      }
      Rebalance(cur, c, t);
    }

    /** `delete(name)`: always `true`. A name not on the search path changes nothing. A found
        leaf is unlinked and a found node with one child is replaced by it, with no rebalancing;
        a found node with two children takes its in-order successor's value, the successor is
        spliced out, and every node from the successor's parent up to the root is rebalanced. */
    method Delete(k: string) returns (ok: bool)
      requires Valid()
      modifies this, Nodes(shape)
      ensures Valid() && ok
      ensures shape == PartialDelete(old(shape), k)
      ensures size == old(size) - (if Lookup(old(shape), k).Some? then 1 else 0)
    {
      if root == null {
        return true;
      }
      ghost var s := shape;
      var cur, parent, ctx, sub := Descend(root, shape, k);
      DeleteSearch(ctx, sub, k);
      if k != cur.value.name {
        return true;
      }
      RemoveFound(cur, parent, ctx, sub);
      size := size - 1;
      shape := PartialDelete(s, k);
      return true;
    }

    /** The rest of `delete` once the search has found `cur`: a leaf or a node with one child is
        spliced out with no rebalancing, and a node with two children is replaced by its
        successor with rebalancing. */
    method RemoveFound(cur: Node, parent: Node?, ghost ctx: Ctx, ghost sub: Shape)
      requires sub.Br? && cur == sub.node && parent == HoleParent(ctx, null)
      requires Stores(root, Plug(ctx, sub)) && OnPath(ctx, sub.value.name)
      modifies this, Nodes(Plug(ctx, sub))
      ensures Stores(root, PartialDelete(Plug(ctx, sub), sub.value.name))
      ensures size == old(size) && shape == old(shape)
    {
      ghost var s, k := Plug(ctx, sub), sub.value.name;
      assert cur.left == Root(sub.left) && cur.right == Root(sub.right) by {
        NodeFields(root, s, ctx, sub);
      }
      if cur.left == null || cur.right == null {
        assert PartialDelete(s, k) == Plug(ctx, RemoveRoot(sub)) by {
          PlugFind(ctx, sub, k);
          PlugDelete(ctx, sub, k);
        }
        root := Remove(root, s, cur, parent, ctx, sub);
      } else {
        assert PartialDelete(s, k) == Del(s, k) by {
          PlugFind(ctx, sub, k);
        }
        ReplaceBySuccessor(cur, ctx, sub);
      }
    }

    /** The two-children case of `delete`: `cur` takes the value of its in-order successor, the
        successor gives way to its right child, and every node from the successor's former
        parent up to the root is rebalanced; the result is the AVL deletion from the tree. */
    method ReplaceBySuccessor(cur: Node, ghost ctx: Ctx, ghost sub: Shape)
      requires sub.Br? && sub.left.Br? && sub.right.Br? && cur == sub.node
      requires Stores(root, Plug(ctx, sub)) && OnPath(ctx, sub.value.name)
      modifies this, Nodes(Plug(ctx, sub))
      ensures Stores(root, Del(Plug(ctx, sub), sub.value.name))
      ensures size == old(size) && shape == old(shape)
    {
      var spine, min := Succeed(cur, ctx, sub);
      assert Climb(Cat(spine, InRight(sub.left, sub.node, min.value, sub.height, ctx)), OnlyChild(min))
        == Del(Plug(ctx, sub), sub.value.name) by {
        SuccessorClimb(ctx, sub, sub.value.name, spine, min);
      }
    }

    /** The successor splice of `delete` followed by rebalancing from the successor's former
        parent up to the root. */
    method Succeed(cur: Node, ghost ctx: Ctx, ghost sub: Shape) returns (ghost spine: Ctx, ghost min: Shape)
      requires sub.Br? && sub.left.Br? && sub.right.Br? && cur == sub.node
      requires Stores(root, Plug(ctx, sub))
      modifies this, Nodes(Plug(ctx, sub))
      ensures Plug(spine, min) == sub.right && LeftSpine(spine) && min.Br? && min.left.Nil?
      ensures Stores(root, Climb(Cat(spine, InRight(sub.left, sub.node, min.value, sub.height, ctx)), OnlyChild(min)))
      ensures size == old(size) && shape == old(shape)
    {
      var succParent;
      succParent, spine, min := SpliceSuccessor(root, Plug(ctx, sub), cur, ctx, sub);
      Rebalance(succParent, Cat(spine, InRight(sub.left, sub.node, min.value, sub.height, ctx)), OnlyChild(min));
    }

    /** `search(name)`: walks down from the root, testing equality before order, and returns the
        contact with that name, or `None` (`null`) when the walk falls off the tree. */
    method Search(k: string) returns (r: Option<Contact>)
      requires Valid()
      ensures r == Lookup(shape, k)
    {
      var cur := root;
      ghost var ctx, sub := Top, shape;
      while cur != null
        invariant Plug(ctx, sub) == shape && cur == Root(sub) && OnPath(ctx, k)
        invariant Lookup(sub, k) == Lookup(shape, k)
        invariant Stores(root, shape)
        decreases Shapes.Size(sub)
      {
        NodeFields(root, shape, ctx, sub);
        if k == cur.value.name {
          return Some(cur.value);
        } else if Less(k, cur.value.name) {
          ctx, sub := Down(ctx, sub, true), sub.left;
          cur := cur.left;
        } else {
          ctx, sub := Down(ctx, sub, false), sub.right;
          cur := cur.right;
        }
      }
      return None;
    }

    /** `inOrderTraversal()`: the stored contacts in ascending name order. */
    method InOrderTraversal() returns (r: seq<Contact>)
      requires Valid()
      ensures r == InOrder(shape)
    {
      r := Collect(root, root, shape, Top, shape, []);
    }

    /** `getContactsNewlyAddedFirst()` as written: it sorts what `_inOrderCollect(this.root, [])`
        returns, and that helper fills the array it is given but returns nothing, so the call to
        `sort` throws on every tree, the empty one included. `None` stands for that exception. */
    method NewlyAddedFirst() returns (r: Option<seq<Contact>>)
      requires Valid()
      ensures r.None?
    {
      r := None;
    }

    /** `getContactsMostRecentActivityFirst()` as written: throws for the same reason. */
    method MostRecentActivityFirst() returns (r: Option<seq<Contact>>)
      requires Valid()
      ensures r.None?
    {
      r := None;
    }

    /** `getContactsNewlyAddedFirst()` as evidently intended: the traversal sorted by
        `dateAdded`, newest first, a missing one counting as 0. */
    method NewlyAddedFirstIntended() returns (r: seq<Contact>)
      requires Valid()
      ensures Descending(r, DateAdded) && multiset(r) == multiset(InOrder(shape))
    {
      var all := InOrderTraversal();
      r := SortedCopy(all, DateAdded);
    }

    /** `getContactsMostRecentActivityFirst()` as evidently intended: the traversal sorted by
        `lastActivity`, most recent first, a missing one counting as 0. */
    method MostRecentActivityFirstIntended() returns (r: seq<Contact>)
      requires Valid()
      ensures Descending(r, LastActivity) && multiset(r) == multiset(InOrder(shape))
    {
      var all := InOrderTraversal();
      r := SortedCopy(all, LastActivity);
    }
  }
}
