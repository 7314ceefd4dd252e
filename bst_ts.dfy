/** `functions/src/data-structures/BinarySearchTree.ts`: the typed copy of the unbalanced binary
    search tree. It differs in what `insert` rejects, in its time-ordered views, which count a
    missing timestamp as 0, and in having a working `size()`. */
module BstTs {
  import opened Contacts
  import opened Shapes
  import opened SearchTrees
  import opened TimeViews
  import opened HeapTrees

  class BinarySearchTree {
    var root: Node?
    var count: int
    /** The tree reachable from `root`. */
    ghost var shape: Shape

    ghost predicate Valid()
      reads this, Nodes(shape)
    {
      Stores(root, shape) && Ordered(shape) && count == Shapes.Size(shape)
    }

    constructor ()
      ensures Valid() && shape == Nil
    {
      root := null;
      count := 0;
      shape := Nil;
    }

    /** `None` stands for a missing or non-object argument; a contact with an empty name is
        rejected too. Otherwise the new node becomes a leaf at the end of the search path unless
        a node there has the same name. */
    method Insert(x: Option<Contact>) returns (ok: bool, ghost n: Node?)
      requires Valid()
      modifies this, Nodes(shape)
      ensures Valid()
      ensures (x.None? || x.value.name == "") ==> !ok && shape == old(shape)
      ensures x.Some? && x.value.name != "" ==> n != null && fresh(n) && shape == ShapeInsert(old(shape), n, x.value)
      ensures x.Some? && x.value.name != "" ==> (ok <==> Lookup(old(shape), x.value.name).None?)
      ensures count == old(count) + (if ok then 1 else 0)
    {
      if x.None? || x.value.name == "" {
        return false, null;
      }
      var c := x.value;
      NodesAllocated(shape);
      var newNode := new Node(c);
      assert newNode !in Nodes(shape);
      n := newNode;
      count := count + 1;
      if root == null {
        root := newNode;
        shape := Leaf(newNode, c);
        StoresLeaf(newNode);
        return true, n;
      }
      var cur, _, ctx, sub := Descend(root, shape, c.name);
      if c.name == cur.value.name {
        assert Lookup(shape, c.name).Some? by {
          PlugLookup(ctx, sub, c.name);
        }
        InsertSize(shape, newNode, c);
        count := count - 1;
        return false, n;
      }
      var left := Less(c.name, cur.value.name);
      ghost var s' := ShapeInsert(shape, newNode, c);
      assert s' == Plug(Down(ctx, sub, left), Leaf(newNode, c)) && Lookup(shape, c.name).None?
        && Ordered(s') && Shapes.Size(s') == count by {
        HangLeaf(ctx, sub, newNode, c, left);
      }
      LinkLeaf(root, shape, cur, newNode, left, ctx, sub);
      shape := s';
      return true, n;
    }
  
    /** The contact whose name compares equal to `k`, found by walking down from the root. */
    method Search(k: string) returns (r: Option<Contact>)
      requires Valid()
      ensures r == Lookup(shape, k)
    {
      if root == null {
        return None;
      }
      var cur := root;
      ghost var ctx, sub := Top, shape;
      while cur != null
        invariant Plug(ctx, sub) == shape && cur == Root(sub) && OnPath(ctx, k)
        invariant Lookup(sub, k) == Lookup(shape, k)
        invariant Stores(root, shape)
        decreases Shapes.Size(sub)
      {
        NodeFields(root, shape, ctx, sub);
        if k == cur.value.name {
          return Some(cur.value);
        } else if Less(k, cur.value.name) {
          ctx, sub := Down(ctx, sub, true), sub.left;
          cur := cur.left;
        } else {
          ctx, sub := Down(ctx, sub, false), sub.right;
          cur := cur.right;
        }
      }
      return None;
    }

    /** Removes the node named `k` and returns the contact it held, or `None` when there is none.
        A node with two children keeps its place and takes its in-order successor's value; the
        successor is spliced out instead. */
    method Delete(k: string) returns (r: Option<Contact>)
      requires Valid()
      modifies this, Nodes(shape)
      ensures Valid()
      ensures r == Lookup(old(shape), k)
      ensures shape == ShapeDelete(old(shape), k)
      ensures count == old(count) - (if r.Some? then 1 else 0)
    {
      if root == null {
        return None;
      }
      var cur, parent, ctx, sub := Descend(root, shape, k);
      if k != cur.value.name {
        assert Lookup(shape, k).None? && ShapeDelete(shape, k) == shape by {
          PlugLookup(ctx, sub, k);
          PlugDelete(ctx, sub, k);
        }
        return None;
      }
      ghost var s' := ShapeDelete(shape, k);
      assert Lookup(shape, k) == Some(sub.value) && s' == Plug(ctx, RemoveRoot(sub))
        && Ordered(s') && Shapes.Size(s') == count - 1 by {
        PlugLookup(ctx, sub, k);
        PlugDelete(ctx, sub, k);
        LookupContent(shape, k);
        ContentNames(shape);
        DeleteOrder(shape, k);
      }
      r := Some(cur.value);
      count := count - 1;
      root := Remove(root, shape, cur, parent, ctx, sub);
      shape := s';
    }
  
    /** The stored contacts in ascending name order. */
    method InOrderTraversal() returns (r: seq<Contact>)
      requires Valid()
      ensures r == InOrder(shape)
    {
      r := Collect(root, root, shape, Top, shape, []);
    }

    /** The traversal sorted by `dateAdded`, newest first; a missing one counts as 0. */
    method NewlyAddedFirst() returns (r: seq<Contact>)
      requires Valid()
      ensures Descending(r, DateAdded) && multiset(r) == multiset(InOrder(shape))
    {
      var all := InOrderTraversal();
      r := SortedCopy(all, DateAdded);
    }

    /** The traversal sorted by `lastActivity`, most recent first; a missing one counts as 0. */
    method MostRecentActivityFirst() returns (r: seq<Contact>)
      requires Valid()
      ensures Descending(r, LastActivity) && multiset(r) == multiset(InOrder(shape))
    {
      var all := InOrderTraversal();
      r := SortedCopy(all, LastActivity);
    }

    method IsEmpty() returns (r: bool)
      requires Valid()
      ensures r <==> Shapes.Size(shape) == 0
    {
      return root == null;
    }
  
    method Size() returns (r: int)
      requires Valid()
      ensures r == Shapes.Size(shape) && r == |InOrder(shape)|
    {
      SizeInOrder(shape);
      return count;
    }
  }
}
