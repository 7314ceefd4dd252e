/** `functions/src/data-structures/BinarySearchTree.js`: an unbalanced binary search tree of
    contacts keyed by name, with parent pointers and a size counter. */
module BstJs {
  import opened Contacts
  import opened Shapes
  import opened SearchTrees
  import opened TimeViews
  import opened HeapTrees

  class BinarySearchTree {
    var root: Node?
    var size: int
    /** The tree reachable from `root`. */
    ghost var shape: Shape

    ghost predicate Valid()
      reads this, Nodes(shape)
    {
      Stores(root, shape) && Ordered(shape) && size == Size(shape)
    }

    constructor ()
      ensures Valid() && shape == Nil
    {
      root := null;
      size := 0;
      shape := Nil;
    }

    /** `None` stands for an argument that is not a `Contact` instance. The new node becomes a
        leaf at the end of the search path unless a node there has the same name. */
    method Insert(x: Option<Contact>) returns (ok: bool, ghost n: Node?)
      requires Valid()
      modifies this, Nodes(shape)
      ensures Valid()
      ensures x.None? ==> !ok && shape == old(shape)
      ensures x.Some? ==> n != null && fresh(n) && shape == ShapeInsert(old(shape), n, x.value)
      ensures x.Some? ==> (ok <==> Lookup(old(shape), x.value.name).None?)
      ensures size == old(size) + (if ok then 1 else 0)
    {
      if x.None? {
        return false, null;
      }
      var c := x.value;
      NodesAllocated(shape);
      var newNode := new Node(c);
      assert newNode !in Nodes(shape);
      n := newNode;
      size := size + 1;
      if root == null {
        root := newNode;
        shape := Leaf(newNode, c);
        StoresLeaf(newNode);
        return true, n;
      }
      var cur, _, ctx, sub := Descend(root, shape, c.name);
      if c.name == cur.value.name {
        assert Lookup(shape, c.name).Some? by {
          PlugLookup(ctx, sub, c.name);
        }
        InsertSize(shape, newNode, c);
        size := size - 1;
        return false, n;
      }
      var left := Less(c.name, cur.value.name);
      ghost var s' := ShapeInsert(shape, newNode, c);
      assert s' == Plug(Down(ctx, sub, left), Leaf(newNode, c)) && Lookup(shape, c.name).None?
        && Ordered(s') && Size(s') == size by {
        HangLeaf(ctx, sub, newNode, c, left);
      }
      LinkLeaf(root, shape, cur, newNode, left, ctx, sub);
      shape := s';
      return true, n;
    }
  
    /** The contact whose name compares equal to `k`, found by walking down from the root. */
    method Search(k: string) returns (r: Option<Contact>)
      requires Valid()
      ensures r == Lookup(shape, k)
    {
      if root == null {
        return None;
      }
      var cur := root;
      ghost var ctx, sub := Top, shape;
      while cur != null
        invariant Plug(ctx, sub) == shape && cur == Root(sub) && OnPath(ctx, k)
        invariant Lookup(sub, k) == Lookup(shape, k)
        invariant Stores(root, shape)
        decreases Size(sub)
      {
        NodeFields(root, shape, ctx, sub);
        if k == cur.value.name {
          return Some(cur.value);
        } else if Less(k, cur.value.name) {
          ctx, sub := Down(ctx, sub, true), sub.left;
          cur := cur.left;
        } else {
          ctx, sub := Down(ctx, sub, false), sub.right;
          cur := cur.right;
        }
      }
      return None;
    }

    /** Removes the node named `k` and returns the contact it held, or `None` when there is none.
        A node with two children keeps its place and takes its in-order successor's value; the
        successor is spliced out instead. */
    method Delete(k: string) returns (r: Option<Contact>)
      requires Valid()
      modifies this, Nodes(shape)
      ensures Valid()
      ensures r == Lookup(old(shape), k)
      ensures shape == ShapeDelete(old(shape), k)
      ensures size == old(size) - (if r.Some? then 1 else 0)
    {
      if root == null {
        return None;
      }
      var cur, parent, ctx, sub := Descend(root, shape, k);
      if k != cur.value.name {
        assert Lookup(shape, k).None? && ShapeDelete(shape, k) == shape by {
          PlugLookup(ctx, sub, k);
          PlugDelete(ctx, sub, k);
        }
        return None;
      }
      ghost var s' := ShapeDelete(shape, k);
      assert Lookup(shape, k) == Some(sub.value) && s' == Plug(ctx, RemoveRoot(sub))
        && Ordered(s') && Size(s') == size - 1 by {
        PlugLookup(ctx, sub, k);
        PlugDelete(ctx, sub, k);
        LookupContent(shape, k);
        ContentNames(shape);
        DeleteOrder(shape, k);
      }
      r := Some(cur.value);
      size := size - 1;
      root := Remove(root, shape, cur, parent, ctx, sub);
      shape := s';
    }
  
    /** The stored contacts in ascending name order. */
    method InOrderTraversal() returns (r: seq<Contact>)
      requires Valid()
      ensures r == InOrder(shape)
    {
      r := Collect(root, root, shape, Top, shape, []);
    }

    /** The traversal sorted newest first by `dateAdded`. Printing each contact's `dateAdded`
        before sorting throws when one is missing; `None` stands for that exception. */
    method NewlyAddedFirst() returns (r: Option<seq<Contact>>)
      requires Valid()
      ensures r.None? <==> exists c :: c in InOrder(shape) && c.dateAdded.None?
      ensures r.Some? ==> Descending(r.value, DateAdded) && multiset(r.value) == multiset(InOrder(shape))
    {
      var all := InOrderTraversal();
      var i := 0;
      while i < |all|
        invariant 0 <= i <= |all|
        invariant forall j :: 0 <= j < i ==> all[j].dateAdded.Some?
      {
        if all[i].dateAdded.None? {
          return None;
        }
        i := i + 1;
      }
      var sorted := SortedCopy(all, DateAdded);
      return Some(sorted);
    }

    /** The traversal sorted by `lastActivity`, most recent first; a missing one counts as 0. */
    method MostRecentActivityFirst() returns (r: seq<Contact>)
      requires Valid()
      ensures Descending(r, LastActivity) && multiset(r) == multiset(InOrder(shape))
    {
      var all := InOrderTraversal();
      r := SortedCopy(all, LastActivity);
    }

    method IsEmpty() returns (r: bool)
      requires Valid()
      ensures r <==> Size(shape) == 0
    {
      return root == null;
    }
  }
}
