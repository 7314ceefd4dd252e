/** The AVL invariant on shapes: every stored height is exact and the two subtrees of every
    node differ in height by at most one. Rebalancing one node whose subtrees are balanced and
    differ by at most two restores it, so insertion and deletion that rebalance every node on
    the way back up keep it; a balanced tree is no higher than about twice the logarithm of its
    size. */
module AvlBalance {
  import opened Contacts
  import opened Shapes
  import opened SearchTrees
  import opened AvlShapes

  ghost predicate Balanced(s: Shape) {
    s.Br? ==>
      && Balanced(s.left) && Balanced(s.right)
      && s.height == 1 + Max(H(s.left), H(s.right))
      && -1 <= BF(s) <= 1
  }

  // ---------------------------------------------------------------------------------------
  // Rebalancing one node.

  /** Left-left: a single right rotation; the height drops back unless the left child was
      even. */
  lemma RotateRightBalanced(f: Shape)
    requires f.Br? && f.left.Br? && Balanced(f.left) && Balanced(f.right)
    requires H(f.left) == H(f.right) + 2 && BF(f.left) >= 0
    ensures Balanced(RotR(f))
    ensures H(RotR(f)) == H(f.left) + (if BF(f.left) == 0 then 1 else 0)
  {
    var x := f.left;
    var y := Fix(Br(x.right, f.node, f.value, f.height, f.right));
    assert Balanced(y);
  }

  /** Left-right: a left rotation of the left child, then a right rotation; the height drops
      back to the left child's. */
  lemma RotateLeftRightBalanced(f: Shape)
    requires f.Br? && f.left.Br? && Balanced(f.left) && Balanced(f.right)
    requires H(f.left) == H(f.right) + 2 && BF(f.left) < 0
    ensures f.left.right.Br?
    ensures var g := Br(RotL(f.left), f.node, f.value, f.height, f.right);
      Balanced(RotR(g)) && H(RotR(g)) == H(f.left)
  {
    var x := f.left;
    var w := x.right;
    var x' := Fix(Br(x.left, x.node, x.value, x.height, w.left));
    assert Balanced(x');
    assert RotL(x) == Fix(Br(x', w.node, w.value, w.height, w.right));
    var g := Br(RotL(x), f.node, f.value, f.height, f.right);
    var y := Fix(Br(w.right, f.node, f.value, f.height, f.right));
    assert Balanced(y);
    assert RotR(g) == Fix(Br(x', w.node, w.value, RotL(x).height, y));
  }

  /** Right-right: the mirror image of left-left. */
  lemma RotateLeftBalanced(f: Shape)
    requires f.Br? && f.right.Br? && Balanced(f.left) && Balanced(f.right)
    requires H(f.right) == H(f.left) + 2 && BF(f.right) <= 0
    ensures Balanced(RotL(f))
    ensures H(RotL(f)) == H(f.right) + (if BF(f.right) == 0 then 1 else 0)
  {
    var y := f.right;
    var x := Fix(Br(f.left, f.node, f.value, f.height, y.left));
    assert Balanced(x);
  }

  /** Right-left: the mirror image of left-right. */
  lemma RotateRightLeftBalanced(f: Shape)
    requires f.Br? && f.right.Br? && Balanced(f.left) && Balanced(f.right)
    requires H(f.right) == H(f.left) + 2 && BF(f.right) > 0
    ensures f.right.left.Br?
    ensures var g := Br(f.left, f.node, f.value, f.height, RotR(f.right));
      Balanced(RotL(g)) && H(RotL(g)) == H(f.right)
  {
    var y := f.right;
    var w := y.left;
    var y' := Fix(Br(w.right, y.node, y.value, y.height, y.right));
    assert Balanced(y');
    assert RotR(y) == Fix(Br(w.left, w.node, w.value, w.height, y'));
    var g := Br(f.left, f.node, f.value, f.height, RotR(y));
    var x := Fix(Br(f.left, f.node, f.value, f.height, w.left));
    assert Balanced(x);
    assert RotL(g) == Fix(Br(x, w.node, w.value, RotR(y).height, y'));
  }

  /** `balance` of a node whose subtrees are balanced and differ in height by at most two is
      balanced; its height is that of the node with the height updated, or one less. */
  lemma BalBalanced(s: Shape)
    requires s.Br? && Balanced(s.left) && Balanced(s.right) && -2 <= BF(s) <= 2
    ensures Balanced(Bal(s))
    ensures Max(H(s.left), H(s.right)) <= H(Bal(s)) <= 1 + Max(H(s.left), H(s.right))
    ensures -1 <= BF(s) <= 1 ==> H(Bal(s)) == 1 + Max(H(s.left), H(s.right))
  {
    var f := Fix(s);
    if BF(f) > 1 {
      if BF(f.left) >= 0 {
        RotateRightBalanced(f);
      } else {
        RotateLeftRightBalanced(f);
      }
    } else if BF(f) < -1 {
      if BF(f.right) <= 0 {
        RotateLeftBalanced(f);
      } else {
        RotateRightLeftBalanced(f);
      }
    }
  }

  // ---------------------------------------------------------------------------------------
  // Insertion and deletion.

  /** Insertion keeps the tree balanced and raises its height by at most one. */
  lemma {:induction false} InsBalanced(s: Shape, n: Node, x: Contact)
    requires Balanced(s)
    ensures Balanced(Ins(s, n, x)) && H(s) <= H(Ins(s, n, x)) <= H(s) + 1
  {
    if s.Nil? || x.name == s.value.name {
    } else if Less(x.name, s.value.name) {
      InsBalanced(s.left, n, x);
      BalBalanced(Br(Ins(s.left, n, x), s.node, s.value, s.height, s.right));
    } else {
      InsBalanced(s.right, n, x);
      BalBalanced(Br(s.left, s.node, s.value, s.height, Ins(s.right, n, x)));
    }
  }

  /** Removing the leftmost node keeps the tree balanced and lowers its height by at most one. */
  lemma {:induction false} DelMinBalanced(s: Shape)
    requires s.Br? && Balanced(s)
    ensures Balanced(DelMin(s)) && H(s) - 1 <= H(DelMin(s)) <= H(s)
  {
    if s.left.Br? {
      DelMinBalanced(s.left);
      BalBalanced(Br(DelMin(s.left), s.node, s.value, s.height, s.right));
    }
  }

  lemma RemoveRootBalanced(s: Shape)
    requires s.Br? && Balanced(s)
    ensures Balanced(RemoveRootBal(s)) && H(s) - 1 <= H(RemoveRootBal(s)) <= H(s)
  {
    if s.left.Br? && s.right.Br? {
      DelMinBalanced(s.right);
      BalBalanced(Br(s.left, s.node, MinValue(s.right), s.height, DelMin(s.right)));
    }
  }

  /** Deletion keeps the tree balanced and lowers its height by at most one. */
  lemma {:induction false} DelBalanced(s: Shape, k: string)
    requires Balanced(s)
    ensures Balanced(Del(s, k)) && H(s) - 1 <= H(Del(s, k)) <= H(s)
  {
    if s.Nil? {
    } else if k == s.value.name {
      RemoveRootBalanced(s);
    } else if Less(k, s.value.name) {
      DelBalanced(s.left, k);
      BalBalanced(Br(Del(s.left, k), s.node, s.value, s.height, s.right));
    } else {
      DelBalanced(s.right, k);
      BalBalanced(Br(s.left, s.node, s.value, s.height, Del(s.right, k)));
    }
  }

  lemma AvlInsertBalanced(s: Shape, n: Node, x: Contact)
    requires Balanced(s)
    ensures Balanced(AvlInsert(s, n, x))
  {
    InsBalanced(s, n, x);
  }

  lemma AvlDeleteBalanced(s: Shape, k: string)
    requires Balanced(s)
    ensures Balanced(AvlDelete(s, k))
  {
    DelBalanced(s, k);
  }

  /** Deletion that rebalances only after a two-child removal does not keep the invariant:
      unlinking the right leaf of a root whose left subtree is two high leaves the root with
      subtrees two and zero high. */
  lemma PartialDeleteUnbalances(a: Node, b: Node, c: Node, d: Node, v: Contact)
    ensures var t := Br(Br(Leaf(a, v.(name := "a")), b, v.(name := "b"), 2, Nil), c, v.(name := "c"), 3, Leaf(d, v.(name := "d")));
      && Ordered(t) && Balanced(t)
      && PartialDelete(t, "d") == Br(t.left, c, t.value, 3, Nil)
      && !Balanced(PartialDelete(t, "d"))
  {
    var la, ld := Leaf(a, v.(name := "a")), Leaf(d, v.(name := "d"));
    var lb := Br(la, b, v.(name := "b"), 2, Nil);
    var t := Br(lb, c, v.(name := "c"), 3, ld);
    assert Balanced(Nil);
    assert Balanced(la);
    assert Balanced(ld);
    assert H(la) == 1 && H(Nil) == 0;
    assert Balanced(lb);
    assert Names(la) == {"a"};
    assert Names(ld) == {"d"};
    assert Names(lb) == Names(la) + {"b"};
    assert Less("a", "b") && Less("a", "c") && Less("b", "c") && Less("c", "d") && !Less("d", "c");
    assert Ordered(la) && Ordered(lb) && Ordered(ld);
    assert Find(t, "d") == ld;
    assert ShapeDelete(ld, "d") == Nil;
  }

  // ---------------------------------------------------------------------------------------
  // The height bound.

  function Pow2(e: nat): (p: nat)
    ensures p >= 1
  {
    if e == 0 then 1 else 2 * Pow2(e - 1)
  }

  lemma {:induction false} Pow2Monotone(a: nat, b: nat)
    requires a <= b
    ensures Pow2(a) <= Pow2(b)
    decreases b
  {
    if a < b {
      Pow2Monotone(a, b - 1);
    }
  }

  /** A balanced tree of height `h` holds at least `2^(h/2) - 1` nodes: its height is at most
      about twice the logarithm of its size, so every search path is that short. */
  lemma {:induction false} BalancedHeight(s: Shape)
    requires Balanced(s)
    ensures Pow2(H(s) / 2) <= Size(s) + 1
  {
    if s.Br? {
      BalancedHeight(s.left);
      BalancedHeight(s.right);
      var h := H(s);
      if h >= 2 {
        Pow2Monotone((h - 2) / 2, H(s.left) / 2);
        Pow2Monotone((h - 2) / 2, H(s.right) / 2);
        assert Pow2(h / 2) == 2 * Pow2((h - 2) / 2);
      }
    }
  }
}
