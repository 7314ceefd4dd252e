/** The AVL trees as pure functions on shapes: the height update, the two rotations, the
    four-case rebalancing of one node, the walk that rebalances every node above a hole, and
    insertion and deletion that rebalance on the way back up. Rebalancing never changes the
    in-order sequence, so every fact about order and content proved for the unbalanced tree
    carries over. */
module AvlShapes {
  import opened Contacts
  import opened Shapes
  import opened SearchTrees

  function Max(a: int, b: int): int {
    if a >= b then a else b
  }

  /** `getBalanceFactor`: left height minus right height, 0 for an absent subtree. */
  function BF(s: Shape): int {
    if s.Nil? then 0 else H(s.left) - H(s.right)
  }

  /** `updateHeight`: the stored height recomputed from the children's stored heights. */
  ghost function Fix(s: Shape): (t: Shape)
    requires s.Br?
    ensures t.Br? && InOrder(t) == InOrder(s) && Nodes(t) == Nodes(s) && Root(t) == Root(s)
    ensures t.height > H(s.left) && t.height > H(s.right)
    ensures t == s.(height := 1 + Max(H(s.left), H(s.right)))
  {
    Br(s.left, s.node, s.value, 1 + Max(H(s.left), H(s.right)), s.right)
  }

  /** `rotateRight(y)`: the left child `x` moves up, `y` becomes its right child and takes over
      `x`'s former right subtree; `y`'s height is updated before `x`'s. */
  ghost function RotR(s: Shape): (t: Shape)
    requires s.Br? && s.left.Br?
    ensures t.Br? && Root(t) == s.left.node && t.right.Br? && t.right.node == s.node
    ensures InOrder(t) == InOrder(s) && Nodes(t) == Nodes(s)
    ensures Distinct(s) ==> Distinct(t)
  {
    var x := s.left;
    var y := Fix(Br(x.right, s.node, s.value, s.height, s.right));
    RotateDistinct(x.left, x.node, x.value, x.height, x.right, s.node, s.value, s.height, s.right, y.height, 1);
    Fix(Br(x.left, x.node, x.value, x.height, y))
  }

  /** `rotateLeft(x)`: the mirror image of `RotR`. */
  ghost function RotL(s: Shape): (t: Shape)
    requires s.Br? && s.right.Br?
    ensures t.Br? && Root(t) == s.right.node && t.left.Br? && t.left.node == s.node
    ensures InOrder(t) == InOrder(s) && Nodes(t) == Nodes(s)
    ensures Distinct(s) ==> Distinct(t)
  {
    var y := s.right;
    var x := Fix(Br(s.left, s.node, s.value, s.height, y.left));
    RotateBackDistinct(s.left, s.node, s.value, s.height, y.left, y.node, y.value, y.height, y.right, x.height, 1);
    Fix(Br(x, y.node, y.value, y.height, y.right))
  }

  /** `balance(node)`: update the height, then by the balance factor rotate once (left-left,
      right-right) or twice (left-right, right-left); a node whose balance factor is within
      one keeps its place with only its height updated. */
  ghost function Bal(s: Shape): (t: Shape)
    requires s.Br?
    ensures t.Br? && InOrder(t) == InOrder(s) && Nodes(t) == Nodes(s)
    ensures Distinct(s) ==> Distinct(t)
    ensures -1 <= BF(Fix(s)) <= 1 ==> t == Fix(s)
  {
    var f := Fix(s);
    if BF(f) > 1 then
      if BF(f.left) >= 0 then RotR(f)
      else RotR(Br(RotL(f.left), f.node, f.value, f.height, f.right))
    else if BF(f) < -1 then
      if BF(f.right) <= 0 then RotL(f)
      else RotL(Br(f.left, f.node, f.value, f.height, RotR(f.right)))
    else f
  }

  /** Rebalancing from the node above the hole up to the root, each node with the rebalanced
      subtree below it. */
  ghost function Climb(c: Ctx, t: Shape): (r: Shape)
    ensures c.Top? ==> r == t
    ensures !c.Top? ==> r.Br?
  {
    match c
    case Top => t
    case InLeft(up, n, v, h, r) => Climb(up, Bal(Br(t, n, v, h, r)))
    case InRight(l, n, v, h, up) => Climb(up, Bal(Br(l, n, v, h, t)))
  }

  /** The subtree formed by the node right above the hole of `c` with `t` in the hole: one
      step of the walk up. */
  ghost function Lift(c: Ctx, t: Shape): (s: Shape)
    requires !c.Top?
    ensures s.Br? && s.node == c.node && Plug(c.up, s) == Plug(c, t) && Climb(c, t) == Climb(c.up, Bal(s))
  {
    if c.InLeft? then Br(t, c.node, c.value, c.height, c.right) else Br(c.left, c.node, c.value, c.height, t)
  }

  /** AVL insertion of an absent name: the new leaf at the end of the search path, then every
      node on the path rebalanced from the bottom up. */
  ghost function Ins(s: Shape, n: Node, x: Contact): (t: Shape)
    ensures InOrder(t) == InOrder(ShapeInsert(s, n, x)) && Nodes(t) == Nodes(ShapeInsert(s, n, x))
  {
    if s.Nil? then Leaf(n, x)
    else if x.name == s.value.name then s
    else if Less(x.name, s.value.name) then Bal(Br(Ins(s.left, n, x), s.node, s.value, s.height, s.right))
    else Bal(Br(s.left, s.node, s.value, s.height, Ins(s.right, n, x)))
  }

  /** Insertion with a name already present leaves the tree as it is. */
  ghost function AvlInsert(s: Shape, n: Node, x: Contact): (t: Shape)
    ensures InOrder(t) == InOrder(ShapeInsert(s, n, x)) && Nodes(t) == Nodes(ShapeInsert(s, n, x))
  {
    InsertSize(s, n, x);
    if Lookup(s, x.name).Some? then s else Ins(s, n, x)
  }

  /** `DeleteMin` with every node on the left spine rebalanced on the way back up. */
  ghost function DelMin(s: Shape): (t: Shape)
    requires s.Br?
    ensures InOrder(t) == InOrder(DeleteMin(s)) && Nodes(t) == Nodes(DeleteMin(s))
  {
    if s.left.Nil? then s.right else Bal(Br(DelMin(s.left), s.node, s.value, s.height, s.right))
  }

  /** Removal of the root: a node with at most one child is replaced by that child; a node with
      two takes its successor's value and is rebalanced once the successor is gone. */
  ghost function RemoveRootBal(s: Shape): (t: Shape)
    requires s.Br?
    ensures InOrder(t) == InOrder(RemoveRoot(s)) && Nodes(t) == Nodes(RemoveRoot(s))
  {
    if s.left.Nil? || s.right.Nil? then OnlyChild(s)
    else Bal(Br(s.left, s.node, MinValue(s.right), s.height, DelMin(s.right)))
  }

  /** Deletion of a name on the search path with every node above it rebalanced. */
  ghost function Del(s: Shape, k: string): (t: Shape)
    ensures InOrder(t) == InOrder(ShapeDelete(s, k)) && Nodes(t) == Nodes(ShapeDelete(s, k))
  {
    if s.Nil? then Nil
    else if k == s.value.name then RemoveRootBal(s)
    else if Less(k, s.value.name) then Bal(Br(Del(s.left, k), s.node, s.value, s.height, s.right))
    else Bal(Br(s.left, s.node, s.value, s.height, Del(s.right, k)))
  }

  /** Deletion that rebalances after every removal; an absent name changes nothing. */
  ghost function AvlDelete(s: Shape, k: string): (t: Shape)
    ensures InOrder(t) == InOrder(ShapeDelete(s, k)) && Nodes(t) == Nodes(ShapeDelete(s, k))
  {
    DeleteAbsent(s, k);
    if Lookup(s, k).None? then s else Del(s, k)
  }

  /** The subtree whose root holds `k`, `Nil` when the search path ends without it. */
  ghost function Find(s: Shape, k: string): (t: Shape)
    ensures t.Br? <==> Lookup(s, k).Some?
  {
    if s.Nil? then Nil
    else if k == s.value.name then s
    else if Less(k, s.value.name) then Find(s.left, k)
    else Find(s.right, k)
  }

  /** Deletion that rebalances only after removing a node with two children, and then from
      the successor's parent up to the root; other deletions only unlink or splice. */
  ghost function PartialDelete(s: Shape, k: string): (t: Shape)
    ensures InOrder(t) == InOrder(ShapeDelete(s, k)) && Nodes(t) == Nodes(ShapeDelete(s, k))
  {
    var f := Find(s, k);
    if f.Br? && f.left.Br? && f.right.Br? then Del(s, k) else ShapeDelete(s, k)
  }

  /** Rotating three subtrees and two nodes keeps every node occurring once. */
  lemma RotateDistinct(a: Shape, x: Node, vx: Contact, hx: Height, b: Shape, y: Node, vy: Contact, hy: Height, c: Shape, hy': Height, hx': Height)
    ensures Distinct(Br(Br(a, x, vx, hx, b), y, vy, hy, c)) ==> Distinct(Br(a, x, vx, hx', Br(b, y, vy, hy', c)))
  {
    if Distinct(Br(Br(a, x, vx, hx, b), y, vy, hy, c)) {
      assert Distinct(Br(a, x, vx, hx, b));
    }
  }

  lemma RotateBackDistinct(a: Shape, x: Node, vx: Contact, hx: Height, b: Shape, y: Node, vy: Contact, hy: Height, c: Shape, hx': Height, hy': Height)
    ensures Distinct(Br(a, x, vx, hx, Br(b, y, vy, hy, c))) ==> Distinct(Br(Br(a, x, vx, hx', b), y, vy, hy', c))
  {
    if Distinct(Br(a, x, vx, hx, Br(b, y, vy, hy, c))) {
      assert Distinct(Br(b, y, vy, hy, c));
    }
  }

  // ---------------------------------------------------------------------------------------
  // The in-order sequence decides order, names and content.

  ghost predicate Sorted(q: seq<Contact>) {
    forall i, j :: 0 <= i < j < |q| ==> Less(q[i].name, q[j].name)
  }

  ghost function SeqNames(q: seq<Contact>): set<string> {
    set i | 0 <= i < |q| :: q[i].name
  }

  lemma SeqNamesCat(a: seq<Contact>, v: Contact, b: seq<Contact>)
    ensures SeqNames(a + [v] + b) == SeqNames(a) + {v.name} + SeqNames(b)
  {
    var q := a + [v] + b;
    forall k | k in SeqNames(q) ensures k in SeqNames(a) + {v.name} + SeqNames(b) {
      var i :| 0 <= i < |q| && q[i].name == k;
      if i < |a| { assert q[i] == a[i]; }
      else if i > |a| { assert q[i] == b[i - |a| - 1]; }
    }
    forall k | k in SeqNames(a) + {v.name} + SeqNames(b) ensures k in SeqNames(q) {
      if k in SeqNames(a) {
        var i :| 0 <= i < |a| && a[i].name == k;
        assert q[i] == a[i];
      } else if k in SeqNames(b) {
        var i :| 0 <= i < |b| && b[i].name == k;
        assert q[|a| + 1 + i] == b[i];
      } else {
        assert q[|a|] == v;
      }
    }
  }

  lemma {:induction false} NamesInOrder(s: Shape)
    ensures Names(s) == SeqNames(InOrder(s))
  {
    if s.Br? {
      NamesInOrder(s.left);
      NamesInOrder(s.right);
      SeqNamesCat(InOrder(s.left), s.value, InOrder(s.right));
    }
  }

  /** A tree whose in-order names strictly increase is ordered. */
  lemma {:induction false} SortedOrdered(s: Shape)
    requires Sorted(InOrder(s))
    ensures Ordered(s)
  {
    if s.Br? {
      var a, b := InOrder(s.left), InOrder(s.right);
      var q := InOrder(s);
      assert q == a + [s.value] + b;
      assert Sorted(a) by {
        forall i, j | 0 <= i < j < |a| ensures Less(a[i].name, a[j].name) {
          assert q[i] == a[i] && q[j] == a[j];
        }
      }
      assert Sorted(b) by {
        forall i, j | 0 <= i < j < |b| ensures Less(b[i].name, b[j].name) {
          assert q[|a| + 1 + i] == b[i] && q[|a| + 1 + j] == b[j];
        }
      }
      SortedOrdered(s.left);
      SortedOrdered(s.right);
      NamesInOrder(s.left);
      NamesInOrder(s.right);
      forall k | k in Names(s.left) ensures Less(k, s.value.name) {
        var i :| 0 <= i < |a| && a[i].name == k;
        assert q[i] == a[i] && q[|a|] == s.value;
      }
      forall k | k in Names(s.right) ensures Less(s.value.name, k) {
        var i :| 0 <= i < |b| && b[i].name == k;
        assert q[|a| + 1 + i] == b[i] && q[|a|] == s.value;
      }
    }
  }

  /** In an ordered tree each contact of the in-order sequence is the one stored under its name. */
  lemma {:induction false} ContentInOrder(s: Shape, i: int)
    requires Ordered(s) && 0 <= i < |InOrder(s)|
    ensures InOrder(s)[i].name in Content(s) && Content(s)[InOrder(s)[i].name] == InOrder(s)[i]
  {
    var a, b := InOrder(s.left), InOrder(s.right);
    var q := InOrder(s);
    assert q == a + [s.value] + b;
    var c := q[i];
    OrderedRoot(s);
    ContentNames(s.left);
    ContentNames(s.right);
    NamesInOrder(s.left);
    NamesInOrder(s.right);
    if i < |a| {
      assert c == a[i];
      ContentInOrder(s.left, i);
      assert c.name in Names(s.left);
      LeftEntry(Content(s.left), Content(s.right), s.value, c.name);
    } else if i > |a| {
      assert c == b[i - |a| - 1];
      ContentInOrder(s.right, i - |a| - 1);
      assert c.name in Names(s.right);
      RightEntry(Content(s.left), Content(s.right), s.value, c.name);
    }
  }

  /** Two trees with the same in-order sequence, the first ordered, have the same order,
      names, content and size. */
  lemma InOrderDetermines(s: Shape, t: Shape)
    requires Ordered(s) && InOrder(s) == InOrder(t)
    ensures Ordered(t) && Names(t) == Names(s) && Content(t) == Content(s) && Size(t) == Size(s)
  {
    assert Ordered(t) by {
      OrderedInOrderSorted(s);
      SortedOrdered(t);
    }
    assert Names(t) == Names(s) by {
      NamesInOrder(s);
      NamesInOrder(t);
    }
    assert Size(t) == Size(s) by {
      SizeInOrder(s);
      SizeInOrder(t);
    }
    SameContent(s, t);
  }

  lemma SameContent(s: Shape, t: Shape)
    requires Ordered(s) && Ordered(t) && InOrder(s) == InOrder(t) && Names(t) == Names(s)
    ensures Content(t) == Content(s)
  {
    ContentNames(s);
    ContentNames(t);
    forall k | k in Content(s) ensures Content(t)[k] == Content(s)[k] {
      var q := InOrder(s);
      assert k in SeqNames(q) by {
        NamesInOrder(s);
      }
      var i :| 0 <= i < |q| && q[i].name == k;
      ContentInOrder(s, i);
      ContentInOrder(t, i);
    }
  }

  // ---------------------------------------------------------------------------------------
  // The walk up the tree.

  /** Rebalancing above a hole keeps the in-order sequence and the nodes of the whole tree. */
  lemma {:induction false} ClimbKeeps(c: Ctx, t: Shape)
    ensures InOrder(Climb(c, t)) == InOrder(Plug(c, t)) && Nodes(Climb(c, t)) == Nodes(Plug(c, t))
    ensures Distinct(Plug(c, t)) ==> Distinct(Climb(c, t))
  {
    match c
    case Top =>
    case InLeft(up, n, v, h, r) =>
      var f := Br(t, n, v, h, r);
      ClimbKeeps(up, Bal(f));
      PlugInOrder(up, f, Bal(f));
      PlugNodes(up, f);
      PlugNodes(up, Bal(f));
      if Distinct(Plug(c, t)) {
        PlugDistinct(up, f, Bal(f));
      }
    case InRight(l, n, v, h, up) =>
      var f := Br(l, n, v, h, t);
      ClimbKeeps(up, Bal(f));
      PlugInOrder(up, f, Bal(f));
      PlugNodes(up, f);
      PlugNodes(up, Bal(f));
      if Distinct(Plug(c, t)) {
        PlugDistinct(up, f, Bal(f));
      }
  }

  lemma {:induction false} PlugInOrder(c: Ctx, s: Shape, t: Shape)
    requires InOrder(s) == InOrder(t)
    ensures InOrder(Plug(c, s)) == InOrder(Plug(c, t))
  {
    match c
    case Top =>
    case InLeft(up, n, v, h, r) =>
      PlugInOrder(up, Br(s, n, v, h, r), Br(t, n, v, h, r));
    case InRight(l, n, v, h, up) =>
      PlugInOrder(up, Br(l, n, v, h, s), Br(l, n, v, h, t));
  }

  /** Climbing through a concatenated context climbs through the inner one first. */
  lemma {:induction false} ClimbCat(i: Ctx, o: Ctx, t: Shape)
    ensures Climb(Cat(i, o), t) == Climb(o, Climb(i, t))
  {
    match i
    case Top =>
    case InLeft(up, n, v, h, r) =>
      ClimbCat(up, o, Bal(Br(t, n, v, h, r)));
    case InRight(l, n, v, h, up) =>
      ClimbCat(up, o, Bal(Br(l, n, v, h, t)));
  }

  /** Recursive insertion below a search path is the insertion into the subtree followed by the
      walk up from it. */
  lemma {:induction false} PlugIns(c: Ctx, s: Shape, n: Node, x: Contact)
    requires OnPath(c, x.name)
    ensures Ins(Plug(c, s), n, x) == Climb(c, Ins(s, n, x))
  {
    match c
    case Top =>
    case InLeft(up, m, v, h, r) =>
      LessIrreflexive(x.name);
      PlugIns(up, Br(s, m, v, h, r), n, x);
    case InRight(l, m, v, h, up) =>
      PlugIns(up, Br(l, m, v, h, s), n, x);
  }

  lemma {:induction false} PlugDel(c: Ctx, s: Shape, k: string)
    requires OnPath(c, k)
    ensures Del(Plug(c, s), k) == Climb(c, Del(s, k))
  {
    match c
    case Top =>
    case InLeft(up, m, v, h, r) =>
      LessIrreflexive(k);
      PlugDel(up, Br(s, m, v, h, r), k);
    case InRight(l, m, v, h, up) =>
      PlugDel(up, Br(l, m, v, h, s), k);
  }

  lemma {:induction false} PlugFind(c: Ctx, s: Shape, k: string)
    requires OnPath(c, k)
    ensures Find(Plug(c, s), k) == Find(s, k)
  {
    match c
    case Top =>
    case InLeft(up, m, v, h, r) =>
      LessIrreflexive(k);
      PlugFind(up, Br(s, m, v, h, r), k);
    case InRight(l, m, v, h, up) =>
      PlugFind(up, Br(l, m, v, h, s), k);
  }

  /** Removing the leftmost node below a left spine and rebalancing the spine is the walk up
      from where that node was. */
  lemma {:induction false} SpineDelMin(c: Ctx, s: Shape)
    requires LeftSpine(c) && s.Br?
    ensures Plug(c, s).Br? && DelMin(Plug(c, s)) == Climb(c, DelMin(s))
  {
    match c
    case Top =>
    case InLeft(up, n, v, h, r) =>
      SpineDelMin(up, Br(s, n, v, h, r));
  }

  /** An AVL insertion is the new leaf hung at the end of the search path followed by the walk
      up from its parent. */
  lemma InsertClimb(c: Ctx, sub: Shape, n: Node, x: Contact)
    requires Ordered(Plug(c, sub)) && OnPath(c, x.name) && sub.Br? && x.name != sub.value.name
    requires if Less(x.name, sub.value.name) then sub.left.Nil? else sub.right.Nil?
    ensures var s, d := Plug(c, sub), Down(c, sub, Less(x.name, sub.value.name));
      && Lookup(s, x.name).None? && x.name !in Names(s)
      && AvlInsert(s, n, x) == Climb(d, Leaf(n, x))
      && Plug(d, Leaf(n, x)) == ShapeInsert(s, n, x)
  {
    var left := Less(x.name, sub.value.name);
    var d := Down(c, sub, left);
    assert OnPath(d, x.name);
    PlugIns(d, if left then sub.left else sub.right, n, x);
    HangLeaf(c, sub, n, x, left);
    LookupContent(Plug(c, sub), x.name);
    ContentNames(Plug(c, sub));
  }

  /** A deletion is the removal of the found node (a splice, or a successor copy and splice)
      followed by the walk up from the node above the hole it leaves. */
  lemma DeleteClimb(c: Ctx, sub: Shape, k: string)
    requires OnPath(c, k) && sub.Br? && k == sub.value.name && (sub.left.Nil? || sub.right.Nil?)
    ensures Del(Plug(c, sub), k) == Climb(c, OnlyChild(sub))
  {
    PlugDel(c, sub, k);
  }

  lemma SuccessorClimb(c: Ctx, sub: Shape, k: string, spine: Ctx, min: Shape)
    requires OnPath(c, k) && sub.Br? && k == sub.value.name && sub.left.Br?
    requires Plug(spine, min) == sub.right && LeftSpine(spine) && min.Br? && min.left.Nil?
    ensures Del(Plug(c, sub), k) == Climb(Cat(spine, InRight(sub.left, sub.node, min.value, sub.height, c)), min.right)
  {
    PlugDel(c, sub, k);
    SpineDelMin(spine, min);
    PlugMin(spine, min);
    ClimbCat(spine, InRight(sub.left, sub.node, min.value, sub.height, c), min.right);
  }

  // ---------------------------------------------------------------------------------------
  // What insertion and deletion do to the stored contacts.

  /** AVL insertion keeps the order; it adds the contact under its name exactly when the name
      is absent, and then adds one node. */
  lemma AvlInsertContent(s: Shape, n: Node, x: Contact)
    requires Ordered(s)
    ensures Ordered(AvlInsert(s, n, x))
    ensures x.name in Names(s) ==> AvlInsert(s, n, x) == s
    ensures x.name !in Names(s) ==> Content(AvlInsert(s, n, x)) == Content(s)[x.name := x]
    ensures x.name !in Names(s) ==> Nodes(AvlInsert(s, n, x)) == Nodes(s) + {n}
    ensures Names(AvlInsert(s, n, x)) == Names(s) + {x.name}
    ensures Size(AvlInsert(s, n, x)) == Size(s) + (if x.name in Names(s) then 0 else 1)
  {
    LookupContent(s, x.name);
    ContentNames(s);
    if x.name !in Names(s) {
      InsertContent(s, n, x);
      InsertSize(s, n, x);
      InOrderDetermines(ShapeInsert(s, n, x), Ins(s, n, x));
    }
  }

  /** Deletion with rebalancing keeps the order and removes exactly the name. */
  lemma AvlDeleteContent(s: Shape, k: string)
    requires Ordered(s)
    ensures Ordered(AvlDelete(s, k))
    ensures Names(AvlDelete(s, k)) == Names(s) - {k}
    ensures Content(AvlDelete(s, k)) == Content(s) - {k}
    ensures Size(AvlDelete(s, k)) == Size(s) - (if k in Names(s) then 1 else 0)
    ensures Nodes(AvlDelete(s, k)) <= Nodes(s)
    ensures k !in Names(s) ==> AvlDelete(s, k) == s
  {
    LookupContent(s, k);
    ContentNames(s);
    DeleteOrder(s, k);
    DeleteContent(s, k);
    InOrderDetermines(ShapeDelete(s, k), Del(s, k));
  }

  /** The same for deletion that rebalances only after a two-child removal. */
  lemma PartialDeleteContent(s: Shape, k: string)
    requires Ordered(s)
    ensures Ordered(PartialDelete(s, k))
    ensures Names(PartialDelete(s, k)) == Names(s) - {k}
    ensures Content(PartialDelete(s, k)) == Content(s) - {k}
    ensures Size(PartialDelete(s, k)) == Size(s) - (if k in Names(s) then 1 else 0)
    ensures Nodes(PartialDelete(s, k)) <= Nodes(s)
    ensures k !in Names(s) ==> PartialDelete(s, k) == s
  {
    LookupContent(s, k);
    ContentNames(s);
    DeleteOrder(s, k);
    DeleteContent(s, k);
    InOrderDetermines(ShapeDelete(s, k), Del(s, k));
  }

  /** Where the search of a deletion stops: the name is stored exactly when the search ends at
      a node holding it, and otherwise the deletion leaves the tree as it is. */
  lemma DeleteSearch(c: Ctx, sub: Shape, k: string)
    requires Ordered(Plug(c, sub)) && OnPath(c, k) && sub.Br?
    requires k == sub.value.name || (if Less(k, sub.value.name) then sub.left.Nil? else sub.right.Nil?)
    ensures var s := Plug(c, sub);
      && (Lookup(s, k).Some? <==> k == sub.value.name)
      && (k != sub.value.name ==> PartialDelete(s, k) == s)
      && Ordered(PartialDelete(s, k))
      && Size(PartialDelete(s, k)) == Size(s) - (if k == sub.value.name then 1 else 0)
  {
    var s := Plug(c, sub);
    PlugLookup(c, sub, k);
    LookupContent(s, k);
    ContentNames(s);
    PartialDeleteContent(s, k);
  }

  /** The same for the deletion that rebalances after every removal: the search finds the
      contact exactly when it ends at a node holding the name, and the deletion is then `Del`. */
  lemma DeleteFound(c: Ctx, sub: Shape, k: string)
    requires Ordered(Plug(c, sub)) && OnPath(c, k) && sub.Br?
    requires k == sub.value.name || (if Less(k, sub.value.name) then sub.left.Nil? else sub.right.Nil?)
    ensures var s := Plug(c, sub);
      && Lookup(s, k) == (if k == sub.value.name then Some(sub.value) else None)
      && AvlDelete(s, k) == (if k == sub.value.name then Del(s, k) else s)
      && Ordered(AvlDelete(s, k))
      && Size(AvlDelete(s, k)) == Size(s) - (if k == sub.value.name then 1 else 0)
  {
    var s := Plug(c, sub);
    PlugLookup(c, sub, k);
    LookupContent(s, k);
    ContentNames(s);
    AvlDeleteContent(s, k);
  }
}
