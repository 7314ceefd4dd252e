/** The unbalanced binary search tree, as pure functions on shapes: the search path, insertion of
    a leaf at the end of the path, and deletion with the in-order successor's value copied into a
    node with two children. The tree classes are proved against these functions. */
module SearchTrees {
  import opened Contacts
  import opened Shapes

  /** The value found by walking from the root by the name order, or `None` at a missing child. */
  ghost function Lookup(s: Shape, k: string): Option<Contact> {
    if s.Nil? then None
    else if k == s.value.name then Some(s.value)
    else if Less(k, s.value.name) then Lookup(s.left, k)
    else Lookup(s.right, k)
  }

  /** A single leaf holding `c`. */
  function Leaf(n: Node, c: Contact): Shape {
    Br(Nil, n, c, 1, Nil)
  }

  /** Insertion as the search loop does it: an equal name stops with no change, otherwise the new
      node becomes the missing child at the end of the search path. */
  ghost function ShapeInsert(s: Shape, n: Node, c: Contact): Shape {
    if s.Nil? then Leaf(n, c)
    else if c.name == s.value.name then s
    else if Less(c.name, s.value.name) then Br(ShapeInsert(s.left, n, c), s.node, s.value, s.height, s.right)
    else Br(s.left, s.node, s.value, s.height, ShapeInsert(s.right, n, c))
  }

  /** The leftmost value of a subtree: the in-order successor when the subtree is a right child. */
  ghost function MinValue(s: Shape): Contact
    requires s.Br?
  {
    if s.left.Nil? then s.value else MinValue(s.left)
  }

  /** The subtree with its leftmost node spliced out (replaced by that node's right subtree). */
  ghost function DeleteMin(s: Shape): Shape
    requires s.Br?
  {
    if s.left.Nil? then s.right else Br(DeleteMin(s.left), s.node, s.value, s.height, s.right)
  }

  /** Removal of the root of `s`: a leaf disappears, a node with one child is replaced by that
      child, and a node with two children keeps its place and takes its successor's value. */
  ghost function RemoveRoot(s: Shape): Shape
    requires s.Br?
  {
    if s.left.Nil? && s.right.Nil? then Nil
    else if s.left.Nil? then s.right
    else if s.right.Nil? then s.left
    else Br(s.left, s.node, MinValue(s.right), s.height, DeleteMin(s.right))
  }

  ghost function ShapeDelete(s: Shape, k: string): Shape {
    if s.Nil? then Nil
    else if k == s.value.name then RemoveRoot(s)
    else if Less(k, s.value.name) then Br(ShapeDelete(s.left, k), s.node, s.value, s.height, s.right)
    else Br(s.left, s.node, s.value, s.height, ShapeDelete(s.right, k))
  }

  /** The context is a prefix of the search path for `k`: `k` went left exactly where it is
      smaller and right exactly where it is neither equal nor smaller. */
  ghost predicate OnPath(c: Ctx, k: string) {
    match c
    case Top => true
    case InLeft(up, _, v, _, _) => Less(k, v.name) && OnPath(up, k)
    case InRight(_, _, v, _, up) => k != v.name && !Less(k, v.name) && OnPath(up, k)
  }

  /** A context made of left steps only: the path to a leftmost node. */
  ghost predicate LeftSpine(c: Ctx) {
    match c
    case Top => true
    case InLeft(up, _, _, _, _) => LeftSpine(up)
    case InRight(_, _, _, _, _) => false
  }

  // ---------------------------------------------------------------------------------------
  // Walking down a search path commutes with the operations.

  lemma {:induction false} PlugLookup(c: Ctx, s: Shape, k: string)
    requires OnPath(c, k)
    ensures Lookup(Plug(c, s), k) == Lookup(s, k)
  {
    match c
    case Top =>
    case InLeft(up, n, v, h, r) =>
      LessIrreflexive(k);
      PlugLookup(up, Br(s, n, v, h, r), k);
    case InRight(l, n, v, h, up) =>
      PlugLookup(up, Br(l, n, v, h, s), k);
  }

  lemma {:induction false} PlugInsert(c: Ctx, s: Shape, n: Node, x: Contact)
    requires OnPath(c, x.name)
    ensures ShapeInsert(Plug(c, s), n, x) == Plug(c, ShapeInsert(s, n, x))
  {
    match c
    case Top =>
    case InLeft(up, m, v, h, r) =>
      LessIrreflexive(x.name);
      PlugInsert(up, Br(s, m, v, h, r), n, x);
    case InRight(l, m, v, h, up) =>
      PlugInsert(up, Br(l, m, v, h, s), n, x);
  }

  lemma {:induction false} PlugDelete(c: Ctx, s: Shape, k: string)
    requires OnPath(c, k)
    ensures ShapeDelete(Plug(c, s), k) == Plug(c, ShapeDelete(s, k))
  {
    match c
    case Top =>
    case InLeft(up, m, v, h, r) =>
      LessIrreflexive(k);
      PlugDelete(up, Br(s, m, v, h, r), k);
    case InRight(l, m, v, h, up) =>
      PlugDelete(up, Br(l, m, v, h, s), k);
  }

  /** Along a left spine the minimum is the minimum of the subtree below, and removing it only
      changes that subtree. */
  lemma {:induction false} PlugMin(c: Ctx, s: Shape)
    requires LeftSpine(c) && s.Br?
    ensures Plug(c, s).Br?
    ensures MinValue(Plug(c, s)) == MinValue(s)
    ensures DeleteMin(Plug(c, s)) == Plug(c, DeleteMin(s))
  {
    match c
    case Top =>
    case InLeft(up, m, w, g, rr) =>
      PlugMin(up, Br(s, m, w, g, rr));
  }

  /** The search for `x.name` ended at a missing child of the root of `sub`, the last node of
      the path: hanging the new leaf there is the insertion, and it adds the name. */
  lemma HangLeaf(c: Ctx, sub: Shape, n: Node, x: Contact, left: bool)
    requires Ordered(Plug(c, sub)) && OnPath(c, x.name) && sub.Br? && x.name != sub.value.name
    requires left == Less(x.name, sub.value.name)
    requires if left then sub.left.Nil? else sub.right.Nil?
    ensures ShapeInsert(Plug(c, sub), n, x) == Plug(Down(c, sub, left), Leaf(n, x))
    ensures Lookup(Plug(c, sub), x.name).None?
    ensures Ordered(ShapeInsert(Plug(c, sub), n, x))
    ensures Size(ShapeInsert(Plug(c, sub), n, x)) == Size(Plug(c, sub)) + 1
    ensures Root(ShapeInsert(Plug(c, sub), n, x)) == Root(Plug(c, sub))
  {
    var s := Plug(c, sub);
    PlugInsert(c, sub, n, x);
    PlugLookup(c, sub, x.name);
    LookupContent(s, x.name);
    ContentNames(s);
    InsertContent(s, n, x);
    InsertSize(s, n, x);
    if !c.Top? { PlugRoot(c, sub, ShapeInsert(sub, n, x)); }
  }

  // ---------------------------------------------------------------------------------------
  // What the operations mean for the stored contacts.

  lemma {:induction false} ContentNames(s: Shape)
    ensures Content(s).Keys == Names(s)
    ensures forall k :: k in Content(s) ==> Content(s)[k].name == k
  {
    if s.Br? {
      ContentNames(s.left);
      ContentNames(s.right);
    }
  }

  /** The root's name separates the two subtrees of an ordered tree. */
  lemma OrderedRoot(s: Shape)
    requires Ordered(s) && s.Br?
    ensures s.value.name !in Names(s.left) && s.value.name !in Names(s.right)
    ensures Names(s.left) !! Names(s.right)
  {
    var v := s.value.name;
    LessIrreflexive(v);
    forall k | k in Names(s.left) && k in Names(s.right) ensures false {
      LessTransitive(k, v, k);
      LessIrreflexive(k);
    }
  }

  /** Search finds exactly the contact stored under the name, and nothing for an absent name. */
  lemma {:induction false} LookupContent(s: Shape, k: string)
    requires Ordered(s)
    ensures Lookup(s, k) == if k in Content(s) then Some(Content(s)[k]) else None
  {
    if s.Br? {
      var v := s.value.name;
      ContentNames(s.left);
      ContentNames(s.right);
      if k == v {
      } else if Less(k, v) {
        LookupContent(s.left, k);
        LessAsymmetric(k, v);
      } else {
        LessTotal(k, v);
        LookupContent(s.right, k);
      }
    }
  }

  // Map identities for the three parts of `Content`: left, right, root.

  lemma UpdateLeft(a: map<string, Contact>, b: map<string, Contact>, v: Contact, c: Contact)
    requires c.name !in b && c.name != v.name
    ensures a[c.name := c] + b + map[v.name := v] == (a + b + map[v.name := v])[c.name := c]
  {
  }

  lemma UpdateRight(a: map<string, Contact>, b: map<string, Contact>, v: Contact, c: Contact)
    requires c.name != v.name
    ensures a + b[c.name := c] + map[v.name := v] == (a + b + map[v.name := v])[c.name := c]
  {
  }

  lemma RemoveLeft(a: map<string, Contact>, b: map<string, Contact>, v: Contact, k: string)
    requires k !in b && k != v.name
    ensures (a - {k}) + b + map[v.name := v] == (a + b + map[v.name := v]) - {k}
  {
  }

  lemma RemoveRight(a: map<string, Contact>, b: map<string, Contact>, v: Contact, k: string)
    requires k !in a && k != v.name
    ensures a + (b - {k}) + map[v.name := v] == (a + b + map[v.name := v]) - {k}
  {
  }

  lemma ReplaceRoot(a: map<string, Contact>, b: map<string, Contact>, v: Contact, m: Contact)
    requires v.name !in a && v.name !in b && m.name !in a && m.name in b && b[m.name] == m
    ensures a + (b - {m.name}) + map[m.name := m] == (a + b + map[v.name := v]) - {v.name}
  {
  }

  lemma DropRootOnlyRight(b: map<string, Contact>, v: Contact)
    requires v.name !in b
    ensures (map[] + b + map[v.name := v]) - {v.name} == b
  {
  }

  lemma DropRootOnlyLeft(a: map<string, Contact>, v: Contact)
    requires v.name !in a
    ensures (a + map[] + map[v.name := v]) - {v.name} == a
  {
  }

  lemma LeftEntry(a: map<string, Contact>, b: map<string, Contact>, v: Contact, k: string)
    requires k in a && k !in b && k != v.name
    ensures k in a + b + map[v.name := v] && (a + b + map[v.name := v])[k] == a[k]
  {
  }

  lemma RightEntry(a: map<string, Contact>, b: map<string, Contact>, v: Contact, k: string)
    requires k in b && k != v.name
    ensures k in a + b + map[v.name := v] && (a + b + map[v.name := v])[k] == b[k]
  {
  }

  /** An insert changes nothing exactly when the name is already on the search path, and
      otherwise adds one node. */
  lemma {:induction false} InsertSize(s: Shape, n: Node, c: Contact)
    ensures Lookup(s, c.name).Some? ==> ShapeInsert(s, n, c) == s
    ensures Size(ShapeInsert(s, n, c)) == Size(s) + (if Lookup(s, c.name).Some? then 0 else 1)
  {
    if s.Br? && c.name != s.value.name {
      if Less(c.name, s.value.name) {
        InsertSize(s.left, n, c);
      } else {
        InsertSize(s.right, n, c);
      }
    }
  }

  /** Inserting an absent name keeps the order, adds the contact under its name and adds the
      one new node. */
  lemma {:induction false} InsertContent(s: Shape, n: Node, c: Contact)
    requires Ordered(s) && c.name !in Names(s)
    ensures Ordered(ShapeInsert(s, n, c))
    ensures Names(ShapeInsert(s, n, c)) == Names(s) + {c.name}
    ensures Content(ShapeInsert(s, n, c)) == Content(s)[c.name := c]
    ensures Nodes(ShapeInsert(s, n, c)) == Nodes(s) + {n}
  {
    if s.Br? {
      var v := s.value.name;
      ContentNames(s.left);
      ContentNames(s.right);
      if Less(c.name, v) {
        InsertContent(s.left, n, c);
        UpdateLeft(Content(s.left), Content(s.right), s.value, c);
      } else {
        LessTotal(c.name, v);
        InsertContent(s.right, n, c);
        UpdateRight(Content(s.left), Content(s.right), s.value, c);
      }
    }
  }

  /** The minimum of an ordered tree is one of its names and below every other name, and
      removing it removes exactly that name and keeps the order. */
  lemma {:induction false} MinOrder(s: Shape)
    requires Ordered(s) && s.Br?
    ensures MinValue(s).name in Names(s)
    ensures forall k :: k in Names(s) && k != MinValue(s).name ==> Less(MinValue(s).name, k)
    ensures Ordered(DeleteMin(s))
    ensures Names(DeleteMin(s)) == Names(s) - {MinValue(s).name}
    ensures Size(DeleteMin(s)) == Size(s) - 1
    ensures Nodes(DeleteMin(s)) <= Nodes(s)
  {
    var v := s.value.name;
    OrderedRoot(s);
    if s.left.Br? {
      MinOrder(s.left);
      var m := MinValue(s.left).name;
      forall k | k in Names(s.right) ensures Less(m, k) {
        LessTransitive(m, v, k);
      }
    }
  }

  /** The minimum is stored under its name, and removing it removes exactly that entry. */
  lemma {:induction false} MinContent(s: Shape)
    requires Ordered(s) && s.Br?
    ensures MinValue(s).name in Content(s) && Content(s)[MinValue(s).name] == MinValue(s)
    ensures Content(DeleteMin(s)) == Content(s) - {MinValue(s).name}
  {
    OrderedRoot(s);
    ContentNames(s.left);
    ContentNames(s.right);
    if s.left.Br? {
      MinContent(s.left);
      MinOrder(s.left);
      var m := MinValue(s.left).name;
      LessAsymmetric(m, s.value.name);
      LeftEntry(Content(s.left), Content(s.right), s.value, m);
      RemoveLeft(Content(s.left), Content(s.right), s.value, m);
    } else {
      DropRootOnlyRight(Content(s.right), s.value);
    }
  }

  /** Removing the root of an ordered tree removes exactly its name and keeps the order. */
  lemma RemoveRootOrder(s: Shape)
    requires Ordered(s) && s.Br?
    ensures Ordered(RemoveRoot(s))
    ensures Names(RemoveRoot(s)) == Names(s) - {s.value.name}
    ensures Size(RemoveRoot(s)) == Size(s) - 1
    ensures Nodes(RemoveRoot(s)) <= Nodes(s)
  {
    OrderedRoot(s);
    var v := s.value.name;
    if s.left.Nil? {
      assert Names(s) - {v} == Names(s.right);
    } else if s.right.Nil? {
      assert Names(s) - {v} == Names(s.left);
    } else {
      SuccessorOrder(s);
      NamesReplaceRoot(Names(s.left), Names(s.right), v, MinValue(s.right).name);
    }
  }

  lemma NamesReplaceRoot(a: set<string>, b: set<string>, v: string, m: string)
    requires v !in a && v !in b && m in b
    ensures a + {m} + (b - {m}) == (a + {v} + b) - {v}
  {
  }

  /** With two children, the successor's value fits between the left subtree and what remains of
      the right one. */
  lemma SuccessorOrder(s: Shape)
    requires Ordered(s) && s.Br? && s.left.Br? && s.right.Br?
    ensures Ordered(Br(s.left, s.node, MinValue(s.right), s.height, DeleteMin(s.right)))
    ensures MinValue(s.right).name in Names(s.right)
    ensures Names(DeleteMin(s.right)) == Names(s.right) - {MinValue(s.right).name}
    ensures Size(DeleteMin(s.right)) == Size(s.right) - 1
    ensures Nodes(DeleteMin(s.right)) <= Nodes(s.right)
  {
    var v := s.value.name;
    MinOrder(s.right);
    var m := MinValue(s.right).name;
    assert Less(v, m);
    forall k | k in Names(s.left) ensures Less(k, m) {
      LessTransitive(k, v, m);
    }
    forall k | k in Names(DeleteMin(s.right)) ensures Less(m, k) {
    }
  }

  lemma RemoveRootContent(s: Shape)
    requires Ordered(s) && s.Br?
    ensures Content(RemoveRoot(s)) == Content(s) - {s.value.name}
  {
    var v := s.value.name;
    OrderedRoot(s);
    ContentNames(s.left);
    ContentNames(s.right);
    if s.left.Nil? {
      DropRootOnlyRight(Content(s.right), s.value);
    } else if s.right.Nil? {
      DropRootOnlyLeft(Content(s.left), s.value);
    } else {
      MinOrder(s.right);
      MinContent(s.right);
      var m := MinValue(s.right);
      LessAsymmetric(v, m.name);
      ReplaceRoot(Content(s.left), Content(s.right), s.value, m);
    }
  }

  /** A name the search does not find is not deleted: the tree stays as it is. */
  lemma {:induction false} DeleteAbsent(s: Shape, k: string)
    ensures Lookup(s, k).None? ==> ShapeDelete(s, k) == s
  {
    if s.Br? && k != s.value.name {
      if Less(k, s.value.name) {
        DeleteAbsent(s.left, k);
      } else {
        DeleteAbsent(s.right, k);
      }
    }
  }

  /** Deleting a name keeps the order and removes exactly that name; an absent name changes
      nothing. */
  lemma {:induction false} DeleteOrder(s: Shape, k: string)
    requires Ordered(s)
    ensures Ordered(ShapeDelete(s, k))
    ensures Names(ShapeDelete(s, k)) == Names(s) - {k}
    ensures Size(ShapeDelete(s, k)) == Size(s) - (if k in Names(s) then 1 else 0)
    ensures Nodes(ShapeDelete(s, k)) <= Nodes(s)
    ensures k !in Names(s) ==> ShapeDelete(s, k) == s
  {
    if s.Br? {
      var v := s.value.name;
      OrderedRoot(s);
      if k == v {
        RemoveRootOrder(s);
      } else if Less(k, v) {
        DeleteOrder(s.left, k);
        LessAsymmetric(k, v);
      } else {
        LessTotal(k, v);
        DeleteOrder(s.right, k);
      }
    }
  }

  lemma {:induction false} DeleteContent(s: Shape, k: string)
    requires Ordered(s)
    ensures Content(ShapeDelete(s, k)) == Content(s) - {k}
  {
    if s.Br? {
      var v := s.value.name;
      OrderedRoot(s);
      ContentNames(s.left);
      ContentNames(s.right);
      if k == v {
        RemoveRootContent(s);
      } else if Less(k, v) {
        DeleteContent(s.left, k);
        LessAsymmetric(k, v);
        RemoveLeft(Content(s.left), Content(s.right), s.value, k);
      } else {
        LessTotal(k, v);
        DeleteContent(s.right, k);
        RemoveRight(Content(s.left), Content(s.right), s.value, k);
      }
    }
  }
}
