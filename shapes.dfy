/** The node objects shared by the four trees, and the ghost `Shape` that describes the part of
    the heap reachable from a tree's root. A shape determines, for every node in it, what the
    node's fields hold (`Views`); the heap agrees with the shape when every node holds its view. */
module Shapes {
  import opened Contacts

  /** Stored heights are at least 1: a fresh node has height 1 and every update is 1 + max(...). */
  type Height = h: int | h >= 1 witness 1

  class Node {
    var value: Contact
    var left: Node?
    var right: Node?
    var parent: Node?
    var height: int

    constructor (v: Contact)
      ensures value == v && left == null && right == null && parent == null && height == 1
    {
      value := v;
      left := null;
      right := null;
      parent := null;
      height := 1;
    }
  }

  datatype Shape = Nil | Br(left: Shape, node: Node, value: Contact, height: Height, right: Shape)

  function Root(s: Shape): (r: Node?)
    ensures r == null <==> s.Nil?
  {
    if s.Nil? then null else s.node
  }

  /** `getHeight`: the stored height, 0 for an absent subtree. */
  function H(s: Shape): (h: int)
    ensures h >= 0 && (h == 0 <==> s.Nil?)
  {
    if s.Nil? then 0 else s.height
  }

  ghost function Nodes(s: Shape): set<Node> {
    if s.Nil? then {} else Nodes(s.left) + {s.node} + Nodes(s.right)
  }

  function Size(s: Shape): nat {
    if s.Nil? then 0 else Size(s.left) + 1 + Size(s.right)
  }

  /** The in-order sequence of stored contacts. */
  ghost function InOrder(s: Shape): seq<Contact> {
    if s.Nil? then [] else InOrder(s.left) + [s.value] + InOrder(s.right)
  }

  ghost function Names(s: Shape): set<string> {
    if s.Nil? then {} else Names(s.left) + {s.value.name} + Names(s.right)
  }

  /** The stored contacts by name. */
  ghost function Content(s: Shape): map<string, Contact> {
    if s.Nil? then map[] else Content(s.left) + Content(s.right) + map[s.value.name := s.value]
  }

  /** Binary-search-tree order: every name on the left is smaller, every name on the right larger. */
  ghost predicate Ordered(s: Shape) {
    s.Br? ==>
      && Ordered(s.left) && Ordered(s.right)
      && (forall k :: k in Names(s.left) ==> Less(k, s.value.name))
      && (forall k :: k in Names(s.right) ==> Less(s.value.name, k))
  }

  /** No node occurs twice. */
  ghost predicate Distinct(s: Shape) {
    s.Br? ==>
      && Distinct(s.left) && Distinct(s.right)
      && s.node !in Nodes(s.left) && s.node !in Nodes(s.right) && Nodes(s.left) !! Nodes(s.right)
  }

  // ---------------------------------------------------------------------------------------
  // Contexts: a path from the root down to a hole.

  /** Each step records the node passed and the sibling subtree that was not entered. */
  datatype Ctx =
    | Top
    | InLeft(up: Ctx, node: Node, value: Contact, height: Height, right: Shape)
    | InRight(left: Shape, node: Node, value: Contact, height: Height, up: Ctx)

  /** The tree obtained by putting `s` into the hole of `c`. */
  function Plug(c: Ctx, s: Shape): Shape {
    match c
    case Top => s
    case InLeft(up, n, v, h, r) => Plug(up, Br(s, n, v, h, r))
    case InRight(l, n, v, h, up) => Plug(up, Br(l, n, v, h, s))
  }

  /** The context one step below the root of `s`, towards its left or its right child. */
  function Down(c: Ctx, s: Shape, left: bool): (d: Ctx)
    requires s.Br?
    ensures Plug(d, if left then s.left else s.right) == Plug(c, s)
  {
    if left then InLeft(c, s.node, s.value, s.height, s.right)
    else InRight(s.left, s.node, s.value, s.height, c)
  }

  /** The node right above the hole; `top` when the context is empty. */
  function HoleParent(c: Ctx, top: Node?): Node? {
    if c.Top? then top else c.node
  }

  /** The context `i` placed in the hole of the context `o`. */
  function Cat(i: Ctx, o: Ctx): Ctx {
    match i
    case Top => o
    case InLeft(up, n, v, h, r) => InLeft(Cat(up, o), n, v, h, r)
    case InRight(l, n, v, h, up) => InRight(l, n, v, h, Cat(up, o))
  }

  /** The tree with the value at the root of `s` replaced by `x`. */
  function WithValue(s: Shape, x: Contact): Shape
    requires s.Br?
  {
    Br(s.left, s.node, x, s.height, s.right)
  }

  /** The only child of a node with at most one (`Nil` for a leaf). */
  function OnlyChild(s: Shape): Shape
    requires s.Br?
  {
    if s.left.Nil? then s.right else s.left
  }

  ghost function CtxNodes(c: Ctx): set<Node> {
    match c
    case Top => {}
    case InLeft(up, n, _, _, r) => CtxNodes(up) + {n} + Nodes(r)
    case InRight(l, n, _, _, up) => CtxNodes(up) + {n} + Nodes(l)
  }

  // ---------------------------------------------------------------------------------------
  // Lemmas about nodes and contexts.

  /** The nodes of a shape held in the heap are allocated, so a node created later is not
      among them. */
  lemma {:induction false} NodesAllocated(s: Shape)
    ensures forall x :: x in Nodes(s) ==> allocated(x)
  {
    if s.Br? {
      NodesAllocated(s.left);
      NodesAllocated(s.right);
    }
  }

  lemma {:induction false} PlugNodes(c: Ctx, s: Shape)
    ensures Nodes(Plug(c, s)) == CtxNodes(c) + Nodes(s)
  {
    match c
    case Top =>
    case InLeft(up, n, v, h, r) =>
      PlugNodes(up, Br(s, n, v, h, r));
    case InRight(l, n, v, h, up) =>
      PlugNodes(up, Br(l, n, v, h, s));
  }

  /** A subtree of a tree without repeated nodes has none either, and shares none with its
      context; a replacement with the same property keeps the whole tree so. */
  lemma {:induction false} PlugDistinct(c: Ctx, s: Shape, t: Shape)
    requires Distinct(Plug(c, s))
    ensures Distinct(s) && Nodes(s) !! CtxNodes(c)
    ensures Distinct(t) && Nodes(t) !! CtxNodes(c) ==> Distinct(Plug(c, t))
  {
    match c
    case Top =>
    case InLeft(up, n, v, h, r) =>
      PlugDistinct(up, Br(s, n, v, h, r), Br(t, n, v, h, r));
    case InRight(l, n, v, h, up) =>
      PlugDistinct(up, Br(l, n, v, h, s), Br(l, n, v, h, t));
  }

  /** Below a non-empty context the root does not depend on what fills the hole. */
  lemma {:induction false} PlugRoot(c: Ctx, s: Shape, t: Shape)
    requires !c.Top?
    ensures Plug(c, s).Br? && Root(Plug(c, s)) == Root(Plug(c, t))
  {
    match c
    case InLeft(up, n, v, h, r) =>
      if !up.Top? { PlugRoot(up, Br(s, n, v, h, r), Br(t, n, v, h, r)); }
    case InRight(l, n, v, h, up) =>
      if !up.Top? { PlugRoot(up, Br(l, n, v, h, s), Br(l, n, v, h, t)); }
  }

  /** Filling the hole one step below the root of `s` keeps the root of the whole tree. */
  lemma PlugRootSame(c: Ctx, s: Shape, t: Shape, left: bool)
    requires s.Br?
    ensures Root(Plug(Down(c, s, left), t)) == Root(Plug(c, s))
  {
    var s' := if left then Br(t, s.node, s.value, s.height, s.right) else Br(s.left, s.node, s.value, s.height, t);
    assert Plug(Down(c, s, left), t) == Plug(c, s');
    if !c.Top? {
      PlugRoot(c, s, s');
    }
  }

  /** Plugging into a concatenated context plugs into the inner one first. */
  lemma {:induction false} PlugCat(i: Ctx, o: Ctx, s: Shape, top: Node?)
    ensures Plug(Cat(i, o), s) == Plug(o, Plug(i, s))
    ensures HoleParent(Cat(i, o), top) == HoleParent(i, HoleParent(o, top))
  {
    match i
    case Top =>
    case InLeft(up, n, v, h, r) =>
      PlugCat(up, o, Br(s, n, v, h, r), top);
    case InRight(l, n, v, h, up) =>
      PlugCat(up, o, Br(l, n, v, h, s), top);
  }

  lemma {:induction false} SizeInOrder(s: Shape)
    ensures |InOrder(s)| == Size(s)
  {
    if s.Br? {
      SizeInOrder(s.left);
      SizeInOrder(s.right);
    }
  }

  /** The in-order sequence of an ordered tree is strictly increasing by name. */
  lemma {:induction false} OrderedInOrderSorted(s: Shape)
    requires Ordered(s)
    ensures forall i, j :: 0 <= i < j < |InOrder(s)| ==> Less(InOrder(s)[i].name, InOrder(s)[j].name)
    ensures forall i :: 0 <= i < |InOrder(s)| ==> InOrder(s)[i].name in Names(s)
  {
    if s.Br? {
      OrderedInOrderSorted(s.left);
      OrderedInOrderSorted(s.right);
      var a, b := InOrder(s.left), InOrder(s.right);
      var q := InOrder(s);
      assert q == a + [s.value] + b;
      forall i, j | 0 <= i < j < |q| ensures Less(q[i].name, q[j].name) {
        if j < |a| {
        } else if i < |a| && j == |a| {
          assert q[i] == a[i];
        } else if i < |a| {
          assert q[i] == a[i] && q[j] == b[j - |a| - 1];
          LessTransitive(q[i].name, s.value.name, q[j].name);
        } else if i == |a| {
          assert q[j] == b[j - |a| - 1];
        } else {
          assert q[i] == b[i - |a| - 1] && q[j] == b[j - |a| - 1];
        }
      }
      forall i | 0 <= i < |q| ensures q[i].name in Names(s) {
        if i < |a| { assert q[i] == a[i]; }
        else if i > |a| { assert q[i] == b[i - |a| - 1]; }
      }
    }
  }
}
