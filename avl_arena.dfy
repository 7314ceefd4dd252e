/** `insert` of `backend/data-structures/AVLTree.js` as written, on a value model of its heap:
    the nodes are records in a sequence and every link is an index into it, `Null` (-1) for
    `null`. Each field write of the source is one update of the sequence, in the source's
    order. Its walk up the tree redirects only `this.root` after a rotation, never the link
    from the rotated node's parent, so a rotation below the root cuts the new subtree root and
    everything beneath it out of the tree. `LosesNodes` exhibits that. */
module AvlArena {
  import opened Contacts
  import AvlShapes

  const Null := -1

  /** The fields of one node: `value`, `left`, `right`, `parent`, `height`. */
  datatype Rec = Rec(value: Contact, left: int, right: int, parent: int, height: int)

  /** The nodes, the index of `this.root` and `this.size`. */
  datatype Arena = Arena(nodes: seq<Rec>, root: int, size: int)

  /** What the search loop of `insert` ends with. */
  datatype Place = Duplicate | Under(parent: int, left: bool) | Exhausted

  predicate Ref(a: seq<Rec>, i: int) {
    i == Null || 0 <= i < |a|
  }

  /** Every link leads to a node of the arena or to `null`, and no height is negative. */
  predicate Linked(a: seq<Rec>) {
    forall i :: 0 <= i < |a| ==> Ref(a, a[i].left) && Ref(a, a[i].right) && Ref(a, a[i].parent) && a[i].height >= 0
  }

  predicate WellFormed(t: Arena) {
    Linked(t.nodes) && Ref(t.nodes, t.root)
  }

  /** `getHeight(node)`: 0 for `null`. */
  function GetHeight(a: seq<Rec>, i: int): (h: int)
    requires Linked(a) && Ref(a, i)
    ensures h >= 0 && (i == Null ==> h == 0)
  {
    if i == Null then 0 else a[i].height
  }

  /** `updateHeight(node)`. */
  function UpdateHeight(a: seq<Rec>, i: int): (r: seq<Rec>)
    requires Linked(a) && 0 <= i < |a|
    ensures Linked(r) && |r| == |a|
    ensures r[i].height == 1 + AvlShapes.Max(GetHeight(a, a[i].left), GetHeight(a, a[i].right))
    ensures forall j :: 0 <= j < |a| && j != i ==> r[j] == a[j]
    ensures r[i] == a[i].(height := r[i].height)
  {
    a[i := a[i].(height := 1 + AvlShapes.Max(GetHeight(a, a[i].left), GetHeight(a, a[i].right)))]
  }

  /** `getBalanceFactor(node)`. */
  function BalanceFactor(a: seq<Rec>, i: int): int
    requires Linked(a) && 0 <= i < |a|
  {
    GetHeight(a, a[i].left) - GetHeight(a, a[i].right)
  }

  /** Writes one link field of node `i`. */
  function SetLeft(a: seq<Rec>, i: int, j: int): (r: seq<Rec>)
    requires Linked(a) && 0 <= i < |a| && Ref(a, j)
    ensures Linked(r) && |r| == |a|
  {
    a[i := a[i].(left := j)]
  }

  function SetRight(a: seq<Rec>, i: int, j: int): (r: seq<Rec>)
    requires Linked(a) && 0 <= i < |a| && Ref(a, j)
    ensures Linked(r) && |r| == |a|
  {
    a[i := a[i].(right := j)]
  }

  function SetParent(a: seq<Rec>, i: int, j: int): (r: seq<Rec>)
    requires Linked(a) && 0 <= i < |a| && Ref(a, j)
    ensures Linked(r) && |r| == |a|
  {
    a[i := a[i].(parent := j)]
  }

  /** `rotateRight(y)`, returning the nodes after it and `x`, the former left child of `y`. The
      parent of `y` is not written. */
  function RotateRight(a: seq<Rec>, y: int): (r: (seq<Rec>, int))
    requires Linked(a) && 0 <= y < |a| && a[y].left != Null
    ensures Linked(r.0) && |r.0| == |a| && r.1 == a[y].left
  {
    var x := a[y].left;
    var t2 := a[x].right;
    var a1 := SetRight(a, x, y);
    var a2 := SetLeft(a1, y, t2);
    var a3 := if t2 != Null then SetParent(a2, t2, y) else a2;
    var a4 := SetParent(a3, x, a3[y].parent);
    var a5 := SetParent(a4, y, x);
    var a6 := UpdateHeight(a5, y);
    (UpdateHeight(a6, x), x)
  }

  /** `rotateLeft(x)`, returning the nodes after it and `y`, the former right child of `x`. */
  function RotateLeft(a: seq<Rec>, x: int): (r: (seq<Rec>, int))
    requires Linked(a) && 0 <= x < |a| && a[x].right != Null
    ensures Linked(r.0) && |r.0| == |a| && r.1 == a[x].right
  {
    var y := a[x].right;
    var t2 := a[y].left;
    var a1 := SetLeft(a, y, x);
    var a2 := SetRight(a1, x, t2);
    var a3 := if t2 != Null then SetParent(a2, t2, x) else a2;
    var a4 := SetParent(a3, y, a3[x].parent);
    var a5 := SetParent(a4, x, y);
    var a6 := UpdateHeight(a5, x);
    (UpdateHeight(a6, y), y)
  }

  /** `balance(node)`, returning the nodes after it and the root of the rebalanced subtree. */
  function Balance(a: seq<Rec>, node: int): (r: (seq<Rec>, int))
    requires Linked(a) && 0 <= node < |a|
    ensures Linked(r.0) && |r.0| == |a| && 0 <= r.1 < |a|
  {
    var a1 := UpdateHeight(a, node);
    var bf := BalanceFactor(a1, node);
    var l, rt := a1[node].left, a1[node].right;
    if bf > 1 && BalanceFactor(a1, l) >= 0 then
      RotateRight(a1, node)
    else if bf > 1 && BalanceFactor(a1, l) < 0 then
      var inner := RotateLeft(a1, l);
      RotateRight(SetLeft(inner.0, node, inner.1), node)
    else if bf < -1 && BalanceFactor(a1, rt) <= 0 then
      RotateLeft(a1, node)
    else if bf < -1 && BalanceFactor(a1, rt) > 0 then
      var inner := RotateRight(a1, rt);
      RotateLeft(SetRight(inner.0, node, inner.1), node)
    else
      (a1, node)
  }

  /** The search loop of `insert` from `cur`: a smaller name goes left, a larger one right,
      until an equal name or a missing child. `fuel` bounds the number of steps. */
  function Search(a: seq<Rec>, cur: int, name: string, fuel: nat): (p: Place)
    requires Linked(a) && 0 <= cur < |a|
    ensures p.Under? ==> 0 <= p.parent < |a|
    decreases fuel
  {
    if fuel == 0 then Exhausted
    else if name == a[cur].value.name then Duplicate
    else if Less(name, a[cur].value.name) then
      if a[cur].left == Null then Under(cur, true) else Search(a, a[cur].left, name, fuel - 1)
    else
      if a[cur].right == Null then Under(cur, false) else Search(a, a[cur].right, name, fuel - 1)
  }

  /** The walk up of `insert` from `current`, as written: recompute the height; when the
      balance factor is beyond one either way, `balance` the node and, only if it was the root,
      make the returned node the root; then go on at the parent that `current` now has.
      `fuel` bounds the number of steps. */
  function WalkUp(t: Arena, current: int, fuel: nat): (r: Arena)
    requires WellFormed(t) && Ref(t.nodes, current)
    ensures WellFormed(r) && |r.nodes| == |t.nodes| && r.size == t.size
    decreases fuel
  {
    if current == Null || fuel == 0 then t
    else
      var a1 := UpdateHeight(t.nodes, current);
      var bf := BalanceFactor(a1, current);
      if bf > 1 || bf < -1 then
        var b := Balance(a1, current);
        var root := if current == t.root then b.1 else t.root;
        WalkUp(Arena(b.0, root, t.size), b.0[current].parent, fuel - 1)
      else
        WalkUp(Arena(a1, t.root, t.size), a1[current].parent, fuel - 1)
  }

  /** `insert(contact)` as written; `None` stands for an argument that is not a `Contact`
      instance. The new node is linked below the end of the search path and `size` grows by
      one, then the walk up runs from the new node's parent. */
  function Insert(t: Arena, x: Option<Contact>): (r: (Arena, bool))
    requires WellFormed(t)
    ensures WellFormed(r.0) && r.0.size == t.size + (if r.1 then 1 else 0)
  {
    if x.None? then (t, false)
    else
      var n := |t.nodes|;
      var leaf := Rec(x.value, Null, Null, Null, 1);
      if t.root == Null then (Arena(t.nodes + [leaf], n, t.size + 1), true)
      else
        match Search(t.nodes, t.root, x.value.name, |t.nodes|)
        case Duplicate => (t, false)
        case Exhausted => (t, false)
        case Under(p, left) =>
          var a := t.nodes + [leaf.(parent := p)];
          var a' := if left then SetLeft(a, p, n) else SetRight(a, p, n);
          (WalkUp(Arena(a', t.root, t.size + 1), p, |a'|), true)
  }

  /** The contacts reachable from node `i`, in order. */
  function Reachable(a: seq<Rec>, i: int, fuel: nat): seq<Contact>
    requires Linked(a) && Ref(a, i)
    decreases fuel
  {
    if i == Null || fuel == 0 then []
    else Reachable(a, a[i].left, fuel - 1) + [a[i].value] + Reachable(a, a[i].right, fuel - 1)
  }

  /** What the tree holds: the contacts reachable from the root. */
  function Contents(t: Arena): seq<Contact>
    requires WellFormed(t)
  {
    Reachable(t.nodes, t.root, |t.nodes|)
  }

  const Empty := Arena([], Null, 0)

  /** A contact with the given name and nothing else. */
  function Named(name: string): Contact {
    Contact(name, "", "", "", None, None, None)
  }

  // ---------------------------------------------------------------------------------------
  // The insertions of D, C, F, B and A into an empty tree, node by node: D is node 0, C node 1,
  // F node 2, B node 3 and A node 4.

  const D := Named("D")
  const C := Named("C")
  const F := Named("F")
  const B := Named("B")
  const A := Named("A")

  const T1 := Arena([Rec(D, Null, Null, Null, 1)], 0, 1)
  const T2 := Arena([Rec(D, 1, Null, Null, 2), Rec(C, Null, Null, 0, 1)], 0, 2)
  const T3 := Arena([Rec(D, 1, 2, Null, 2), Rec(C, Null, Null, 0, 1), Rec(F, Null, Null, 0, 1)], 0, 3)
  const T4 := Arena([Rec(D, 1, 2, Null, 3), Rec(C, 3, Null, 0, 2), Rec(F, Null, Null, 0, 1),
                     Rec(B, Null, Null, 1, 1)], 0, 4)
  /** After linking A below B and recomputing the height of B. */
  const W1 := Arena([Rec(D, 1, 2, Null, 3), Rec(C, 3, Null, 0, 2), Rec(F, Null, Null, 0, 1),
                     Rec(B, 4, Null, 1, 2), Rec(A, Null, Null, 3, 1)], 0, 5)
  /** After `balance(C)`: B has taken C's place below D's stale link, which still leads to C. */
  const W2 := Arena([Rec(D, 1, 2, Null, 3), Rec(C, Null, Null, 3, 1), Rec(F, Null, Null, 0, 1),
                     Rec(B, 4, 1, 0, 2), Rec(A, Null, Null, 3, 1)], 0, 5)
  const T5 := Arena([Rec(D, 1, 2, Null, 2), Rec(C, Null, Null, 3, 1), Rec(F, Null, Null, 0, 1),
                     Rec(B, 4, 1, 0, 2), Rec(A, Null, Null, 3, 1)], 0, 5)

  /** A linked below B, before the walk up. */
  const L5 := Arena([Rec(D, 1, 2, Null, 3), Rec(C, 3, Null, 0, 2), Rec(F, Null, Null, 0, 1),
                     Rec(B, 4, Null, 1, 1), Rec(A, Null, Null, 3, 1)], 0, 5)

  /** The new node linked below the end of the search path, before each walk up. */
  const L2 := Arena([Rec(D, 1, Null, Null, 1), Rec(C, Null, Null, 0, 1)], 0, 2)
  const L3 := Arena([Rec(D, 1, 2, Null, 2), Rec(C, Null, Null, 0, 1), Rec(F, Null, Null, 0, 1)], 0, 3)
  const L4 := Arena([Rec(D, 1, 2, Null, 2), Rec(C, 3, Null, 0, 1), Rec(F, Null, Null, 0, 1),
                     Rec(B, Null, Null, 1, 1)], 0, 4)
  /** The walk of the fourth insertion after C. */
  const M4 := Arena([Rec(D, 1, 2, Null, 2), Rec(C, 3, Null, 0, 2), Rec(F, Null, Null, 0, 1),
                     Rec(B, Null, Null, 1, 1)], 0, 4)

  /** Every link of the arenas above leads to a node or to `null`. */
  lemma Formed()
    ensures WellFormed(T1) && WellFormed(T2) && WellFormed(T3) && WellFormed(T4) && WellFormed(T5)
    ensures WellFormed(L2) && WellFormed(L3) && WellFormed(L4) && WellFormed(M4)
    ensures WellFormed(L5) && WellFormed(W1) && WellFormed(W2)
  {
  }

  lemma InsertD()
    ensures Insert(Empty, Some(D)).0 == T1 && Insert(Empty, Some(D)).1
  {
  }

  lemma InsertC()
    ensures WellFormed(T1) && WellFormed(L2)
    ensures Insert(T1, Some(C)).0 == T2 && Insert(T1, Some(C)).1
  {
    Formed();
    assert Search(T1.nodes, 0, "C", 1) == Under(0, true);
    assert SetLeft(T1.nodes + [Rec(C, Null, Null, 0, 1)], 0, 1) == L2.nodes;
    assert UpdateHeight(L2.nodes, 0) == T2.nodes;
    assert WalkUp(L2, 0, 2) == WalkUp(T2, Null, 1);
  }

  lemma InsertF()
    ensures WellFormed(T2) && WellFormed(L3)
    ensures Insert(T2, Some(F)).0 == T3 && Insert(T2, Some(F)).1
  {
    Formed();
    assert Search(T2.nodes, 0, "F", 2) == Under(0, false);
    assert SetRight(T2.nodes + [Rec(F, Null, Null, 0, 1)], 0, 2) == L3.nodes;
    assert UpdateHeight(L3.nodes, 0) == T3.nodes;
    assert WalkUp(L3, 0, 3) == WalkUp(T3, Null, 2);
  }

  lemma InsertB()
    ensures WellFormed(T3) && WellFormed(L4) && WellFormed(M4)
    ensures Insert(T3, Some(B)).0 == T4 && Insert(T3, Some(B)).1
  {
    Formed();
    assert Search(T3.nodes, 1, "B", 2) == Under(1, true);
    assert Search(T3.nodes, 0, "B", 3) == Under(1, true);
    assert SetLeft(T3.nodes + [Rec(B, Null, Null, 1, 1)], 1, 3) == L4.nodes;
    assert UpdateHeight(L4.nodes, 1) == M4.nodes;
    assert WalkUp(L4, 1, 4) == WalkUp(M4, 0, 3);
    assert UpdateHeight(M4.nodes, 0) == T4.nodes;
    assert WalkUp(M4, 0, 3) == WalkUp(T4, Null, 2);
  }

  lemma SearchA()
    ensures Search(T4.nodes, 0, "A", 4) == Under(3, true)
  {
    assert Search(T4.nodes, 3, "A", 2) == Under(3, true);
    assert Search(T4.nodes, 1, "A", 3) == Under(3, true);
  }

  /** At B the heights still agree; at C the balance factor is 2. */
  lemma WalkB()
    ensures WellFormed(L5) && WellFormed(W1)
    ensures WalkUp(L5, 3, 5) == WalkUp(W1, 1, 4)
  {
    Formed();
    assert UpdateHeight(L5.nodes, 3) == W1.nodes;
  }

  /** `balance(C)` rotates right: B takes C's place, and D, not written, still links to C. */
  lemma BalanceC()
    ensures WellFormed(W1)
    ensures Balance(UpdateHeight(W1.nodes, 1), 1).0 == W2.nodes && Balance(UpdateHeight(W1.nodes, 1), 1).1 == 3
  {
    Formed();
    var a1 := UpdateHeight(W1.nodes, 1);
    assert UpdateHeight(a1, 1) == a1;
    assert BalanceFactor(a1, 1) == 2 && BalanceFactor(a1, 3) == 1;
  }

  lemma WalkC()
    ensures WellFormed(W1) && WellFormed(W2)
    ensures WalkUp(W1, 1, 4) == WalkUp(W2, 3, 3)
  {
    Formed();
    BalanceC();
    assert BalanceFactor(UpdateHeight(W1.nodes, 1), 1) == 2;
  }

  /** The walk goes on at B, now C's parent, then at B's parent D, and stops above it. */
  lemma WalkRest()
    ensures WellFormed(W2)
    ensures WalkUp(W2, 3, 3) == T5
  {
    Formed();
    assert UpdateHeight(W2.nodes, 3) == W2.nodes;
    assert WalkUp(W2, 3, 3) == WalkUp(W2, 0, 2);
    assert UpdateHeight(W2.nodes, 0) == T5.nodes;
    assert WalkUp(W2, 0, 2) == WalkUp(T5, Null, 1);
  }

  lemma InsertA()
    ensures WellFormed(T4)
    ensures Insert(T4, Some(A)).0 == T5 && Insert(T4, Some(A)).1
  {
    Formed();
    SearchA();
    assert SetLeft(T4.nodes + [Rec(A, Null, Null, 3, 1)], 3, 4) == L5.nodes;
    WalkB();
    WalkC();
    WalkRest();
  }

  lemma ContentsT4()
    ensures Contents(T4) == [B, C, D, F]
  {
    assert Reachable(T4.nodes, 3, 2) == [B];
    assert Reachable(T4.nodes, 1, 3) == [B, C];
    assert Reachable(T4.nodes, 2, 3) == [F];
  }

  lemma ContentsT5()
    ensures Contents(T5) == [C, D, F]
  {
    assert Reachable(T5.nodes, 1, 4) == [C];
    assert Reachable(T5.nodes, 2, 4) == [F];
  }

  /** Inserting D, C, F, B and A into an empty tree: the fifth insertion rotates right at C,
      whose parent D keeps its link to C, so B and A are no longer reachable although `size`
      counts them. After the first four insertions nothing is lost. */
  lemma LosesNodes()
    ensures var t1 := Insert(Empty, Some(D)).0;
      var t2 := Insert(t1, Some(C)).0;
      var t3 := Insert(t2, Some(F)).0;
      var t4 := Insert(t3, Some(B)).0;
      var t5 := Insert(t4, Some(A)).0;
      && Contents(t4) == [B, C, D, F] && t4.size == 4
      && Contents(t5) == [C, D, F] && t5.size == 5
  {
    InsertD();
    InsertC();
    InsertF();
    InsertB();
    InsertA();
    ContentsT4();
    ContentsT5();
  }
}
