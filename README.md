# Contacts: the ordered contact index

This project models the in-memory contact index of the Contacts application.

The index is a binary search tree of contacts keyed by `name`. Each tree node holds a contact
and links to its left child, right child and parent. The AVL versions also store a height.
The model covers four implementations of the tree:

- `backend/data-structures/AVLTree.js`: the server's AVL tree (module `AvlJs`, plus `AvlArena`
  for its insertion as written);
- `functions/src/data-structures/AVLTree.ts`: the cloud functions' AVL tree (module `AvlTs`);
- `functions/src/data-structures/BinarySearchTree.js` and `.ts`: the plain, unbalanced trees
  (modules `BstJs` and `BstTs`).

Two small pure helpers of the user interface are modelled too:

- the form checks `validateField` and `validateForm` (module `ContactForm`);
- the initials of a contact card, `getInitials` (module `ContactCard`).

How the trees are modelled:

- Each tree is a Dafny `class` over heap nodes (`Shapes.Node`: `value`, `left`, `right`,
  `parent`, `height`).
- A ghost field `shape` holds the tree as a value (`Shapes.Shape`).
- `HeapTrees.Stores(root, shape)` ties the two together:
  - every node's fields agree with its place in `shape`;
  - parent links point back;
  - the nodes are distinct.
- `Valid()` adds that `shape` is ordered by name and that `size` counts its nodes; the backend
  AVL tree's also requires `shape` to be balanced.

Every operation is a `method` whose loops follow the source's loops. It is proved against a
function on shapes:

- plain insertion and deletion: `SearchTrees.ShapeInsert` and `SearchTrees.ShapeDelete`;
- AVL insertion and deletion with rebalancing: `AvlShapes.AvlInsert` and `AvlShapes.AvlDelete`;
- the cloud AVL tree's deletion, which rebalances only after removing a node with two
  children: `AvlShapes.PartialDelete`.

Lemmas about these functions state what the operations mean for the stored contacts:

- order is kept;
- `Content(shape)`, the map from names to contacts, gains or loses exactly the one entry;
- `size` follows the change.

Both AVL classes reach every balancing step through a zipper:

- `Ctx` is the path from the root to a subtree;
- `Plug` puts a subtree back at the end of its path;
- `Climb` walks `balance` up that path.

The model proves what the source promises about the contents. It also proves the AVL
invariant, `AvlBalance.Balanced`: every stored height is exact and every balance factor is
within one. Insertion and deletion with rebalancing keep it, so the backend AVL tree's
`Valid()` includes it. The cloud AVL tree's deletion does not keep it (see "## Left out").

The backend AVL tree's rotations do not redirect the parent's child link.
`AvlHeap.StoresBut(ctx, t, stale)` describes the heap between a rotation and the redirect: the
parent still points to `stale`. Its deletion then redirects the parent, and the model proves it
correct. Its insertion redirects only at the root; see "## Findings".

Names are compared by one strict total order, `Contacts.Less`: lexicographic order on
characters. A contact is a datatype with a name and optional integer timestamps
(`dateAdded`, `lastActivity`, in milliseconds).

## Model

| member | source | states |
|---|---|---|
| Contacts.LessIrreflexive | functions/src/data-structures/AVLTree.ts:134-141 | no name is below itself, so the equal case of the search is the only one for an existing name |
| Contacts.LessAsymmetric | functions/src/data-structures/AVLTree.ts:134-141 | two names are never each below the other |
| Contacts.LessTransitive | functions/src/data-structures/BinarySearchTree.js:35-60 | the name order is transitive, which search-tree order relies on |
| Contacts.LessTotal | functions/src/data-structures/BinarySearchTree.js:37-60 | two different names are always ordered one way, so the three-way comparison of the search loops covers every case |
| Shapes.Node.constructor | functions/src/data-structures/AVLTree.ts:11-17 | a new node holds the contact, has no children and no parent, and has height 1 |
| Shapes.Root | functions/src/data-structures/AVLTree.ts:125 | the root of a tree is `null` exactly for the empty tree |
| Shapes.H | functions/src/data-structures/AVLTree.ts:27-32 | a height is never negative and is 0 exactly for the empty tree |
| Shapes.SizeInOrder | functions/src/data-structures/BinarySearchTree.ts:226-228 | the node count equals the length of the in-order traversal |
| Shapes.OrderedInOrderSorted | functions/src/data-structures/BinarySearchTree.js:194-211 | the in-order traversal of an ordered tree is strictly ascending by name, and lists only stored names |
| SearchTrees.LookupContent | functions/src/data-structures/BinarySearchTree.js:69-89 | in an ordered tree the search result for a name is the contact stored under that name, or none when the name is absent |
| SearchTrees.HangLeaf | functions/src/data-structures/BinarySearchTree.js:44-61 | where the insertion search stops, the name is absent; linking the new leaf there is the insertion, keeps order, adds one node and keeps the root |
| SearchTrees.InsertSize | functions/src/data-structures/BinarySearchTree.js:37-43 | inserting a name already present changes nothing; otherwise the node count grows by one |
| SearchTrees.InsertContent | functions/src/data-structures/BinarySearchTree.js:22-63 | insertion into an ordered tree keeps it ordered, adds the name, maps it to the new contact when it was absent, and adds exactly the new node |
| SearchTrees.MinOrder | functions/src/data-structures/BinarySearchTree.js:165-174 | the leftmost node holds the least name; removing it keeps order, drops that name and one node |
| SearchTrees.MinContent | functions/src/data-structures/BinarySearchTree.js:165-174 | the leftmost contact is the one stored under the least name, and removing it drops exactly that entry |
| SearchTrees.SuccessorOrder | functions/src/data-structures/BinarySearchTree.js:165-187 | copying the in-order successor's value into the node and unlinking the successor keeps order and drops one node |
| SearchTrees.RemoveRootOrder | functions/src/data-structures/BinarySearchTree.js:122-187 | removing the found node by any of the three cases keeps order, drops its name and one node |
| SearchTrees.RemoveRootContent | functions/src/data-structures/BinarySearchTree.js:122-187 | removing the found node drops exactly its entry from the stored contacts |
| SearchTrees.DeleteOrder | functions/src/data-structures/BinarySearchTree.js:96-189 | deletion keeps order, removes the name, counts one node fewer exactly when the name was present, and changes nothing when it was absent |
| SearchTrees.DeleteContent | functions/src/data-structures/BinarySearchTree.js:96-189 | deletion removes exactly the entry for the name from the stored contacts |
| HeapTrees.NodeFields | functions/src/data-structures/BinarySearchTree.js:74-87 | a stored node's value, children, height and parent are those of its place in the tree |
| HeapTrees.Descend | functions/src/data-structures/BinarySearchTree.js:103-116 | the search loop of deletion stops at the node holding the name, or at the node whose missing child is where the name would be |
| HeapTrees.Collect | functions/src/data-structures/BinarySearchTree.js:205-211 | the recursive traversal appends the subtree's contacts in order to what was collected |
| HeapTrees.LinkLeaf | functions/src/data-structures/BinarySearchTree.js:44-58 | the new leaf is linked below the last node of the search path, with its parent set, and the heap then stores the tree with that leaf |
| HeapTrees.Splice | functions/src/data-structures/BinarySearchTree.js:122-164 | a node with at most one child is replaced by that child in its parent or as the root, and the child's parent is updated |
| HeapTrees.SetValue | functions/src/data-structures/BinarySearchTree.js:175 | overwriting a node's contact changes only that value in the stored tree |
| HeapTrees.FindMin | functions/src/data-structures/BinarySearchTree.js:166-174 | the successor loop ends at the leftmost node of the right subtree and at its parent |
| HeapTrees.Remove | functions/src/data-structures/BinarySearchTree.js:120-188 | the three removal cases leave the heap storing the tree without the found node |
| HeapTrees.SpliceSuccessor | functions/src/data-structures/AVLTree.ts:235-250 | copying the successor's contact and splicing the successor out leaves the heap storing the successor's removal, and returns the successor's former parent |
| TimeViews.SwapDown | functions/src/data-structures/BinarySearchTree.ts:205-208 | one exchange of neighbours in the array being sorted keeps its contents |
| TimeViews.SortDescending | functions/src/data-structures/BinarySearchTree.ts:205-208 | the in-place sort leaves the keys in descending order (a missing timestamp counts as 0) and the same contacts |
| TimeViews.SinkDown | functions/src/data-structures/BinarySearchTree.ts:205-208 | one element is moved down past every smaller key, keeping the contents |
| TimeViews.SwapKeeps | functions/src/data-structures/BinarySearchTree.ts:205-208 | one exchange during sinking keeps the sorted prefix sorted around the sinking element |
| TimeViews.SortedCopy | functions/src/data-structures/BinarySearchTree.ts:202-220 | sorting a traversal yields it in descending key order as a permutation |
| BstJs.BinarySearchTree.constructor | functions/src/data-structures/BinarySearchTree.js:13-16 | a new tree is empty with size 0 |
| BstJs.BinarySearchTree.Insert | functions/src/data-structures/BinarySearchTree.js:22-63 | a non-contact argument returns false and changes nothing; otherwise the tree becomes the insertion of a fresh leaf, the result is true exactly when the name was absent, and size grows by one exactly then |
| BstJs.BinarySearchTree.Search | functions/src/data-structures/BinarySearchTree.js:69-89 | returns the contact stored under the name, or none, without changing the tree |
| BstJs.BinarySearchTree.Delete | functions/src/data-structures/BinarySearchTree.js:96-189 | returns the contact stored under the name before deletion (none when absent), the tree becomes the deletion, and size drops by one exactly when found |
| BstJs.BinarySearchTree.InOrderTraversal | functions/src/data-structures/BinarySearchTree.js:194-211 | returns the stored contacts in ascending name order |
| BstJs.BinarySearchTree.NewlyAddedFirst | functions/src/data-structures/BinarySearchTree.js:212-220 | fails exactly when some stored contact has no `dateAdded`; otherwise returns the traversal sorted newest first, as a permutation |
| BstJs.BinarySearchTree.MostRecentActivityFirst | functions/src/data-structures/BinarySearchTree.js:221-230 | returns the traversal sorted by `lastActivity`, most recent first with a missing one as 0, as a permutation |
| BstJs.BinarySearchTree.IsEmpty | functions/src/data-structures/BinarySearchTree.js:235-237 | true exactly when the tree stores no contact |
| BstTs.BinarySearchTree.constructor | functions/src/data-structures/BinarySearchTree.ts:8-12 | a new tree is empty with count 0 |
| BstTs.BinarySearchTree.Insert | functions/src/data-structures/BinarySearchTree.ts:14-60 | a missing contact or an empty name returns false and changes nothing; otherwise the tree becomes the insertion, the result is true exactly when the name was absent, and the count grows by one exactly then |
| BstTs.BinarySearchTree.Search | functions/src/data-structures/BinarySearchTree.ts:62-80 | returns the contact stored under the name, or none, without changing the tree |
| BstTs.BinarySearchTree.Delete | functions/src/data-structures/BinarySearchTree.ts:82-182 | returns the original contact under the name (none when absent), the tree becomes the deletion, and the count drops by one exactly when found |
| BstTs.BinarySearchTree.InOrderTraversal | functions/src/data-structures/BinarySearchTree.ts:184-200 | returns the stored contacts in ascending name order |
| BstTs.BinarySearchTree.NewlyAddedFirst | functions/src/data-structures/BinarySearchTree.ts:202-210 | returns the traversal sorted by `dateAdded`, newest first with a missing one as 0, as a permutation |
| BstTs.BinarySearchTree.MostRecentActivityFirst | functions/src/data-structures/BinarySearchTree.ts:212-220 | returns the traversal sorted by `lastActivity`, most recent first with a missing one as 0, as a permutation |
| BstTs.BinarySearchTree.IsEmpty | functions/src/data-structures/BinarySearchTree.ts:222-224 | true exactly when the tree stores no contact |
| BstTs.BinarySearchTree.Size | functions/src/data-structures/BinarySearchTree.ts:226-228 | returns the count, which equals the number of stored contacts |
| AvlShapes.Fix | functions/src/data-structures/AVLTree.ts:34-37 | the node's height becomes one more than its taller child's (a missing child counts 0); children, node and contact stay, so order, nodes and root are kept |
| AvlShapes.RotR | functions/src/data-structures/AVLTree.ts:47-70 | a right rotation promotes the left child, makes the pivot its right child, and keeps the in-order sequence and the nodes |
| AvlShapes.RotL | functions/src/data-structures/AVLTree.ts:72-94 | a left rotation promotes the right child, makes the pivot its left child, and keeps the in-order sequence and the nodes |
| AvlShapes.Bal | functions/src/data-structures/AVLTree.ts:97-119 | balancing keeps the in-order sequence and the nodes, and leaves the node in place (heights recomputed) when the balance factor is within one |
| AvlShapes.Climb | functions/src/data-structures/AVLTree.ts:152-166 | the walk up from a node yields a non-empty tree, and with no node above the hole it is the subtree itself |
| AvlShapes.Lift | functions/src/data-structures/AVLTree.ts:152-166 | one step of the walk up: the walk from a node equals balancing it and walking on from its parent |
| AvlShapes.Ins | functions/src/data-structures/AVLTree.ts:122-168 | insertion with rebalancing has the same in-order sequence and nodes as plain insertion |
| AvlShapes.AvlInsert | functions/src/data-structures/AVLTree.ts:122-168 | AVL insertion, a present name changing nothing, has the in-order sequence and nodes of plain insertion |
| AvlShapes.DelMin | functions/src/data-structures/AVLTree.ts:235-265 | removing the leftmost node with rebalancing has the same in-order sequence and nodes as without |
| AvlShapes.RemoveRootBal | backend/data-structures/AVLTree.js:264-340 | removing a found node with rebalancing has the same in-order sequence and nodes as without |
| AvlShapes.Del | backend/data-structures/AVLTree.js:232-342 | deletion with rebalancing has the same in-order sequence and nodes as plain deletion |
| AvlShapes.AvlDelete | backend/data-structures/AVLTree.js:232-342 | AVL deletion, an absent name changing nothing, has the in-order sequence and nodes of plain deletion |
| AvlShapes.Find | functions/src/data-structures/AVLTree.ts:176-188 | the deletion search reaches a node exactly when the name is stored |
| AvlShapes.PartialDelete | functions/src/data-structures/AVLTree.ts:170-266 | the cloud tree's deletion, rebalancing only after a two-child removal, has the in-order sequence and nodes of plain deletion |
| AvlShapes.InOrderDetermines | functions/src/data-structures/AVLTree.ts:97-119 | two trees with the same in-order sequence, one ordered, have the same order, names, contents and size; so rotations never change what is stored |
| AvlShapes.SameContent | functions/src/data-structures/AVLTree.ts:97-119 | two ordered trees with the same in-order sequence and names store the same contacts |
| AvlShapes.ClimbKeeps | functions/src/data-structures/AVLTree.ts:152-166 | the walk of `balance` up to the root keeps the in-order sequence, the nodes and their distinctness |
| AvlShapes.InsertClimb | functions/src/data-structures/AVLTree.ts:132-166 | where the insertion search stops the name is absent, and linking the leaf there then walking `balance` up to the root is AVL insertion |
| AvlShapes.DeleteClimb | backend/data-structures/AVLTree.js:264-340 | removing a found node with at most one child and walking `balance` up from its parent is AVL deletion |
| AvlShapes.SuccessorClimb | backend/data-structures/AVLTree.js:303-340 | copying the successor into the found node, splicing the successor out and walking up from its former parent is AVL deletion |
| AvlShapes.AvlInsertContent | functions/src/data-structures/AVLTree.ts:122-168 | AVL insertion keeps order; a present name leaves the tree unchanged, an absent one is added with its contact and one new node |
| AvlShapes.AvlDeleteContent | backend/data-structures/AVLTree.js:232-342 | AVL deletion keeps order, drops exactly the name's entry and one node when present, and changes nothing when absent |
| AvlShapes.PartialDeleteContent | functions/src/data-structures/AVLTree.ts:170-266 | the cloud tree's deletion, which does not rebalance after a leaf or one-child removal, still keeps order, drops exactly the name's entry, and changes nothing when absent |
| AvlShapes.DeleteSearch | functions/src/data-structures/AVLTree.ts:176-189 | the search finds the name exactly when it stops at a node holding it; otherwise deletion changes nothing; the count drops by one exactly when found |
| AvlShapes.DeleteFound | backend/data-structures/AVLTree.js:240-262 | the search's result is the stored contact exactly when it stops at a node holding the name; deletion is then the rebalancing removal, otherwise nothing |
| AvlHeap.GetHeight | functions/src/data-structures/AVLTree.ts:27-32 | a missing node has height 0, a present one its stored height |
| AvlHeap.GetBalanceFactor | functions/src/data-structures/AVLTree.ts:39-44 | a missing node has balance factor 0, a present one its left child's height minus its right child's |
| AvlHeap.UpdateHeight | backend/data-structures/AVLTree.js:29-32 | a node's height becomes one more than its taller child's (a missing child counts 0), and no other field changes |
| AvlHeap.HeightsOf | functions/src/data-structures/AVLTree.ts:27-44 | `getHeight` and `getBalanceFactor` of a stored node are its subtree's height and balance factor |
| AvlHeap.RotatedRight | backend/data-structures/AVLTree.js:50-68 | after the writes of a right rotation the heap stores the rotated tree, except that the old parent still points to the pivot unless it was redirected |
| AvlHeap.RotatedLeft | backend/data-structures/AVLTree.js:76-94 | the same for a left rotation |
| AvlTs.AVLTree.constructor | functions/src/data-structures/AVLTree.ts:22-23 | a new tree is empty with size 0 |
| AvlTs.AVLTree.RotateRight | functions/src/data-structures/AVLTree.ts:47-70 | after the rotation, with the pivot's former parent redirected, the heap stores the rotated tree, and the promoted left child is returned |
| AvlTs.AVLTree.RotateLeft | functions/src/data-structures/AVLTree.ts:72-94 | the same for a left rotation |
| AvlTs.AVLTree.Balance | functions/src/data-structures/AVLTree.ts:97-119 | after `balance` the heap stores the balanced subtree in place, and its root is returned |
| AvlTs.AVLTree.RotateIfUnbalanced | functions/src/data-structures/AVLTree.ts:98-118 | with the height already recomputed, the four cases leave the balanced subtree in place |
| AvlTs.AVLTree.RotateLeftRight | functions/src/data-structures/AVLTree.ts:104-107 | rotating the left child left and then the node right leaves the double-rotated subtree in place |
| AvlTs.AVLTree.RotateRightLeft | functions/src/data-structures/AVLTree.ts:114-117 | rotating the right child right and then the node left leaves the double-rotated subtree in place |
| AvlTs.AVLTree.Rebalance | functions/src/data-structures/AVLTree.ts:252-264 | the walk of `balance` from a node up to the root leaves the heap storing the walked tree |
| AvlTs.AVLTree.Insert | functions/src/data-structures/AVLTree.ts:122-168 | always returns true; the tree becomes AVL insertion of a fresh node, and size grows by one exactly when the name was absent |
| AvlTs.AVLTree.InsertBelow | functions/src/data-structures/AVLTree.ts:143-166 | linking the new leaf below the end of the search path and walking up leaves the heap storing the AVL insertion |
| AvlTs.AVLTree.Hang | functions/src/data-structures/AVLTree.ts:143-166 | the leaf is linked with its parent set and the walk runs from that parent |
| AvlTs.AVLTree.Delete | functions/src/data-structures/AVLTree.ts:170-266 | always returns true; the tree becomes the deletion that rebalances only after a two-child removal, and size drops by one exactly when the name was found |
| AvlTs.AVLTree.RemoveFound | functions/src/data-structures/AVLTree.ts:191-265 | the three removal cases leave the heap storing that deletion |
| AvlTs.AVLTree.ReplaceBySuccessor | functions/src/data-structures/AVLTree.ts:235-265 | the two-child case leaves the heap storing AVL deletion of the name |
| AvlTs.AVLTree.Succeed | functions/src/data-structures/AVLTree.ts:236-264 | the successor found on the right subtree's left spine is copied and spliced out, then the walk runs from its former parent |
| AvlTs.AVLTree.Search | functions/src/data-structures/AVLTree.ts:302-315 | returns the contact stored under the name, or none |
| AvlTs.AVLTree.InOrderTraversal | functions/src/data-structures/AVLTree.ts:268-280 | returns the stored contacts in ascending name order |
| AvlTs.AVLTree.NewlyAddedFirst | functions/src/data-structures/AVLTree.ts:282-290 | fails on every tree, because the collected traversal it sorts is missing |
| AvlTs.AVLTree.MostRecentActivityFirst | functions/src/data-structures/AVLTree.ts:292-300 | fails on every tree, for the same reason |
| AvlTs.AVLTree.NewlyAddedFirstIntended | functions/src/data-structures/AVLTree.ts:282-290 | the traversal sorted by `dateAdded`, newest first with a missing one as 0, as a permutation |
| AvlTs.AVLTree.MostRecentActivityFirstIntended | functions/src/data-structures/AVLTree.ts:292-300 | the traversal sorted by `lastActivity`, most recent first with a missing one as 0, as a permutation |
| AvlJs.StoresButRoot | backend/data-structures/AVLTree.js:327-328 | when `balance` returns the node it was given, nothing is stale: the heap stores the whole tree |
| AvlJs.StoresButTop | backend/data-structures/AVLTree.js:330-332 | a promoted node without a parent stores the whole tree once it is made the root |
| AvlJs.StaleFields | backend/data-structures/AVLTree.js:328-336 | after a rotation the promoted node's parent is the old parent, whose left link is the stale node exactly when the subtree hangs on its left |
| AvlJs.Link | backend/data-structures/AVLTree.js:333-336 | redirecting the old parent's link to the promoted node makes the heap store the whole tree |
| AvlJs.StaleReplaced | backend/data-structures/AVLTree.js:333-336 | redirecting the one stale link turns the stale heap description into the stored one |
| AvlJs.AVLTree.constructor | backend/data-structures/AVLTree.js:12-14 | a new tree is empty with size 0 |
| AvlBalance.RotateRightBalanced | backend/data-structures/AVLTree.js:106-109 | left-left case: a right rotation of a node whose left subtree is two higher and not right-heavy gives a balanced tree, as high as the left subtree or one higher when it was even |
| AvlBalance.RotateLeftRightBalanced | backend/data-structures/AVLTree.js:111-115 | left-right case: rotating the right-heavy left subtree left and then the node right gives a balanced tree as high as the left subtree |
| AvlBalance.RotateLeftBalanced | backend/data-structures/AVLTree.js:117-120 | right-right case, the mirror of left-left |
| AvlBalance.RotateRightLeftBalanced | backend/data-structures/AVLTree.js:122-126 | right-left case, the mirror of left-right |
| AvlBalance.BalBalanced | backend/data-structures/AVLTree.js:102-129 | `balance` of a node with balanced subtrees whose heights differ by at most two is balanced; its height is at least the taller subtree's and at most one more, exactly one more when no rotation is needed |
| AvlBalance.InsBalanced | backend/data-structures/AVLTree.js:136-225 | insertion with rebalancing keeps a tree balanced and raises its height by at most one |
| AvlBalance.DelMinBalanced | functions/src/data-structures/AVLTree.ts:235-265 | removing the leftmost node with rebalancing keeps a tree balanced and lowers its height by at most one |
| AvlBalance.RemoveRootBalanced | backend/data-structures/AVLTree.js:264-340 | removing a found node with rebalancing keeps the subtree balanced and lowers its height by at most one |
| AvlBalance.DelBalanced | backend/data-structures/AVLTree.js:232-342 | deletion with rebalancing keeps a tree balanced and lowers its height by at most one |
| AvlBalance.AvlInsertBalanced | backend/data-structures/AVLTree.js:136-225 | AVL insertion keeps the AVL invariant |
| AvlBalance.AvlDeleteBalanced | backend/data-structures/AVLTree.js:232-342 | AVL deletion keeps the AVL invariant |
| AvlBalance.PartialDeleteUnbalances | functions/src/data-structures/AVLTree.ts:191-234 | the cloud tree's deletion of a leaf does not rebalance: a balanced, ordered tree of four contacts loses the invariant when its right leaf is removed |
| AvlBalance.BalancedHeight | backend/data-structures/AVLTree.js:102-129 | a balanced tree of height h holds at least 2^(h/2) - 1 contacts, so its height is at most about twice the logarithm of its size |
| AvlJs.AVLTree.RotateRight | backend/data-structures/AVLTree.js:50-68 | after the rotation the heap stores the rotated tree, except that the pivot's old parent still links to the pivot; the promoted left child is returned |
| AvlJs.AVLTree.RotateLeft | backend/data-structures/AVLTree.js:76-94 | the same for a left rotation |
| AvlJs.AVLTree.Balance | backend/data-structures/AVLTree.js:102-129 | after `balance` the heap stores the balanced subtree except for the old parent's stale link to the node; the subtree's root is returned |
| AvlJs.AVLTree.RotateIfUnbalanced | backend/data-structures/AVLTree.js:105-128 | with the height recomputed, the four cases leave the balanced subtree in place apart from the stale link |
| AvlJs.AVLTree.RotateLeftRight | backend/data-structures/AVLTree.js:112-116 | the double rotation, with the node's left link set to the inner result, leaves the double-rotated subtree in place apart from the stale link |
| AvlJs.AVLTree.RotateRightLeft | backend/data-structures/AVLTree.js:123-127 | the mirror double rotation |
| AvlJs.AVLTree.Rebalance | backend/data-structures/AVLTree.js:324-340 | deletion's walk up, balancing and redirecting at each node, leaves the heap storing the walked tree |
| AvlJs.AVLTree.Redirect | backend/data-structures/AVLTree.js:328-338 | after `balance`, making the returned node the root or the old parent's child restores the stored tree |
| AvlJs.AVLTree.Insert | backend/data-structures/AVLTree.js:136-225 | corrected insertion: a non-contact returns false and changes nothing; otherwise the tree becomes AVL insertion of a fresh node, true exactly when the name was absent, and size grows by one exactly then; the tree stays balanced (`Valid()`) |
| AvlJs.AVLTree.InsertBelow | backend/data-structures/AVLTree.js:161-223 | linking below the end of the search path and walking up (with the parent redirected) leaves the heap storing AVL insertion |
| AvlJs.AVLTree.Hang | backend/data-structures/AVLTree.js:174-200 | the leaf is linked with its parent set and the corrected walk runs from that parent |
| AvlJs.AVLTree.Delete | backend/data-structures/AVLTree.js:232-342 | returns the contact stored under the name before deletion (none when absent); the tree becomes AVL deletion and size drops by one exactly when found; the tree stays balanced (`Valid()`) |
| AvlJs.AVLTree.RemoveFound | backend/data-structures/AVLTree.js:263-340 | the three removal cases followed by the walk up leave the heap storing AVL deletion of the name |
| AvlJs.AVLTree.SpliceOut | backend/data-structures/AVLTree.js:264-301 | a leaf or one-child node is spliced out and the walk runs from its parent |
| AvlJs.AVLTree.Succeed | backend/data-structures/AVLTree.js:303-322 | the successor is copied and spliced out and the walk runs from its former parent |
| AvlJs.AVLTree.InOrderCollect | backend/data-structures/AVLTree.js:343-355 | returns the stored contacts in ascending name order |
| AvlJs.AVLTree.Search | functions/src/data-structures/BinarySearchTree.js:69-89 | the inherited search returns the contact stored under the name, or none |
| AvlJs.AVLTree.NewlyAddedFirst | backend/data-structures/AVLTree.js:357-375 | the collected contacts sorted by `dateAdded`, newest first with a missing one as 0, as a permutation |
| AvlJs.AVLTree.MostRecentActivityFirst | backend/data-structures/AVLTree.js:377-396 | the collected contacts sorted by `lastActivity`, most recent first with a missing one as 0, as a permutation |
| AvlArena.GetHeight | backend/data-structures/AVLTree.js:21-23 | a height is never negative and is 0 for `null` |
| AvlArena.UpdateHeight | backend/data-structures/AVLTree.js:29-32 | the node's height becomes one more than its taller child's, and nothing else changes |
| AvlArena.RotateRight | backend/data-structures/AVLTree.js:50-68 | the written rotation keeps every link valid and returns the former left child |
| AvlArena.RotateLeft | backend/data-structures/AVLTree.js:76-94 | the written rotation keeps every link valid and returns the former right child |
| AvlArena.Balance | backend/data-structures/AVLTree.js:102-129 | `balance` keeps every link valid and returns a node of the tree |
| AvlArena.Search | backend/data-structures/AVLTree.js:161-200 | when the insertion search ends below a node, that node exists |
| AvlArena.WalkUp | backend/data-structures/AVLTree.js:202-223 | the walk up as written keeps links valid and does not change `size` |
| AvlArena.Insert | backend/data-structures/AVLTree.js:136-225 | insertion as written keeps links valid and raises `size` by one exactly when it returns true |
| AvlArena.BalanceC | backend/data-structures/AVLTree.js:50-68 | in the worked example, `balance` at C promotes B below D while D still links to C |
| AvlArena.LosesNodes | backend/data-structures/AVLTree.js:202-223 | inserting D, C, F, B, A as written leaves only C, D, F reachable while `size` is 5 |
| ContactForm.TrimStart | frontend/src/components/ContactFormModal.tsx:52 | drops exactly the leading white space |
| ContactForm.TrimEnd | frontend/src/components/ContactFormModal.tsx:52 | drops exactly the trailing white space |
| ContactForm.TrimPadded | frontend/src/components/ContactFormModal.tsx:52-70 | white space around a value never changes its trimmed form |
| ContactForm.Utf16Length | frontend/src/components/ContactFormModal.tsx:54 | `.length` counts UTF-16 code units: between one and two per character |
| ContactForm.PhoneMatchesPattern | frontend/src/components/ContactFormModal.tsx:62 | the phone check holds exactly for an optional `+` followed by 7 to 20 digits, white space or `-` |
| ContactForm.IndexOf | frontend/src/components/ContactFormModal.tsx:70 | the first position of a character present in a string |
| ContactForm.EmailMatchesPattern | frontend/src/components/ContactFormModal.tsx:70 | the e-mail check holds exactly for three non-empty runs without white space or `@`, joined by `@` and a later `.` |
| ContactForm.FieldError | frontend/src/components/ContactFormModal.tsx:50-79 | for a trimmed value, each field's error is empty exactly when its rule holds, the "required" message exactly when the value is empty, and the "too short" or "invalid" message exactly when the value is non-empty and fails the rule; other fields never err |
| ContactForm.ValidateField | frontend/src/components/ContactFormModal.tsx:48-80 | the same three outcomes per field, applied to the trimmed value |
| ContactForm.ValidateFieldIgnoresPadding | frontend/src/components/ContactFormModal.tsx:52-70 | padding a value with white space never changes its verdict |
| ContactForm.ValidateForm | frontend/src/components/ContactFormModal.tsx:82-107 | the errors record holds `validateField`'s message for the name, phone and e-mail; the address and general errors are empty; the form is valid exactly when the name, phone and e-mail errors are empty |
| ContactForm.ValidateFormAccepts | frontend/src/components/ContactFormModal.tsx:82-107 | the form is valid exactly when the trimmed name has at least two code units and the trimmed phone and e-mail match their patterns |
| ContactCard.LastSpace | frontend/src/components/ContactCard.tsx:23 | the position of the last space, or -1 when there is none |
| ContactCard.FirstSpace | frontend/src/components/ContactCard.tsx:23 | the position of the first space, or the length when there is none |
| ContactCard.Split | frontend/src/components/ContactCard.tsx:18 | `split(" ")` yields at least one piece |
| ContactCard.JoinSplit | frontend/src/components/ContactCard.tsx:18 | joining the pieces with single spaces gives the name back |
| ContactCard.SplitPiecesHaveNoSpace | frontend/src/components/ContactCard.tsx:18 | no piece contains a space |
| ContactCard.SplitFirst | frontend/src/components/ContactCard.tsx:23 | the first piece is the text before the first space |
| ContactCard.SplitSingle | frontend/src/components/ContactCard.tsx:19 | there is exactly one piece when the name has no space |
| ContactCard.Upper | frontend/src/components/ContactCard.tsx:20 | upper-casing changes each character and keeps the length |
| ContactCard.FirstChar | frontend/src/components/ContactCard.tsx:20 | `charAt(0)` modelled on characters: the first character, or empty for an empty string |
| ContactCard.GetInitials | frontend/src/components/ContactCard.tsx:17-25 | the initials have at most two characters |
| ContactCard.GetInitialsMeaning | frontend/src/components/ContactCard.tsx:17-25 | a name without a space gives its upper-cased first character (empty for an empty name); otherwise the upper-cased first characters before the first space and after the last space, an empty piece giving nothing |
| ContactCard.LeadingSpaceExample | frontend/src/components/ContactCard.tsx:18-24 | " Bob" gives "B" |

## Left out

- Name comparison: `localeCompare` (in both plain trees and the backend AVL tree) and the `<`, `>` and `===` of the cloud AVL tree are all modelled by one order, `Contacts.Less`.
  - `Less` is lexicographic on characters.
  - Collation by locale is not modelled.
  - The difference between UTF-16 code-unit order and code-point order is not modelled.
  - Names that `localeCompare` calls equal but that are not identical are treated as different.
- AvlTs.AVLTree.Insert: its `Valid()` does not include the AVL invariant, because the same class's deletion breaks it; insertion alone keeps it (`AvlBalance.AvlInsertBalanced`).
- AvlTs.AVLTree.Delete: does not keep the AVL invariant, because the source does not rebalance after a leaf or one-child removal (`AvlBalance.PartialDeleteUnbalances`); it proves order, contents and size.
- AvlJs.AVLTree.Insert: this is the corrected insertion.
  - Its walk up redirects the parent after a rotation, as deletion does.
  - The insertion as written is `AvlArena.Insert` (see "## Findings").
- AvlArena.Insert: models the written insertion on values rather than on heap nodes.
  - The nodes are a sequence of records linked by index.
  - Nothing general is proved about its contents; it is shown wrong on one concrete sequence of insertions.
- AvlArena.Search: both walks are bounded by the number of nodes. This models a finite search; a search that uses up its steps (`Exhausted`) makes the insertion return false, which cannot happen on a tree whose links form no cycle.
- AvlArena.WalkUp: bounded by the number of nodes, for the same reason.
- `getBalanceFactor(null)` in the backend tree would throw. Both AVL models use the cloud version, which returns 0. No modelled path calls it with `null` on an unbalanced node.
- AvlTs.AVLTree.NewlyAddedFirst: the sort comparator builds `Date` objects. Timestamps are integers (milliseconds), a missing one is 0, and the comparator is the difference of keys.
- Sorting: the stability of `Array.prototype.sort` is not modelled. The views promise only descending keys and the same contacts.
- `size()` in `functions/src/data-structures/BinarySearchTree.js` is shadowed by the `size` field set in the constructor, so calling it would throw. It is not modelled; `size` is modelled as the field.
- The backend tree's `search`, `inOrderTraversal` and `isEmpty` are inherited from `backend/data-structures/BinarySearchTree.js`, which is not part of this model. `AvlJs.AVLTree.Search` follows the cloud functions' `BinarySearchTree.js` search instead.
- The order of `size++` relative to the rebalancing walk is not observable, so the model updates `size` after the walk.
- Console logging, the `instanceId` debugging string, the timestamp logging inside `getContactsNewlyAddedFirst` (except that it throws on a missing `dateAdded`, which is modelled) are left out.
- The `setErrors` call of `validateForm` is React state. It is not modelled; its argument is the `FormErrors` result.
- ContactCard.FirstChar: `charAt(0)` returns one UTF-16 code unit, so for a name starting with a character above U+FFFF the source yields a lone surrogate. A Dafny string cannot hold a lone surrogate, so the model takes the whole first character.
- `toUpperCase` is modelled for ASCII letters only; other characters are left unchanged.
- White space for `trim` and for `\s` in the patterns is the ECMAScript set of white-space and line-terminator characters.
- Route handlers, Firestore I/O, the startup loader, the server wiring, React hooks and rendering are outside this model.

## Findings

| source | as written | input that shows it | evidently intended | confidence | as-written member | corrected member |
|---|---|---|---|---|---|---|
| backend/data-structures/AVLTree.js:202-223 | after `balance` rotates at a node that is not the root, the parent's child link is never redirected to the promoted node | insert contacts named D, C, F, B, A into an empty tree: the rotation at C leaves D's left link at C, so B and A become unreachable while `size` is 5 | redirect the parent's link after each rotation, as the deletion walk does (lines 325-340), so every inserted contact stays reachable | not executed | AvlArena.LosesNodes | AvlJs.AVLTree.Insert |
| functions/src/data-structures/AVLTree.ts:268-300 | `_inOrderCollect` returns nothing, and both time views call `sort` on its result | any tree, including the empty one: `sort` of `undefined` throws | collect into the array and sort that, as `inOrderTraversal` does | not executed | AvlTs.AVLTree.NewlyAddedFirst | AvlTs.AVLTree.NewlyAddedFirstIntended |
