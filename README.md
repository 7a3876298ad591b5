# AVL tree of AVLTree.java, modelled and proved in Dafny

This project models the AVL tree of `AVLTree.java`: a binary search tree over `int` keys with an
info payload per node. Every missing child is one shared external leaf. Each node stores its
height. Insert and delete fix the tree up on the way back to the root and return the number of
rebalancing operations they performed. The payload type is a type parameter `V`; the source
uses `String`.

The model has two layers.

- **Value layer.** Modules `AvlCore`, `AvlWalk`, `AvlOrder`, `AvlOps`, `AvlUpdate` and
  `AvlScenarios` describe the tree as a datatype `Tree<V>` with stored heights.
  - A zipper (`Frame`, `Plug`) stands for the parent chain.
  - `Walk` is the upward `while (p != null)` loop of insert and delete. `Visit` is one pass of
    that loop: rebalance, then updateHeight.
  - `Insert` and `Delete` are the two update operations, each returning the tree and the
    rebalance count.
  - Their correctness is proved against the sorted list of entries (`InOrder`):
    - insert places the entry (`InsertEntry`) and delete removes it (`RemoveEntry`);
    - the counters are -1 exactly on a duplicate or missing key;
    - the size moves by one;
    - the result is again an AVL tree with correct stored heights.
- **Pointer layer.** Modules `AvlNodes` and `AvlTrees` hold the classes `AvlNode` (the fields of
  AVLNode) and `AvlTree` (root, node counter and external leaf).
  - The operations that change nodes step by step (insert, delete and its three cases,
    the rotations, rebalance, updateHeight, successor, minSubtree, min, max, keysToArray,
    infoToArray, getBalance and the setters) become methods over linked node objects.
    search, treeSearch and inOrderTraversal, which only recurse, become functions reading
    the heap. split and join are left out.
  - The tree keeps a ghost `Shape` of its objects and ghost maps mirroring their links and
    fields. `Model()` reads the value tree off them.
  - Each method is proved to change the heap exactly as the matching value function says:
    `Insert`, `Delete`, the rotations, `rebalance`, `updateHeight`, the three delete cases and
    the retracing loop.
  - The queries are proved to return what the value model says: search, min, max,
    successor, keysToArray, infoToArray, size and empty.

## Model

| member | source | states |
|---|---|---|
| AvlCore.UpdateHeight | AVLTree.java:520-524 | the new height is one more than the larger child height; the flag is true exactly when the stored height changed; keys, info and children are unchanged |
| AvlCore.UpdateHeightIdempotent | AVLTree.java:520-524 | a second updateHeight changes nothing, and on an AVL tree with correct heights the first changes nothing |
| AvlCore.RotateRight | AVLTree.java:574-586 | the rotation keeps the in-order sequence, promotes the left child and recomputes the two heights from their children |
| AvlCore.RotateLeft | AVLTree.java:555-567 | mirror of RotateRight: in-order kept, right child promoted, both heights recomputed |
| AvlCore.RotateRightThenLeft | AVLTree.java:555-586 | rotateLeft undoes rotateRight on a node whose heights are correct |
| AvlCore.RotateLeftThenRight | AVLTree.java:555-586 | rotateRight undoes rotateLeft on a node whose heights are correct |
| AvlCore.RotationsSane | AVLTree.java:555-586 | rotations keep every stored height non-negative |
| AvlCore.Rebalance | AVLTree.java:191-229 | in-order kept; balance within -1..1 means nothing is done and the count is 0; a left-heavy node costs 2 (single) or 5 (double rotation when the left child leans right), and right-heavy is the mirror; the old node ends up on the side the source says |
| AvlCore.Visit | AVLTree.java:170-178 | one pass of the retracing loop keeps the in-order sequence and non-negative stored heights, and without a rotation it is updateHeight |
| AvlCore.VisitValid | AVLTree.java:170-178 | on an AVL node the pass changes nothing and counts 0 |
| AvlCore.VisitRestores | AVLTree.java:191-229 | a node whose children are AVL and whose balance is within -2..2 becomes AVL, with its height within one of the taller child |
| AvlCore.SingleRightAvl | AVLTree.java:204-208 | the single right rotation of a left-heavy node balanced by its left child gives an AVL tree |
| AvlCore.SingleLeftAvl | AVLTree.java:219-222 | the single left rotation of a right-heavy node gives an AVL tree |
| AvlCore.DoubleRightAvl | AVLTree.java:198-208 | the left-right double rotation gives an AVL tree |
| AvlCore.DoubleLeftAvl | AVLTree.java:213-222 | the right-left double rotation gives an AVL tree |
| AvlWalk.Walk | AVLTree.java:169-179 | the climb from a node to the root returns a tree with non-negative stored heights and a non-negative count |
| AvlWalk.WalkInOrder | AVLTree.java:169-179 | the climb keeps the in-order sequence of the whole tree |
| AvlWalk.WalkRestores | AVLTree.java:169-179 | starting from a node within one of its original height in an AVL tree, the climb yields an AVL tree |
| AvlWalk.WalkSteady | AVLTree.java:169-179 | such a climb never rotates when it revisits a position, so Walk visits the positions the source's loop visits |
| AvlOps.Locate | AVLTree.java:130-137 | the descent keeps the tree (plugging the result back gives the input) and stops at a node only when its key is k |
| AvlOps.LocateFinds | AVLTree.java:130-137 | in a search tree the descent stops at a node exactly when k is a key of the tree |
| AvlOps.Search | AVLTree.java:69-87 | what search finds under k is an entry (k, v) of the tree, whatever the tree's order |
| AvlOps.SearchCorrect | AVLTree.java:69-87 | search returns the info stored with k in the sorted entry list, or None |
| AvlOps.SearchFinds | AVLTree.java:69-87 | search finds something exactly when k is a key, and returns v exactly when (k, v) is an entry |
| AvlOps.MinSubtree | AVLTree.java:369-374 | the leftmost node of a subtree: no left child, same whole tree, and its entry comes first in the rest of the in-order sequence |
| AvlOps.FirstLeftOf | AVLTree.java:356-361 | climbing until coming up from a left child yields the first entry after the subtree, or None at the end |
| AvlOps.Successor | AVLTree.java:352-362 | the successor is the first entry after the node in symmetric order, or None |
| AvlOps.SuccessorCorrect | AVLTree.java:352-362 | the successor is the entry at the next index of the whole tree's in-order sequence |
| AvlOps.SuccessorIsNextKey | AVLTree.java:352-362 | in a search tree the successor holds the least key greater than the node's key |
| AvlOps.MinInfo | AVLTree.java:382-393 | None for the empty tree, else the info of the first in-order entry |
| AvlOps.MaxInfo | AVLTree.java:401-411 | None for the empty tree, else the info of the last in-order entry |
| AvlOps.MinMaxExtreme | AVLTree.java:382-411 | in a search tree min and max return the info of the entries with the least and greatest keys |
| AvlOps.ArraysSorted | AVLTree.java:419-449 | the key and info arrays have one slot per node, the keys are strictly increasing, each slot pairs a key with its info, and the keys are exactly the tree's keys |
| AvlUpdate.NewNode | AVLTree.java:109-114 | a new node is a one-entry AVL tree of height 0 |
| AvlUpdate.Hang | AVLTree.java:143-179 | hanging a new leaf and climbing gives a tree with non-negative stored heights and a non-negative count |
| AvlUpdate.HangAvl | AVLTree.java:143-179 | hanging a leaf at the place the descent found in an AVL tree and climbing gives an AVL tree |
| AvlUpdate.Insert | AVLTree.java:127-183 | insert keeps stored heights non-negative and returns a count of at least -1 |
| AvlUpdate.InsertCorrect | AVLTree.java:127-183 | insert adds (k, v) at its sorted place, returns -1 and leaves the tree unchanged exactly when k was present, grows the size by one otherwise, and yields an AVL search tree |
| AvlUpdate.Unlink | AVLTree.java:251-277 | the subtree that takes the removed node's place holds fewer entries than the node's subtree did |
| AvlUpdate.UnlinkStart | AVLTree.java:251-277 | the climb starts at the parent of a removed leaf or one-child node, and strictly below a binary node, on a path that ends with the node's own path |
| AvlUpdate.UnlinkOrder | AVLTree.java:251-277 | unlinking removes exactly the node's own entry from the symmetric order: the entries before and after, with those of its two subtrees, stay in order |
| AvlUpdate.Climb | AVLTree.java:280-291 | the climb after a removal keeps stored heights non-negative and counts at least 0 |
| AvlUpdate.ClimbAvl | AVLTree.java:280-291 | after replacing a node with fewer than two children by its child, the climb restores the AVL property |
| AvlUpdate.Delete | AVLTree.java:240-296 | delete keeps stored heights non-negative and returns a count of at least -1 |
| AvlUpdate.DeleteAvl | AVLTree.java:240-296 | delete from an AVL tree gives an AVL tree |
| AvlUpdate.DeleteCorrect | AVLTree.java:240-296 | delete removes k's entry, returns -1 and leaves the tree unchanged exactly when k is absent, shrinks the size by one otherwise, and yields an AVL search tree |
| AvlScenarios.InsertFirst | AVLTreeTest.java:46-47 | inserting 43 into the empty tree gives one node and count 0 |
| AvlScenarios.InsertSecond | AVLTreeTest.java:48 | then inserting 18 changes one height and counts 1 |
| AvlScenarios.InsertThird | AVLTreeTest.java:49 | then inserting 22 does a double rotation, counts 6 and makes 22 the root |
| AvlScenarios.InsertThree | AVLTreeTest.java:46-50 | the three inserts count 0, 1 and 6 and leave an AVL tree of size 3 with keys 18, 22, 43 |
| AvlScenarios.RotateTest | AVLTreeTest.java:57-82 | the ten heap-ordered nodes of the rotate test, whose keys are not a search tree, form a linked tree the rotations accept at its root; after rotateRight at node 0, node 1 has no parent (so becomes the root), node 0 is its right child with node 4 as left child, and node 4's parent is node 0; rotateLeft at node 1 then restores every link |
| AvlNodes.AvlNode.constructor | AVLTree.java:670-676 | a new node holds the given key and info, height 0, no links, not external |
| AvlTrees.AvlTree.constructor | AVLTree.java:43-50 | a new tree is empty, with no root, zero nodes and a fresh external leaf |
| AvlTrees.AvlTree.UpdateHeight | AVLTree.java:520-524 | the node's height and changed flag are those of AvlCore.UpdateHeight on the subtree, and nothing else changes |
| AvlTrees.AvlTree.SetHeight | AVLTree.java:755-757 | only the node's stored height changes |
| AvlTrees.AvlTree.SetLeft | AVLTree.java:704-707 | only the node's left link changes |
| AvlTrees.AvlTree.SetRight | AVLTree.java:718-721 | only the node's right link changes |
| AvlTrees.AvlTree.SetParent | AVLTree.java:737-739 | only the node's parent link changes |
| AvlTrees.AvlTree.SetInfo | AVLTree.java:679-681 | only the node's info changes |
| AvlTrees.AvlTree.SetKey | AVLTree.java:683-685 | only the node's key changes |
| AvlTrees.AvlTree.SetRoot | AVLTree.java:507-509 | only the root changes |
| AvlTrees.AvlTree.GetParent | AVLTree.java:746-748 | returns the node directly above, or null at the root |
| AvlTrees.AvlTree.GetBalance | AVLTree.java:589-593 | 0 for null, else the balance of the node's subtree |
| AvlTrees.AvlTree.UpdateParentsAfterRotation | AVLTree.java:540-547 | the new subtree root takes the old root's place under its parent, or becomes the tree's root; the old root's parent becomes the new root |
| AvlTrees.AvlTree.RotateRight | AVLTree.java:574-586 | the linked subtree becomes AvlCore.RotateRight of the old one, the rest of the tree unchanged; keys are compared only to find the side under the parent, so the tree need not be a search tree |
| AvlTrees.AvlTree.RotateLeft | AVLTree.java:555-567 | the linked subtree becomes AvlCore.RotateLeft of the old one, the rest of the tree unchanged; as for RotateRight, no search-tree order is required |
| AvlTrees.AvlTree.Rotate | AVLTree.java:531-538 | null or the external leaf is left alone and gives null; 'R' rotates right and anything else rotates left |
| AvlTrees.AvlTree.Rebalance | AVLTree.java:191-229 | the subtree and count are those of AvlCore.Rebalance, and the old node ends up where the source says |
| AvlTrees.AvlTree.VisitNode | AVLTree.java:170-178 | one loop pass makes the subtree and count of AvlCore.Visit, and the next node is the new subtree root after a rotation, else the parent |
| AvlTrees.AvlTree.Retrace | AVLTree.java:168-179 | the retracing loop leaves the tree and count that AvlWalk.Walk computes |
| AvlTrees.AvlTree.CreateNewNode | AVLTree.java:109-114 | a fresh real node of height 0 with the given key and info, whose children are the external leaf |
| AvlTrees.AvlTree.Descend | AVLTree.java:130-137 | finds the key exactly when AvlOps.Locate stops at a node; otherwise returns the parent-to-be, on the side of the key |
| AvlTrees.AvlTree.Insert | AVLTree.java:127-183 | the tree and count afterwards are AvlUpdate.Insert of the tree before, and the tree stays a valid AVL tree with its node counter |
| AvlTrees.AvlTree.TreeSearch | AVLTree.java:90-97 | returns the node at which AvlOps.Locate stops, or null |
| AvlTrees.AvlTree.SearchFrom | AVLTree.java:80-87 | null or the external leaf exactly when AvlOps.Search finds nothing; otherwise a node with key k holding the found info |
| AvlTrees.AvlTree.Search | AVLTree.java:69-74 | the result is AvlOps.Search of the tree |
| AvlTrees.AvlTree.MinSubtree | AVLTree.java:369-374 | returns the leftmost node of the subtree |
| AvlTrees.AvlTree.Successor | AVLTree.java:352-362 | null exactly when AvlOps.Successor is None, else the node holding the successor's entry; with a right subtree, its leftmost node |
| AvlTrees.AvlTree.DeleteLeaf | AVLTree.java:304-313 | the leaf is replaced by the external leaf, the rest unchanged |
| AvlTrees.AvlTree.DeleteUnary | AVLTree.java:322-341 | the node is replaced by its only child, which keeps its subtree, the rest unchanged |
| AvlTrees.AvlTree.DeleteBinary | AVLTree.java:266-276 | copies the successor's key and info into the node and removes the successor, as AvlUpdate.Unlink describes |
| AvlTrees.AvlTree.Detach | AVLTree.java:251-277 | the four cases of delete unlink the node as AvlUpdate.Unlink describes and return the parent where retracing starts |
| AvlTrees.AvlTree.ClimbFrom | AVLTree.java:280-291 | the retracing after a removal leaves the tree and count of AvlUpdate.Climb |
| AvlTrees.AvlTree.Delete | AVLTree.java:240-296 | the tree and count afterwards are AvlUpdate.Delete of the tree before, and the tree stays a valid AVL tree with its node counter |
| AvlTrees.AvlTree.Empty | AVLTree.java:58-60 | true exactly when the tree is empty |
| AvlTrees.AvlTree.Size | AVLTree.java:461-463 | the node counter equals the number of entries |
| AvlTrees.AvlTree.Min | AVLTree.java:382-393 | returns AvlOps.MinInfo of the tree |
| AvlTrees.AvlTree.Max | AVLTree.java:401-411 | returns AvlOps.MaxInfo of the tree |
| AvlTrees.AvlTree.InOrderTraversal | AVLTree.java:603-611 | the list of nodes pairs, index by index, with the in-order entries of the subtree |
| AvlTrees.AvlTree.KeysToArray | AVLTree.java:419-429 | a fresh array holding the keys in symmetric order |
| AvlTrees.AvlTree.InfoToArray | AVLTree.java:439-449 | a fresh array holding the infos in symmetric order |

## Left out

- split and join, with the per-node size field they would use: outside the modelled core.
- Logging, `main` and the printing helpers: I/O.
- The `IAVLNode` interface: `AvlNode` is the only implementation and is modelled directly.
- The `String` payload: it is a type parameter `V`.
- The `LinkedList` returned by inOrderTraversal: modelled as a `seq` of nodes.
- Counters and keys are unbounded integers. The source's `int` could overflow only with more than 2^31 nodes.
- AvlTrees.AvlTree.TreeSearch: treeSearch as written stops at the external leaf when k is -1, the external leaf's own key (AVLTree.java:45, 91). The model never treats the external leaf as a match.
- AvlTrees.AvlTree.DeleteLeaf: as written, deleting the leaf that is the root reads the parent of a null node (AVLTree.java:306-312). The model leaves an empty tree.
- AvlTrees.AvlTree.DeleteUnary: as written, deleting a root that has one child never moves the root to the child (AVLTree.java:322-341). The model makes the child the root.
- AvlTrees.AvlTree.DeleteUnary: requires the side argument to name the node's only child. The source passes nothing else, and other characters have no defined effect there.
- AvlTrees.AvlTree.ClimbFrom: as written, delete calls updateHeight on a null parent when the removed node was a root with at most one child (AVLTree.java:251, 280); a binary root's climb starts at the successor's parent (AVLTree.java:272). The model skips the climb and counts 0.
- AvlTrees.AvlTree.RotateRight: as written, the source never sets the parent of the child that moves across (AVLTree.java:576-579), although the rotate test expects it (AVLTreeTest.java:76). The model sets it when that child is a real node.
- AvlTrees.AvlTree.RotateLeft: the same missing parent update (AVLTree.java:557-560) is modelled as intended.
- AvlTrees.AvlTree.Retrace: requires the climb to be Steady (never rotating on a revisit). Insert and delete on an AVL tree always satisfy this; the public Insert and Delete carry no such requirement.
- AvlTrees.AvlTree.Insert: the key check at AVLTree.java:148-151 can never succeed after the descent, so the model does not repeat it.
- AvlTrees.AvlTree.Min: the final null test at AVLTree.java:391 can never fire on a non-empty tree, so the model does not repeat it.
- AvlTrees.AvlTree.Max: the same test at AVLTree.java:409 is not repeated either.
