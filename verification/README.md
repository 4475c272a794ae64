# Containers: red-black tree, dynamic array, doubly-linked nodes

This project models three sequential containers of a C++ teaching library. Each
is stated in Dafny as pure functions (or short methods) on immutable values, with
contracts and lemmas for what each operation promises.

- **`BST<T>`** is the red-black binary search tree of `bst.h`. Modules:
  - `RbTree`: the node structure as an algebraic tree `Leaf | Node(color, left, key, right)`, a separately kept element counter, and the invariants the debug verifiers state.
  - `RbZipper`: a node's way up to the root as a list of frames, standing in for the `pParent` pointers.
  - `RbInsert`: `insert` with the `BNode::balance` fix-up.
  - `RbIterator`: `begin`, `find`, and the iterator's `++`/`--`. An iterator is a path from the root, or `End`.
  - `RbErase`: `erase`.
  - `RbContainer`: constructors, assignment, `copyTree`, `swap`, `clear`.
  - `RbVerify`: `findDepth`, `verifyRedBlack` and `verifyBTree`, related to the invariants they check.
  - `RbAsWritten`: the fix-up and the iterator `insert` returns, as the code writes them where that differs from the intended behaviour (see Findings).

  Keys are `int`, compared with `<` and `==` as the source compares `T`. `insert(T&&)` (bst.h:513-560) is the same algorithm as `insert(const T&)` and shares its model.
- **`vector<T>`** (`vector.h`) is the `DynamicArray` module: the live elements as a sequence plus the number of allocated slots.
- **The `Node<T>` free functions** of `node.h` are two modules:
  - `LinkedList`: the node cells as a heap of addresses, with `size`, `insert` and `remove`.
  - `ListCopy`: the whole-list walks `copy`, `assign`, `clear` and `swap`.

  A list is the sequence of addresses its `pNext` links run through. `IsList` also requires the `pPrev` links to mirror them.

Two points about `erase` (bst.h:568-640):

- `erase` does not rebalance, and neither does the model.
- `erase` of the root empties the tree. The main model corrects this: the root is spliced out like any other node, and the node taking its place is painted black. The as-written behaviour is modelled separately (see Findings).

## Model

| member | source | states |
|---|---|---|
| RbTree.OrderedIffSorted | bst.h:891-928 | the recursive ordering rule that `verifyBTree` asserts holds exactly when the in-order key sequence is sorted |
| RbVerify.FindDepthIsBlackHeight | bst.h:828-839 | in a black-balanced tree the right-preferring path `findDepth` walks counts the black height |
| RbVerify.RulesPassCheck | bst.h:846-883 | a subtree with no red-red edge and equal black heights passes the (corrected) `verifyRedBlack` started at its black height |
| RbVerify.RedBlackPassesCheck | bst.h:846-883 | a red-black tree passes `root->verifyRedBlack(root->findDepth())` |
| RbVerify.CheckGivesColorRules | bst.h:846-869 | passing `verifyRedBlack` implies the root is black and no red node has a red child |
| RbVerify.AsWrittenIsColorRules | bst.h:872-874 | as written, `verifyRedBlack` holds exactly when the colour rules hold, whatever the depth argument |
| RbVerify.AsWrittenMissesBlackHeight | bst.h:872 | a tree with unequal black heights passes the check as written but fails the corrected one |
| RbVerify.VerifyBTreeIffOrdered | bst.h:891-928 | `verifyBTree` succeeds exactly on ordered subtrees and then reports their first and last key in order |
| RbZipper.Unzip | bst.h:191-195 | cutting a tree at a node yields that node and the frames above it; plugging it back rebuilds the tree, and the frames spell the node's path |
| RbZipper.PlugInOrder | bst.h:191-195 | the keys of the focused subtree sit exactly between the keys the parent frames put before and after it |
| RbInsert.Recolor | bst.h:968-975 | the red-aunt recolouring keeps the in-order keys and makes the grandparent red |
| RbInsert.Rotate | bst.h:978-1059 | each rotation case puts a black node on top (the parent when aligned, the new node when bent), leaves the old grandparent as a red child, and keeps the in-order keys |
| RbInsert.Balance | bst.h:948-1060 | the fix-up never changes the tree's in-order key sequence |
| RbInsert.RecolorKeepsState | bst.h:968-975 | after case 3 the grandparent is in the same fix-up state two levels higher, so the recursion is sound |
| RbInsert.RotateRestores | bst.h:978-1059 | a rotation in the fix-up state leaves the whole tree red-black |
| RbInsert.RedParentHasBlackParent | bst.h:968-978 | in the fix-up state a red parent has a black parent, so every red-parent case is 3 or 4 |
| RbInsert.BalanceRestoresRedBlack | bst.h:948-1060 | the fix-up started from a red node under a possibly red parent ends with a red-black tree |
| RbInsert.BalanceKeepsRootBlack | bst.h:956-1059 | the fix-up always leaves the root black |
| RbInsert.BalanceTracks | bst.h:948-1060 | the node being tracked through the fix-up is still a node of the result, at the same in-order position |
| RbInsert.Descend | bst.h:460-500 | the descent ends at a null child pointer or, only with `keepUnique`, at a node with an equal key; plugging back gives the tree it started from |
| RbInsert.DescendSplits | bst.h:469-497 | in an ordered tree the descent reaches a slot after every key `<= x` and before every key `> x` |
| RbInsert.DescendFindsEqual | bst.h:463-465 | with `keepUnique`, the descent stops at an equal key whenever the ordered tree holds one |
| RbInsert.HangAndBalance | bst.h:474-476 | hanging the new red node and balancing puts `x` exactly between the slot's neighbours and keeps a path to it |
| RbInsert.Insert | bst.h:447-504 | the empty tree gets one black root and `(root, true)`; a rejected duplicate leaves tree and size alone; otherwise `x` is spliced into the in-order sequence and size and node count rise by one; the iterator addresses a node holding `x` |
| RbInsert.InsertBetween | bst.h:469-497 | the new key lands after every key `<= x` and before every key `> x` |
| RbInsert.InsertKeepsOrdered | bst.h:447-504 | inserting into an ordered tree leaves it ordered |
| RbInsert.InsertUniqueIffAbsent | bst.h:460-465 | with `keepUnique`, an ordered tree accepts `x` exactly when `x` is not already a key |
| RbInsert.InsertKeepsRedBlack | bst.h:447-504 | inserting into a red-black tree leaves a red-black tree |
| RbInsert.InsertKeepsRootBlack | bst.h:449-454 | the root stays black, so successive inserts are always possible |
| RbInsert.InsertAddsOne | bst.h:474-495 | the multiset of keys gains exactly one `x` when inserted and is unchanged otherwise |
| RbIterator.LeftSpine | bst.h:1080-1087 | the leftmost descent from a subtree reaches its first in-order node, which has no left child |
| RbIterator.RightSpine | bst.h:1122-1129 | the rightmost descent reaches the subtree's last in-order node, which has no right child |
| RbIterator.Increment | bst.h:1075-1110 | `++` yields a valid node or `End` |
| RbIterator.IncrementIsSuccessor | bst.h:1075-1110 | `++` moves to in-order position + 1, and reaches `End` exactly from the last key |
| RbIterator.Decrement | bst.h:1118-1148 | `--` yields a valid node or `End` |
| RbIterator.DecrementIsPredecessor | bst.h:1118-1148 | `--` moves to in-order position - 1, and reaches `End` exactly from the first key |
| RbIterator.IncrementAsWrittenAgrees | bst.h:1090-1109 | `++` as written equals the successor step except on a root without a right child |
| RbIterator.IncrementAsWrittenStuck | bst.h:1109 | on a one-node tree, `++begin()` as written stays at `begin()` instead of reaching `end()` |
| RbIterator.DecrementAsWrittenAgrees | bst.h:1131-1145 | `--` as written equals the predecessor step except on a root without a left child |
| RbIterator.DecrementAsWrittenFails | bst.h:1131 | on a one-node tree, `--begin()` as written dereferences a null parent |
| RbIterator.Begin | bst.h:690-703 | `begin()` is the node at in-order position 0, and is `end()` exactly for an empty counted tree |
| RbIterator.AdvanceFromBegin | bst.h:690-703 | the `k`-th `++` from `begin()` is in-order position `k`, and the `size`-th is `end()` |
| RbIterator.IterationIsSorted | bst.h:1075-1110 | iterating an ordered tree from `begin()` visits keys in non-decreasing order |
| RbIterator.FindPath | bst.h:716-732 | a found path leads to a node holding the key searched for |
| RbIterator.Find | bst.h:712-736 | `find` returns `end()` or an iterator to a node holding `t` |
| RbIterator.FindComplete | bst.h:712-736 | in an ordered tree `find` returns `end()` exactly when `t` is not a key |
| RbErase.DetachMin | bst.h:594-604 | unlinking the successor leaves one node fewer |
| RbErase.DetachMinKeys | bst.h:594-604 | the detached node holds the subtree's first key and the rest keep their order |
| RbErase.SpliceKeys | bst.h:586-632 | the replacement for an erased node holds its left keys followed by its right keys |
| RbErase.Erase | bst.h:568-640 | `end()` erases nothing; otherwise the counter drops by one |
| RbErase.EraseAsWritten | bst.h:579-583 | as written, erasing the root leaves no nodes and returns `end()`; every other erase is the corrected one |
| RbErase.EraseRemovesKey | bst.h:568-640 | erasing the node at in-order position `i` removes exactly the key at index `i` |
| RbErase.EraseKeepsOrdered | bst.h:568-640 | erase keeps an ordered tree ordered |
| RbErase.EraseKeepsCounted | bst.h:576 | the counter still equals the number of nodes after erase |
| RbErase.EraseKeepsRootBlack | bst.h:579-583 | a black root stays black after any erase, so `insert`'s black-root precondition still holds; for the root this is the corrected erase, which paints the root's replacement black |
| RbErase.EraseReturnsSuccessor | bst.h:568-640 | the returned iterator addresses the erased key's in-order successor in the new tree, and is `end()` exactly when the last key was erased |
| RbErase.EraseCanBreakRedBlack | bst.h:586-592 | erasing a black leaf of a red-black tree can leave unequal black heights: erase does not rebalance |
| RbErase.EraseRootAsWrittenLosesKeys | bst.h:579-583 | as written, erasing the root of a three-node tree loses all keys while the counter says two remain |
| RbErase.EraseRootKeepsOthers | bst.h:579-583 | the corrected erase of the root removes only the root's key and keeps the tree counted |
| RbContainer.Empty | bst.h:283-287 | the default tree is counted and holds no keys |
| RbContainer.ClearCount | bst.h:660-681 | clearing a subtree lowers the counter by its number of nodes |
| RbContainer.Clear | bst.h:650-657 | `clear()` leaves no root and a counter lowered by the node count, zero when it was counted |
| RbContainer.CopyTree | bst.h:369-394 | `copyTree` makes the destination equal to the source, whatever it held before |
| RbContainer.CopyAssign | bst.h:343-362 | copy assignment takes the right-hand side's nodes, and its counter too unless that tree is empty, in which case it is `clear()` |
| RbContainer.CopyAssignCopies | bst.h:343-362 | between counted trees, copy assignment reproduces the right-hand side exactly |
| RbContainer.CopyConstruct | bst.h:294-301 | the copy constructor reproduces a counted right-hand side |
| RbContainer.Swap | bst.h:432-439 | `swap` exchanges roots and counters |
| RbContainer.SwapTwice | bst.h:432-439 | swapping twice restores both trees |
| RbContainer.MoveConstruct | bst.h:308-315 | the move constructor takes the right-hand side and leaves it empty |
| RbContainer.MoveAssign | bst.h:415-425 | move assignment takes the right-hand side and leaves it the cleared left-hand tree |
| RbContainer.AssignList | bst.h:402-408 | assigning a list inserts each key, so size and node count rise by the list's length and the root stays black |
| RbContainer.AssignListKeys | bst.h:402-408 | the key multiset grows by exactly the list's multiset |
| RbContainer.AssignListKeepsInvariants | bst.h:402-408 | an ordered red-black tree stays ordered and red-black |
| RbAsWritten.AsWrittenAgreesWithoutRotation | bst.h:956-975 | when no rotation is needed, the fix-up as written equals the corrected one |
| RbAsWritten.Case4aAtRootLosesKeys | bst.h:991-994 | case 4a at the root as written leaves the root pointer on the old grandparent, losing two keys; corrected, all keys remain in a red-black tree |
| RbAsWritten.Case4bAtRootMakesCycle | bst.h:1008-1012 | case 4b at the root as written makes the root node its own child; corrected, a red-black tree with all keys |
| RbAsWritten.RelinkOnWrongSide | bst.h:1027-1030 | case 4c below the root as written relinks to the wrong side of the great-grandparent, giving an unsorted tree that loses a key |
| RbAsWritten.WrongSideAsWritten | bst.h:1029 | in that example the as-written in-order sequence is `[5, 10, 3, 4, 5]` |
| RbAsWritten.WrongSideCorrected | bst.h:1016-1036 | in that example the corrected fix-up gives `[3, 4, 5, 10, 20]` |
| RbAsWritten.ParentKeepsPosition | bst.h:948-1060 | `pCurrent`, the node the new node was hung under, is found after `balance` at the same in-order position it had before |
| RbAsWritten.InsertedIteratorAsWritten | bst.h:474-478 | as written, `insert` returns `pCurrent`'s child on the new node's side read after `balance`, and `end()` when that child pointer is null; the path it returns addresses a node of the corrected balanced tree (`HangAndBalance`), so the bst.h:495 defect is isolated on top of the corrected fix-up |
| RbAsWritten.InsertedIteratorLostIffBent | bst.h:1015-1024 | that iterator is `end()` exactly when the first fix-up step is a double rotation (case 4c or 4d), where `pParent->addRight(pTempL)` or `pParent->addLeft(pTempR)` gives `pCurrent` the new node's null child; in every other case it is the iterator to the new node |
| RbAsWritten.InsertIteratorLost | bst.h:491-495 | after a case-4c rotation the as-written iterator is `end()` although the new node exists |
| DynamicArray.Default | vector.h:222-227 | size 0, capacity 0 |
| DynamicArray.Filled | vector.h:236-246 | size and capacity `num`, every element `t` |
| DynamicArray.Sized | vector.h:275-286 | size and capacity `num`, every element the default value |
| DynamicArray.FromList | vector.h:253-267 | the list's elements, capacity their number |
| DynamicArray.CopyConstruct | vector.h:294-313 | the same elements, capacity exactly their number |
| DynamicArray.MoveConstruct | vector.h:320-330 | the new vector is the old one, and the old one is left empty with no buffer |
| DynamicArray.Reserve | vector.h:417-438 | elements unchanged; no change when `n <= capacity`, else capacity exactly `n`; `size <= capacity` kept |
| DynamicArray.ReserveTwice | vector.h:417-438 | reserving twice is reserving the larger amount once |
| DynamicArray.PushBack | vector.h:550-558 | `t` goes at the back after the old elements; a full buffer grows 0 to 1 or doubles; otherwise capacity is kept; `size <= capacity` kept |
| DynamicArray.PushAll | vector.h:550-558 | repeated `push_back` appends the elements in order and keeps `size <= capacity` |
| DynamicArray.PushBackKeepsShape | vector.h:552-556 | doubling keeps the capacity a power of two that is less than twice the size |
| DynamicArray.PushAllCapacity | vector.h:552-556 | after any pushes from that shape, the buffer is a power of two less than twice the size |
| DynamicArray.Resize | vector.h:382-406 | size becomes `n`; the first `min(size, n)` elements are kept and new slots hold `t`; capacity is kept unless `n` exceeds it, when it becomes exactly `n` |
| DynamicArray.ResizeDefault | vector.h:355-379 | size becomes `n`; the first `min(size, n)` elements are kept and new slots hold the value-initialised `T()`; capacity is kept unless `n` exceeds it, when it becomes exactly `n` |
| DynamicArray.ResizeBack | vector.h:382-406 | growing and then shrinking back restores the elements |
| DynamicArray.ShrinkToFit | vector.h:448-476 | elements unchanged, capacity equal to size |
| DynamicArray.ShrinkUndoesReserve | vector.h:448-476 | `shrink_to_fit` after `reserve` is `shrink_to_fit` alone |
| DynamicArray.PopBack | vector.h:122-130 | a non-empty vector loses exactly its last element, an empty one is unchanged, and capacity is kept |
| DynamicArray.PopUndoesPush | vector.h:122-130 | `pop_back` after `push_back` restores the elements |
| DynamicArray.Clear | vector.h:115-121 | size 0, capacity kept |
| DynamicArray.PopTimesKeepsPrefix | vector.h:122-130 | `k` pops keep the first `size - k` elements |
| DynamicArray.PopAllIsClear | vector.h:115-130 | popping every element is `clear` |
| DynamicArray.CopyAssign | vector.h:579-637 | the elements become the right-hand side's; capacity is kept unless the right-hand side is larger than both size and capacity, when it is exactly its size |
| DynamicArray.CopyAssignIsReserve | vector.h:579-637 | on valid vectors copy assignment is `reserve(rhs.size())` followed by taking the elements |
| DynamicArray.CopyAssignIdempotent | vector.h:579-637 | assigning the same vector again changes nothing |
| DynamicArray.MoveAssign | vector.h:640-658 | the left-hand side becomes the right-hand side, which is left empty with no buffer |
| DynamicArray.Swap | vector.h:61-76 | elements, sizes and capacities are exchanged |
| DynamicArray.SwapTwice | vector.h:61-76 | swapping twice restores both vectors |
| LinkedList.Size | node.h:269-275 | `size` counts the nodes along the `pNext` chain, 0 for a null head, whatever the `pPrev` links hold |
| LinkedList.Insert | node.h:219-258 | `insert` makes a fresh node holding `t`, a one-node list when `pCurrent` is null |
| LinkedList.InsertSplices | node.h:231-256 | inserting before or after the `i`-th node splices the new node into the list and its data at that place; cells outside the list are untouched |
| LinkedList.Remove | node.h:185-204 | `remove` deletes exactly the node's cell; a null node changes nothing |
| LinkedList.RemoveSplices | node.h:188-203 | removing the `i`-th node takes exactly it out of the list and its data; returns the previous node, else the next, else null |
| LinkedList.RemoveUndoesInsert | node.h:185-258 | removing the node just inserted restores every cell |
| ListCopy.Copy | node.h:66-93 | `copy` returns a list of fresh nodes holding the source's data in order, null for a null source, and leaves the source as it was |
| ListCopy.AppendRest | node.h:77-88 | the copy loop extends a destination prefix with fresh nodes holding the rest of the source's data |
| ListCopy.Clear | node.h:312-320 | `clear` deletes every node of the list, leaves the head null and every other cell as it was |
| ListCopy.OverwriteData | node.h:124-131 | the first loop of `assign` copies the first `min` data into the destination's nodes, links untouched |
| ListCopy.DeleteRest | node.h:150-162 | deleting the destination's surplus nodes leaves its first `k` nodes as a list with their data |
| ListCopy.Assign | node.h:106-163 | the destination ends holding the source's data in order, reusing its nodes from the front, adding fresh ones or deleting surplus ones; a null source empties it; the source is unchanged |
| ListCopy.AssignLonger | node.h:133-148 | with a longer source, the destination's nodes are kept and fresh nodes carry the rest |
| ListCopy.AssignShorter | node.h:150-162 | with a source no longer than the destination, the destination is cut to the source's length |
| ListCopy.Swap | node.h:172-175 | the two head pointers are exchanged |
| ListCopy.SwapExchangesLists | node.h:172-175 | after `swap`, any whole list reached from the left head is exactly the list the right head led to, with its data, and the other way round |

## Left out

- Allocators, placement `new`, `std::move`, destructors and deallocation. They are memory bookkeeping with no effect on contents. The vector's buffer is its element sequence plus a slot count, and a deleted list node is a cell removed from the heap.
- `size_t` arithmetic: counters and capacities are unbounded, so a doubling that would overflow is not modelled.
- The vector iterator (vector.h:160-213) is a stub that compares unequal to everything and dereferences a fresh object, so it has no behaviour to model.
- Element access (`operator[]`, `front`, `back`, vector.h:485-539) is plain indexing with no checks. In the model it is sequence indexing.
- The commented-out second vector (vector.h:669-1230) is not compiled.
- The `BST` initializer-list constructor (bst.h:322-326) is a stub that allocates one node and sets the counter to 99.
- `operator<<` (node.h:286-302) is stream output.
- Self-assignment checks (bst.h:345, bst.h:417, vector.h:642) compare object identity, and values have none. The model of each assignment treats the two sides as distinct objects.
- `resize(num)` value-initialises its new slots with `T()` (vector.h:373). The model takes `T()` as a parameter, because Dafny has no default constructors.
- DynamicArray.Sized: `vector(num)` default-initialises its elements (`new (&data[i]) T`, vector.h:283). For a class type that is `T()`. For a scalar type the value is indeterminate. The model takes one value as a parameter, so it fixes a value the source leaves indeterminate for scalars.
- Tree keys are `int`, not a generic `T` with `<` and `==`.
- Pointer identity and parent pointers are not modelled. A node is addressed by its path from the root, and a parent chain is a list of frames. Because of this, the as-written rotation at the root that copies a node over the root node (`*root = *pParent`) is modelled only as "no longer a finite tree" (`None` from `RbAsWritten.BalanceAsWritten`).
- RbInsert.Insert: requires a black root (or an empty tree). With a red root, the fix-up of a red child reads a null grandparent. In the corrected model, the constructors, `insert` and the fix-up keep the root black (`InsertKeepsRootBlack`), and so does `erase` (`EraseKeepsRootBlack`), because the root's replacement is painted black. Without that repaint, a red child moved up to the root would make `insert`'s precondition fail. The source as written does not keep the root black. Case 4a at the root (bst.h:981-994) reddens the old grandparent and leaves the tree's root pointer on it, so the root is red (`Case4aAtRootLosesKeys`). The next insert under that root passes case 3's guard on a null aunt and then evaluates `!pGranny->isRed` on a null grandparent (bst.h:978). The as-written root erase never leaves a red root, because erasing the root empties the tree.
- RbErase.Erase: does not rebalance, as in the source. `EraseCanBreakRedBlack` exhibits a red-black tree whose erase is not red-black.
- RbErase.Erase: returns one iterator. The source also advances the caller's iterator, which it takes by reference (`++it`, bst.h:574). After a non-root erase, that iterator designates the same node as the returned one, the successor. After the as-written root erase (bst.h:579-583), it depends on the root. With a right child, `++it` moves to the successor in the right subtree, which is no longer linked into the tree. Without one, `++it` returns the root itself (bst.h:1109), and bst.h:581 deletes it, so `it` dangles on the deleted root. A path from the root cannot express either, so the caller's iterator is not modelled.
- The debug verifiers are modelled as predicates and functions that return a failed `assert` as `false` or `None`. `verifyBTree`'s parent-pointer asserts (bst.h:899-900, 906, 918) have no counterpart without parent pointers.
- `computeSize` (bst.h:935-940) is `RbTree.Count`, and the counter invariant is `Counted`.
- RbIterator.Begin: requires a non-zero counter to come with a non-empty root. The source's `begin()` tests `empty()`, which reads the counter (bst.h:116, 691), and would then dereference a null root (bst.h:697-698). The as-written root erase reaches that state: in `EraseRootAsWrittenLosesKeys` it leaves a tree with no keys and the counter at 2.
- ListCopy.Assign: requires the source and destination lists to share no node. Assigning a list to itself or to its own tail is not modelled. It also requires both lists to be full lists with mirrored `pPrev` links, although `assign` reads only `pNext` (node.h:106-163). The ensures `IsList(h', rs)` needs that invariant, because the first loop never touches `pPrev`.
- LinkedList.Insert: the heap condition `HeapOk` stands for the allocator's guarantee that `new` returns an address not in use.
- ListCopy.Clear: requires only the forward `pNext` chain, because `clear` never reads `pPrev`.
- ListCopy.Copy: requires the source to be a full list with mirrored `pPrev` links, although `copy` reads only `pNext`. The copy loop is shared with `assign`, whose proof uses the full list.
- ListCopy.Copy: the copy loop is modelled by a tail-recursive method, `AppendFrom`, rather than a `while` loop. It takes one step per source node.
- ListCopy.AssignLonger: the third loop of `assign` deletes nothing when the source is longer, so it is not run in the model. The final `pDesPrevious->pNext = nullptr` is run (`EndList`), after `EndListKeeps` shows that it finds the link already null and changes nothing.

## Findings

| source | as written | input that shows it | evidently intended | confidence | as-written member | corrected member |
|---|---|---|---|---|---|---|
| bst.h:991-994 | case 4a at the root clears the parent's `pParent` but never updates the tree's root pointer, leaving a red root, on which the next insert dereferences a null grandparent (bst.h:978) | insert 1 into the black root 3 with red left child 2 | the rotated parent becomes the root | not executed | RbAsWritten.Case4aAtRootLosesKeys | RbInsert.Balance |
| bst.h:1011 | cases 4b, 4c and 4d at the root copy the new top node over the root node (`*root = *pParent`, also bst.h:1034, 1056), and the copy links to the root node itself | insert 3 into the black root 1 with red right child 2 | the new top node becomes the root | not executed | RbAsWritten.Case4bAtRootMakesCycle | RbInsert.Balance |
| bst.h:1029 | the side of the great-grandparent is read with `pGranny->isLeftChild()` after the grandparent was re-parented, so 4a and 4c always relink right and 4b and 4d always left (also bst.h:989, 1006, 1051) | insert 4 into 10 (children 5 with red left child 3, and 20) | the rotated subtree replaces the grandparent on the grandparent's side | not executed | RbAsWritten.RelinkOnWrongSide | RbInsert.Balance |
| bst.h:495 | `insert` returns `iterator(pCurrent->pRight)` (or `pLeft`, bst.h:478) read after `balance`, and a double rotation has set that pointer to the new node's null child (bst.h:1023, 1046) | insert 17 into 10 (children 5 and 20 with red left child 15) | an iterator to the new node | not executed | RbAsWritten.InsertIteratorLost | RbInsert.Insert |
| bst.h:1109 | `++` on a root without a right child matches no case and returns the same node | `++begin()` on a one-node tree | `end()` | not executed | RbIterator.IncrementAsWrittenStuck | RbIterator.IncrementIsSuccessor |
| bst.h:1131 | `--` on a node without a left child reads `pParent->pRight` without checking for a parent | `--begin()` on a one-node tree | `end()` | not executed | RbIterator.DecrementAsWrittenFails | RbIterator.DecrementIsPredecessor |
| bst.h:579-583 | erasing the root sets the root to null whatever its children, and returns `end()` | erase the root of the tree 2 with children 1 and 3 | the root is spliced out like any other node | not executed | RbErase.EraseRootAsWrittenLosesKeys | RbErase.EraseRootKeepsOthers |
| bst.h:872 | the childless test `pLeft == nullptr && pRight && nullptr` is always false, so black depth is never checked | an all-black tree with one path a black node longer | `pLeft == nullptr && pRight == nullptr` | not executed | RbVerify.AsWrittenMissesBlackHeight | RbVerify.RedBlackPassesCheck |
