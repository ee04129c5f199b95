# Unbalanced binary search tree engine (bintree.c), modelled in Dafny

`bintree.c` is a small generic binary search tree over `void *` items,
ordered by a caller-supplied three-way comparison. A tree handle is a
pointer to a `struct bintree` node (item pointer, left and right child
pointers). There are two distinct kinds of "nothing":

- a NULL handle or child pointer (no node at all), and
- the *empty-tree marker* that `newtree` allocates: a node whose item is NULL.

`insert` writes into the tree in place. It fills the item of an empty root,
or it descends and attaches a fresh singleton node in a NULL child slot.
`lookup` is a three-way-compare descent. `inorder_traversal` and
`free_tree` walk the tree and call a callback on each node's item, in
in-order and post-order respectively. The driver instantiates items as
boxed integers compared by `cmp_entry`.

The model has four modules:

- `Wrappers` (wrappers.dfy): `Option`. `None` stands for a NULL pointer.
- `BinTree` (bintree.dfy): the value-level model. `Item = Option<int>` is an
  item pointer (NULL, or a boxed integer). `Tree = Nil | Node(item, left,
  right)` is a tree handle. `CmpEntry` is `cmp_entry`. `Insert`, `Lookup`,
  `Inorder` and `Postorder` follow the C recursion branch for branch. `Keys`,
  `Items`, `IsBst` and `GrowsBy` are the specification vocabulary.
- `BinTreeLemmas` (bintree_lemmas.dfy): what the engine guarantees, proved
  about the value-level functions. This covers BST order, the key set after
  `insert`, lookup correctness, no lost nodes, one callback per node, and
  sorted traversal, including the driver's twenty-key run.
- `BinTreeHeap` (bintree_heap.dfy): the engine on mutable nodes. Class
  `BtNode` has the C fields `item`, `left` and `right`. Ghost `Repr` is the
  set of objects a node owns, and ghost `Model` is the `BinTree.Tree` the
  node stands for. `Valid()` ties the two to the fields. `Insert` updates
  the nodes in place. `Lookup` is a function that reads them.
  `InorderTraversal` and `FreeTree` return the sequence of items their
  callbacks receive. Each is proved equal to the value-level function, so
  the lemmas carry over to it.

The comparison is fixed to `cmp_entry`, the only comparison the repository
uses, so the model inherits its NULL rules. Two NULLs are equal. A NULL on
either side compares greater (1), whichever side it is on.

On these edges the code behaves as follows, and so does the model:

- `lookup` does not treat an empty marker specially. It calls
  `cmp_entry(key, NULL)`, which is 1, and goes right into NULL. For a
  non-NULL key on a valid tree the result is still "not found"
  (`LookupFinds`, `EmptyTreeFacts`).
- `inorder_traversal` and `free_tree` hand the empty marker's NULL item to
  their callback. The traversal of a fresh tree is `[None]`, not `[]`
  (`EmptyTreeFacts`).
- `insert` on a NULL handle is a handled no-op (bintree.c:80-81), not a
  precondition.
- After filling an empty root, `insert` compares the item with itself. It
  stops only because `cmp_entry` is reflexive (`InsertIntoEmpty`).
- Inserting a NULL item into a populated tree is possible, since
  `cmp_entry(NULL, item)` is 1. The insert descends right until it reaches
  either a NULL slot, where it attaches a new empty marker, or an existing
  empty marker, where it stores NULL again and stops. `IsBst` therefore
  allows empty markers as leaves, and `insert` keeps it for NULL and
  non-NULL items alike.

## Model

| member | source | states |
|---|---|---|
| BinTree.NewTree | bintree.c:32-38 | `newtree` yields an empty-tree marker: an allocated node with a NULL item and no children |
| BinTree.Singleton | bintree.c:40-45 | `new_node(x)` yields exactly one node, holding `x` |
| BinTree.IsEmpty | bintree.c:74 | no contract; follows the C expression exactly. Its promise is carried by `BinTreeHeap.IsEmpty` and `BinTreeLemmas.EmptyTreeFacts` |
| BinTree.Insert | bintree.c:76-96 | a NULL tree stays NULL; an allocated root stays allocated and afterwards holds `x` if it was an empty marker, else its old item. The rest of its promise is carried by `InsertKeys`, `InsertPreservesBst`, `InsertGrows`, `InsertExisting` and `LookupAfterInsert` |
| BinTree.InsertAll | bintree.c:233-236 | a run of inserts into an allocated tree leaves it allocated; `InsertAllKeys` and `InsertAllTraversal` carry the rest |
| BinTree.Lookup | bintree.c:58-72 | the item returned is NULL or equal to the key; `LookupFinds` and `LookupAfterInsert` say which |
| BinTree.Inorder | bintree.c:98-106 | one item per allocated node; `InorderVisitsEachNode` and `InorderSorted` carry the rest |
| BinTree.Postorder | bintree.c:47-56 | one item per allocated node, and the root's item is handed over last; `PostorderDestroysEachNode` carries the rest |
| BinTree.CmpEntry | bintree.c:141-159 | result is -1, 0 or 1; 0 exactly when the two items are equal (both NULL, or equal integers); for two boxes, negative/positive exactly when the first integer is smaller/larger; 1 whenever exactly one side is NULL |
| BinTreeHeap.BtNode.Empty | bintree.c:32-38 | `newtree` returns a fresh valid node with NULL item and NULL children, standing for the empty-tree marker |
| BinTreeHeap.BtNode.Leaf | bintree.c:40-45 | `new_node(x)` returns a fresh valid node holding `x` with NULL children |
| BinTreeHeap.IsEmpty | bintree.c:74 | true exactly when the handle is an allocated node whose item is NULL |
| BinTreeHeap.Insert | bintree.c:76-96 | on a NULL handle nothing changes; otherwise the tree afterwards is `BinTree.Insert` of the tree before; the root node is the same object; every existing node keeps its non-NULL children and its item, except that an empty item may now hold `x`; a child slot that was NULL and is now set holds a fresh singleton holding `x`; all newly owned objects are fresh |
| BinTreeHeap.InsertInt | bintree.c:198 | `insert_int(x, t)` acts as `insert` of the boxed `x` under `cmp_entry`: the same resulting tree, the same root object, and the same per-node guarantees (items and non-NULL children kept, new children fresh singletons holding the boxed `x`) |
| BinTreeHeap.Lookup | bintree.c:58-72 | reads the nodes only and returns the item `BinTree.Lookup` returns on the tree they stand for |
| BinTreeHeap.InorderTraversal | bintree.c:98-106 | the items handed to the callback, in call order, are `BinTree.Inorder` of the tree; the tree is not changed |
| BinTreeHeap.FreeTree | bintree.c:47-56 | the items handed to `destroy_item`, in call order, are `BinTree.Postorder` of the tree |
| BinTreeHeap.ManyInsertions | bintree.c:228-237 | from `newtree`, inserting the driver's twenty keys and then traversing hands over the keys in ascending order |
| BinTreeLemmas.NullTree | bintree.c:47-106 | on a NULL tree `insert` changes nothing, `lookup` returns NULL, and traversal and teardown make no callback |
| BinTreeLemmas.EmptyTreeFacts | bintree.c:32-38 | the fresh marker satisfies `isempty`, is ordered and holds no key; `lookup` on it returns NULL for every key; traversal and teardown each pass its NULL item exactly once |
| BinTreeLemmas.InsertIntoEmpty | bintree.c:83-88 | inserting into an empty marker stores the item in the root and attaches no child |
| BinTreeLemmas.InsertKeys | bintree.c:86-95 | after an insert into an allocated tree, its key set is the old key set plus the inserted key (none for a NULL item) |
| BinTreeLemmas.InsertPreservesBst | bintree.c:86-95 | if left keys are smaller and right keys larger at every populated node before an insert, the same holds afterwards |
| BinTreeLemmas.InsertExisting | bintree.c:86-88 | on an ordered tree, inserting a key already present leaves the tree unchanged |
| BinTreeLemmas.InsertGrows | bintree.c:84-95 | an insert only places the item in an empty item slot or a fresh singleton in a NULL slot, so no node, link or stored item is lost; an allocated root stays allocated; node count grows by at most one |
| BinTreeLemmas.InsertAllKeys | bintree.c:76-96 | any run of inserts into an ordered allocated tree keeps it ordered and allocated, and its keys are the old keys plus the inserted ones |
| BinTreeLemmas.LookupFinds | bintree.c:58-72 | on an ordered tree, `lookup(k)` returns an item equal to `k` if `k` is stored, and NULL if it is not |
| BinTreeLemmas.LookupAfterInsert | bintree.c:58-96 | after inserting any item `x` (NULL included) into any allocated tree, ordered or not, `lookup(x)` returns an item equal to `x` |
| BinTreeLemmas.InorderVisitsEachNode | bintree.c:98-106 | the traversal makes one callback per node, and the items passed are exactly the tree's items with multiplicity |
| BinTreeLemmas.PostorderDestroysEachNode | bintree.c:47-56 | teardown calls `destroy_item` once per node, and the items passed are exactly the tree's items with multiplicity |
| BinTreeLemmas.InorderSorted | bintree.c:98-106 | on an ordered tree, the non-NULL items reach the callback in strictly ascending order, and the keys passed are exactly the stored keys |
| BinTreeLemmas.InsertNullCount | bintree.c:83-93 | inserting a non-NULL item never adds a NULL item, and it removes one when it fills an empty root |
| BinTreeLemmas.InsertAllTraversal | bintree.c:228-237 | after a non-empty run of boxed-integer inserts from `newtree`, the traversal is NULL-free, strictly ascending, and holds exactly the inserted keys |
| BinTreeLemmas.InsertionOrderIrrelevant | bintree.c:219-226 | two non-empty runs of boxed-integer inserts with the same keys, in any order, give the same traversal |
| BinTreeLemmas.SmallScenarios | bintree.c:219-226 | the driver's two small runs (5 into a fresh tree; 5 then 6 into a fresh tree), which it pretty-prints, hold the trees whose in-order traversals are [5] and [5, 6]; an extra example beyond the driver shows that 6 then 5 also traverses as [5, 6] |
| BinTreeLemmas.DemoTraversalSorted | bintree.c:228-237 | the driver's twenty insertions traverse as the twenty keys in ascending order |

## Left out

- Console output (`putstr`, `printtabs`, `help_prettyprint`, `prettyprint`, `print_entry`, `printree`, `printbox`, `traverse`, `testprint`): character formatting for diagnostics, with no contract to prove.
- The `main` driver's `strtok`/`atoi` tokenising: `ManyInsertions` takes the twenty keys as a sequence instead of parsing them from a string.
- `malloc` and `free` (`bt_alloc`, `box`, `destroy_entry`, and the `free(tree)` in `free_tree`): Dafny has no deallocation. `box(x)` becomes the value `Some(x)`. `free_tree` is modelled as the sequence of items handed to `destroy_item`. Double free and use after free are caller contracts the source does not check.
- Comparisons other than `cmp_entry`: `insert` and `lookup` take any function pointer in C. The model fixes the comparison to `cmp_entry`, the only one the repository uses.
- Item identity: the model stores item values, not pointers. `Lookup` returns an item equal to the stored one rather than the same pointer.
- The C return value of `lookup` is NULL both for "not found" and for a found NULL item. The model keeps that conflation (`Lookup` returns an `Item`).
- Recursion depth and stack exhaustion on degenerate trees: Dafny's recursion is unbounded.
- C `int` width: items are only compared, never combined arithmetically, so unbounded `int` loses nothing.
