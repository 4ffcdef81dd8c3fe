# ds::bst — a verified model of an unbalanced binary search tree

This project models `ds::bst<T>` from `src/bst.h`. The model instantiates
`T` as `int`. The tree is a set of heap nodes. Each node holds an element
and three links: `left`, `right` and `parent`. The tree keeps a nullable
`root` pointer. It offers four operations:

- `insert` hangs a new leaf below the node that `find` returns, or creates
  the root when the tree is empty. It ignores duplicates.
- `find` descends from the root. It returns the node that holds the
  element, or the node below which the element would be hung. On a tree
  with no root it raises the "Empty tree" error.
- `size` counts the nodes by a full traversal.
- `empty` is `size() == 0`.

The project has three modules.

- `TreeShape` (`tree_shape.dfy`) holds:
  - the `Node` class, with exactly the four fields of the source's `Node<T>`;
  - a pure value `Shape`, which records for every node its element, its
    three links and the set of nodes in the subtree it heads;
  - the search-tree invariant on a `Shape`: the links are consistent,
    smaller elements are on the left, larger ones are on the right, and no
    element is stored twice;
  - `Attach`, the shape after one leaf is hung below a node;
  - every lemma about the invariant, proved on values.
- `Bst` (`bst.dfy`) holds the `Tree` class:
  - its real `root` field and a ghost shape `S`;
  - `Valid()`, which says that `S` is a valid search tree, that `root` is
    its root, and that every node's real fields agree with `S` (`Agrees`);
  - `recursive_find`, `find`, `recursive_size`, `size` and `empty` as
    functions that read the real links;
  - `insert` as a method that allocates a node and rewrites the links in
    place.
- `BstScenarios` (`bst_scenarios.dfy`) holds client methods. They replay
  the test-suite scenarios that use only these operations and state what
  each scenario expects.

## Model

| member | source | states |
|---|---|---|
| TreeShape.Node.constructor | src/bst.h:39-46 | A new node holds the given element, and its left, right and parent links are all null. |
| TreeShape.EmptyShape | src/bst.h:167 | The shape with no root is a valid search tree and stores no element. |
| TreeShape.Singleton | src/bst.h:77-83 | A single root node holding `x`, with no children and no parent, is a valid search tree that stores exactly `{x}`. |
| TreeShape.NodeFacts | src/bst.h:134-153 | In a valid tree, a node's subtree is the node plus its two child subtrees. The child subtrees are disjoint, lie inside the tree, and hold only smaller (left) or larger (right) elements. |
| TreeShape.SubSizes | src/bst.h:156-164 | A node's subtree has exactly one more node than its two child subtrees together. Each child subtree is strictly smaller, which is why the recursive count terminates. |
| TreeShape.ElemsCard | src/bst.h:116-119 | Nodes holding pairwise different elements hold as many elements as there are nodes. Since a valid tree never stores an element twice, its node count is the size of its contents. |
| TreeShape.FindLeftStep | src/bst.h:138-145 | A descent result from the left subtree is correct for the parent node too. It holds `x` exactly when the parent's whole subtree stores `x`; otherwise it is an insertion point for that whole subtree. |
| TreeShape.FindRightStep | src/bst.h:148-153 | The same as FindLeftStep, for a descent into the right subtree. |
| TreeShape.AttachBelow | src/bst.h:90-106 | After a new leaf is hung, the subtree relation is still transitive: a node inside another node's subtree heads a subtree inside it. |
| TreeShape.AttachLinksAt | src/bst.h:93-105 | After a new leaf is hung, every child link of a node points to a tree node whose parent link points back. |
| TreeShape.AttachSubAt | src/bst.h:90-106 | After a new leaf is hung, each node's subtree is still the node plus its two child subtrees. |
| TreeShape.AttachLinked | src/bst.h:90-106 | Hanging a new leaf at an insertion point keeps all links consistent. |
| TreeShape.AttachOrderAt | src/bst.h:91-106 | After a new leaf is hung on the left when `x` is smaller and on the right otherwise, one node and one member of its subtrees are still in search-tree order. |
| TreeShape.AttachOrderIn | src/bst.h:91-106 | The same order fact, derived from the validity of the original tree. |
| TreeShape.AttachDistinct | src/bst.h:88-89 | A leaf holding an element not yet stored keeps every element stored once. |
| TreeShape.AttachOrdered | src/bst.h:86-106 | Hanging a new leaf at the node `find` returns keeps both the links and the search-tree order. |
| TreeShape.AttachContents | src/bst.h:90-106 | A new leaf holding `x` adds exactly `x` to the stored elements and exactly one node. |
| TreeShape.AttachValid | src/bst.h:86-106 | Hanging a new leaf holding an absent `x` at an insertion point gives a valid search tree. It stores the old elements plus `x` and has one node more. |
| TreeShape.ParentLinksBelow | src/bst.h:93-105 | Inside a subtree, every node other than its head has a parent in that subtree, and that parent holds it as its left or right child. |
| TreeShape.ParentLinks | src/bst.h:39-46 | In a valid tree the root has no parent. Every other node has a parent in the tree that holds it as a child. |
| Bst.LinkAgrees | src/bst.h:93-105 | After the link writes of `insert`, the heap agrees with the shape moved along by `Attach`. |
| Bst.AttachedTreeValid | src/bst.h:90-106 | A tree whose heap agrees with the attached shape is valid. It has one node more and stores `x` besides the old elements. |
| Bst.LeafAttached | src/bst.h:90-106 | The heap step of `insert` as a whole: after the leaf is linked and the shape moved along, the tree is valid again, stores one more element and has one more node. |
| Bst.LinkLeaf | src/bst.h:91-106 | The fresh leaf becomes `p`'s left child when `x` is smaller than `p`'s element and its right child otherwise, with `p` as its parent. No other node of the tree changes. |
| Bst.Tree.constructor | src/bst.h:68 | A new tree has no root and stores nothing. |
| Bst.Tree.FindFrom | src/bst.h:127-154 | A null start gives the empty-tree error. Otherwise the result is a node of the start's subtree. It holds `x` exactly when the subtree stores `x`; otherwise it is an insertion point: its child slot on `x`'s side is null, and `x` lies on the correct side of every ancestor within the subtree. |
| Bst.Tree.Find | src/bst.h:121-124 | The error happens exactly when the tree has no root. The node returned holds `x` exactly when `x` is stored; otherwise it is the node below which `x` belongs. |
| Bst.Tree.SizeOf | src/bst.h:156-164 | The count from a node is the number of nodes in its subtree, and 0 for null. |
| Bst.Tree.Size | src/bst.h:116-119 | The count is the number of nodes in the tree, which equals the number of distinct stored elements. |
| Bst.Tree.Empty | src/bst.h:111-114 | It holds exactly when the tree stores no element, which is exactly when there is no root. |
| Bst.Tree.Insert | src/bst.h:75-109 | The tree stays valid and its contents become the old contents plus `x`. On an empty tree `x` becomes a childless, parentless root. A stored `x` changes nothing. Otherwise a fresh leaf holding `x` hangs below the node the old `find(x)` returned, on `x`'s side, with that node as its parent. The size grows by one and no other node changes. |
| Bst.Tree.InsertBelowRoot | src/bst.h:84-108 | The same as Insert, for a tree with a root. |
| Bst.Tree.AttachLeaf | src/bst.h:89-106 | At an insertion point for an absent `x`, a fresh leaf holding `x` is linked on `x`'s side of `p`. The tree stays valid, gains exactly `x` and one node, and only `p` and the new leaf change. |
| BstScenarios.NewTreeIsEmpty | tests/test_bst.cpp:35-38 | A newly constructed tree is empty. |
| BstScenarios.FindInEmptyTree | tests/test_bst.cpp:40-43 | `find` on a new tree gives the empty-tree error. |
| BstScenarios.InsertFirst | tests/test_bst.cpp:45-51 | After inserting 3 into a new tree, its size is 1. |
| BstScenarios.InsertLeafLeft | tests/test_bst.cpp:74-79 | After inserting 2 and then 1, the root holds 2, its left child holds 1, it has no right child, and the size is 2. |
| BstScenarios.FindReturnsInsertParent | tests/test_bst.cpp:186-195 | In the tree holding only 2, `find(1)` returns the node holding 2. |
| BstScenarios.InsertDuplicate | src/bst.h:86-89 | Inserting 2 twice leaves one node storing `{2}`. |

## Left out

- `remove` and `print_in_order`/`print_pre_order`/`print_post_order` are called by tests/test_bst.cpp but are not defined in src/bst.h. They are not part of this model.
- `std::allocator` `allocate`/`construct`/`deallocate` are modelled as `new Node(x)`. `construct` value-initialises the node, and the constructor reproduces that: null links, then the element is assigned.
- The destructor frees only the root node. Memory reclamation is not modelled, because Dafny has no deallocation.
- The `std::runtime_error` thrown by `recursive_find` on a null node is modelled as the result `Err(EmptyTree)`. Stack unwinding is not modelled.
- `T` is instantiated as `int`. Only `==` and `<` on `T` are used, as in the source.
- `size_t` is modelled as an unbounded `nat`. Counts cannot wrap around.
- `find` returns a mutable pointer. Writes that callers make through that pointer are outside the model: every client here only reads the node returned.
- `find`, `size` and `empty` are modelled as functions. They therefore read the heap and change nothing, which the source's `const` on `size` and `empty` and the read-only body of `find` promise.
- The test scenarios that make three or more insertions (tests/test_bst.cpp:53-70, 197-209) are not replayed as client methods. What they check follows from `Bst.Tree.Insert` and `Bst.Tree.Find`.
