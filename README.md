# B+ tree of `arvore_b_mais.c`, modelled in Dafny

This project models the in-memory B+ tree of `arvore_b_mais.c` and `arvore_b_mais.h`. The tree maps
C-string keys to opaque values. It provides:

- creation, with the order guard;
- the root-to-leaf descent `find_leaf`;
- `insert_into_node_no_split`, the sorted insertion into a node with room;
- the leaf split and the internal split;
- `insert_into_parent`, which grows a new root when the split node had none;
- `insert`;
- `search`.

The project has two layers:

- **`BPlusSpec`** (`spec.dfy`) states every C function as a function from one tree value to the next. The lemmas
  about these functions say what the resulting states mean.
- **`BPlusTree`** (`tree.dfy`) is a class that runs the same steps in place. It holds the fields `nodes`, `root`
  and `order`. Its methods have the C loops: the shifting loop, the copy loops and the re-parenting loop. Each
  method is proved to end in exactly the state the matching `BPlusSpec` function computes.

Representation (`node.dfy`):

- The C heap of `Node` records becomes an arena, `Tree(nodes, root, order)`. Every `Node*` becomes an index into
  it: the children in `pointers`, `parent`, `next_leaf` and `root`.
- `num_keys` is the length of `keys`.
- The single `void** pointers` array of `arvore_b_mais.h:9` is split in two. An internal node uses `children`; a
  leaf uses `values`.
- `strcmp` is modelled by the lexicographic order `Keys.Less` on `string`. This matches `strcmp` for keys without
  NUL characters whose characters compare as the C library's unsigned bytes do (see "## Left out").
- `strdup` is a plain value copy.

Each node also carries a `level` (0 for leaves). The C struct has no such field. It exists only so that the
descent and the split cascade provably terminate. The cascade `insert_into_parent` → `split_internal_node` →
`insert_into_parent` is bounded by a ghost `top`, which is the root's level plus one at the start of a leaf split.

The invariants:

- **`WellFormed`** holds between operations:
  - at most `order - 1` sorted keys per node;
  - one value per key in a leaf, one child more than keys in an internal node;
  - children exactly one level down;
  - every node except the root has a parent link one level up.
- **`BackLinks`** says that every child's parent link names the node that lists it, and that no node lists a
  child twice.
- **`Entries`** is the multiset of (key, value) pairs stored in the leaves. On a search tree (below), these are
  exactly the pairs `search` can find.

The room case of `insert_into_parent` (line 108) never sets the parent link of the node it inserts. Because of
this, the insertion is modelled in two revisions:

- `AsWritten` follows the code.
- `Corrected` also sets that link.

See "## Findings". Module `Witness` (`witness.dfy`) evaluates a concrete run of both revisions.

Module **`BPlusOrder`** (`order.dfy`) states what `find_leaf` and `search` rely on without checking it. Every node
gets a half-open key interval. The root's interval is unbounded, and the keys of an internal node cut its interval
into its children's intervals, equal keys going right as in line 56. Every key lies in its node's interval, and
the keys of a node strictly increase. In addition, every node but the root is listed by the node its `parent` link
names. A tree with such intervals is a **`SearchTree`**. On a search tree, `search` returns `v` for `key` exactly
when `(key, v)` is stored. The corrected `insert` of a key not yet stored keeps a tree a search tree. The proof
follows the promotion cascade level by level: while a split waits for its key, the split node's slot in its
parent covers both halves.

## Model

| member | source | states |
|---|---|---|
| BPlusSpec.CreateBPlusTree | arvore_b_mais.c:221-230 | no tree exactly when the order is below 3; otherwise a valid tree of that order whose root is an empty leaf without parent or next leaf (`create_node`, lines 16-28), holding no entries |
| BPlusTree.CreateBPlusTree | arvore_b_mais.c:221-230 | returns `null` exactly when the order is below 3, otherwise a fresh tree object equal to the value above |
| BPlusTree.BPlusTree.constructor | arvore_b_mais.c:226-228 | the new object's state is the tree `BPlusSpec.CreateBPlusTree` returns |
| BPlusNode.EmptyNode | arvore_b_mais.c:16-28 | the node `create_node` returns: no keys, no children or values, no parent and no next leaf, a leaf or not as asked |
| BPlusSpec.ChildIndex | arvore_b_mais.c:54-58 | the scan index is bounded by the key count, every key before it is `<=` the search key, and the key at it (if any) is greater, so equal keys route right |
| BPlusSpec.ChildIndexSorted | arvore_b_mais.c:56 | in sorted keys, every key from the scan index on is greater than the search key |
| BPlusSpec.Descend | arvore_b_mais.c:53-60 | the descent from any node ends at a leaf of the arena, and at the node itself if it is a leaf |
| BPlusSpec.FindLeaf | arvore_b_mais.c:51-62 | `find_leaf` returns a leaf |
| BPlusTree.BPlusTree.FindLeaf | arvore_b_mais.c:51-62 | the nested loops return exactly the leaf `BPlusSpec.FindLeaf` names; the tree is not changed |
| BPlusSpec.FirstMatch | arvore_b_mais.c:259-263 | the index of the first key equal to the search key, or the key count when none is equal |
| BPlusSpec.Search | arvore_b_mais.c:257-265 | no result exactly when the routed leaf lacks the key; otherwise the result is the value at the first position holding that key in that leaf, a value stored beside it |
| BPlusTree.BPlusTree.Search | arvore_b_mais.c:257-265 | the loop returns `BPlusSpec.Search`'s result and the method modifies nothing |
| BPlusSpec.InsertPos | arvore_b_mais.c:65-74 | the shifting loop stops where every later key is greater than the new key and the key just before is `<=` it |
| BPlusSpec.InsertPosAt | arvore_b_mais.c:67 | the loop's exit condition determines that position uniquely |
| BPlusSpec.InsertPosSorted | arvore_b_mais.c:67 | in sorted keys, every key before the position is `<=` the new key |
| BPlusSpec.InsertAtPosSorted | arvore_b_mais.c:64-75 | putting the key at that position keeps sorted keys sorted |
| BPlusSpec.LeafEntriesInsert | arvore_b_mais.c:77-82 | moving the values with their keys adds exactly the new pair to the leaf's entries |
| BPlusSpec.InsertIntoNodeNoSplit | arvore_b_mais.c:64-87 | one more key; the multiset of keys gains exactly the new key; sortedness is kept; the key lands at the insertion position; a leaf gains exactly the new (key, value) pair; in an internal node the new child sits right of the new key and earlier children keep their places |
| BPlusTree.BPlusTree.InsertIntoNodeNoSplit | arvore_b_mais.c:64-87 | the in-place update leaves node `n` equal to `BPlusSpec.InsertIntoNodeNoSplit` of the old node and changes nothing else |
| BPlusTree.ShiftRight | arvore_b_mais.c:65-75 | the while loop stops at `BPlusSpec.InsertPos`, and the keys (and the children of an internal node) are the old ones with the new entry opened at that position |
| BPlusTree.OpenGap | arvore_b_mais.c:79-82 | the for loop leaves the values with the new value inserted at position `i` |
| BPlusSpec.SplitLeafHalves | arvore_b_mais.c:121-138 | the old leaf keeps the first `order / 2` entries and the appended leaf gets the rest; the key and value sequences concatenate to the originals; the new leaf's first key is `keys[order / 2]`, the key line 139 passes up; the new leaf sits after the old one in the `next_leaf` chain and shares its parent; contents unchanged; exact parent links preserved |
| BPlusTree.CopyTail | arvore_b_mais.c:128-131 | the copy loop yields the entries from `mid` on, with their partners |
| BPlusTree.BPlusTree.LeafHalves | arvore_b_mais.c:122-138 | the field updates yield exactly `BPlusSpec.SplitLeafHalves` |
| BPlusSpec.GrowRoot | arvore_b_mais.c:92-103 | a new internal root one level up with the single key and the children `[left, right]`, both of which now name it as parent; nothing else changes; the tree stays well formed and keeps exact parent links |
| BPlusSpec.InsertIntoParentNode | arvore_b_mais.c:106-108 | the parent becomes `insert_into_node_no_split` of itself with `right` right of the key; `right`'s parent link is left alone as written and names the parent when corrected; well formed; the corrected form keeps exact parent links |
| BPlusTree.BPlusTree.GrowRoot | arvore_b_mais.c:92-103 | the new root node, the `root` field and the two parent links end in the state `BPlusSpec.GrowRoot` computes |
| BPlusTree.BPlusTree.InsertIntoParentNode | arvore_b_mais.c:106-108 | the in-place insertion into the parent ends in the state `BPlusSpec.InsertIntoParentNode` computes, in either revision |
| BPlusSpec.Reparent | arvore_b_mais.c:162-164 | every listed node names the new node as parent and every other node is unchanged |
| BPlusTree.BPlusTree.Reparent | arvore_b_mais.c:162-164 | the loop ends in `BPlusSpec.Reparent` of the arena |
| BPlusSpec.SplitInternalHalves | arvore_b_mais.c:144-166 | the node keeps keys `[0, mid)` and children `[0, mid]`; the appended node holds keys `(mid, n)` and children `(mid, n]` and takes the node's parent; `keys[mid]` is in neither; the moved children name the new node; nothing else changes; contents and exact parent links are preserved |
| BPlusTree.BPlusTree.InternalCopy | arvore_b_mais.c:145-159 | the copy loop and the truncation give the two halves, before re-parenting |
| BPlusTree.BPlusTree.InternalHalves | arvore_b_mais.c:145-166 | copy, re-parenting and the parent link give exactly `BPlusSpec.SplitInternalHalves`, and the promoted key is `keys[mid]` |
| BPlusSpec.RetryReady | arvore_b_mais.c:116-117 | after the full parent is split, the retry finds `left`'s parent with room and `right` still unlisted |
| BPlusSpec.InsertIntoParent | arvore_b_mais.c:89-119 | the result is well formed; `left` has a parent that lists `right`, with `key` immediately left of `right`; the corrected form gives `right` the same parent; the root is unchanged when the parent had room and grows at most one level; leaves change only in parent links; the corrected form keeps exact parent links |
| BPlusTree.BPlusTree.InsertIntoParent | arvore_b_mais.c:89-119 | the recursive method ends in the state `BPlusSpec.InsertIntoParent` computes |
| BPlusSpec.SplitInternalNode | arvore_b_mais.c:144-168 | well formed afterwards; the halves and moved children are as in `SplitInternalHalves`, whatever the promotion did above; `keys[mid]` sits in the node's parent immediately left of the new node; the root grows at most one level; the corrected form keeps exact parent links |
| BPlusTree.BPlusTree.SplitInternalNode | arvore_b_mais.c:144-168 | the method ends in the state `BPlusSpec.SplitInternalNode` computes |
| BPlusSpec.EntriesFramed | arvore_b_mais.c:89-119 | a promotion that only adds internal nodes and touches leaves' parent links leaves the contents unchanged |
| BPlusSpec.SplitLeafNode | arvore_b_mais.c:121-142 | well formed; the two halves as in `SplitLeafHalves`; `keys[order / 2]` sits in the old leaf's parent immediately left of the new leaf; the other leaves change only their parent links; contents unchanged; the corrected form gives both halves the same parent and keeps exact parent links |
| BPlusTree.BPlusTree.SplitLeafNode | arvore_b_mais.c:121-142 | the method ends in the state `BPlusSpec.SplitLeafNode` computes |
| BPlusSpec.InsertIntoLeaf | arvore_b_mais.c:183-185 | the key is in the leaf; no other node changes; the contents gain exactly the new pair; well formed; exact parent links preserved |
| BPlusSpec.Insert | arvore_b_mais.c:170-186 | the result is well formed with the same order, so no node exceeds `order - 1` keys; the contents are the old contents plus exactly the new (key, value) pair; the corrected form keeps exact parent links |
| BPlusTree.BPlusTree.Insert | arvore_b_mais.c:170-186 | the method ends in the state `BPlusSpec.Insert` computes and keeps the object well formed |
| BPlusOrder.ChildIndexAt | arvore_b_mais.c:56-58 | the scan stops at `i` whenever every key before `i` is `<=` the search key and the key at `i` is greater |
| BPlusOrder.ChildIndexIn | arvore_b_mais.c:54-59 | in strictly increasing keys, the scan picks child `i` for every key in child `i`'s interval |
| BPlusOrder.DescendIn | arvore_b_mais.c:53-60 | starting from a node whose interval holds the key, the descent ends at a leaf whose interval holds it |
| BPlusOrder.DescendTo | arvore_b_mais.c:51-62 | on a search tree, the descent from the root reaches the same leaf as the descent from any node whose interval holds the key |
| BPlusOrder.FindLeafOf | arvore_b_mais.c:51-62 | on a search tree, `find_leaf` takes every stored key to the leaf that stores it |
| BPlusOrder.EntriesHas | arvore_b_mais.c:257-265 | every pair a leaf holds is part of the contents |
| BPlusOrder.EntriesFrom | arvore_b_mais.c:257-265 | every pair of the contents is held by some leaf |
| BPlusOrder.SearchFinds | arvore_b_mais.c:257-265 | on a search tree, `search` returns `v` for `key` if and only if `(key, v)` is stored |
| BPlusOrder.InsertedStrict | arvore_b_mais.c:64-75 | a key of the node's interval that the node does not hold goes in at the shifting loop's position and keeps the keys strictly increasing and in the interval |
| BPlusOrder.IntoLeafOrdered | arvore_b_mais.c:183-185 | inserting a fresh key of the leaf's interval into a leaf with room keeps every interval fitting and every node listed |
| BPlusOrder.RoomRanges | arvore_b_mais.c:106-108 | the promoted key goes in exactly at the split node's slot, and the parent's keys stay strictly increasing and in its interval |
| BPlusOrder.RoomSlots | arvore_b_mais.c:106-108 | after the insertion into the parent, the split node and the new node each get exactly their own interval and every other child keeps its own |
| BPlusOrder.RoomOrdered | arvore_b_mais.c:106-108 | the corrected room case ends a pending split: every interval fits again above the split node's level and every node there is listed |
| BPlusOrder.GrowOrdered | arvore_b_mais.c:92-103 | the new root gets the unbounded interval, split at the promoted key into the intervals of the two halves |
| BPlusOrder.HalvesReady | arvore_b_mais.c:144-166 | splitting the full parent leaves the parent's own promotion pending, its two halves cutting its interval at `keys[mid]` |
| BPlusOrder.RetryPending | arvore_b_mais.c:116-117 | after the parent's split is promoted, the original split is pending again and no interval at its level or below has moved |
| BPlusOrder.SplitParentOrdered | arvore_b_mais.c:116 | `split_internal_node` of the full parent leaves the original split pending, with the intervals at its level and below unchanged |
| BPlusOrder.RetryOrdered | arvore_b_mais.c:109-118 | the corrected full-parent case ends with every interval fitting above the split node's level and every node there listed |
| BPlusOrder.PromoteOrdered | arvore_b_mais.c:89-119 | corrected `insert_into_parent` of a pending split, in all three cases, ends with every interval fitting, the root's unbounded, every node listed, and the split node's level and below keeping their intervals |
| BPlusOrder.LeafPromoteOrdered | arvore_b_mais.c:141 | the promotion after a leaf split leaves the whole tree with fitting intervals and every node listed |
| BPlusOrder.SplitLeafOrdered | arvore_b_mais.c:121-142 | the corrected leaf split keeps a search tree's intervals fitting, and the two halves cut the leaf's interval at `keys[order / 2]` |
| BPlusOrder.InsertSearchTree | arvore_b_mais.c:170-186 | the corrected `insert` of a key not yet stored keeps a search tree a search tree, whichever half line 179 selects |
| BPlusOrder.SearchAfterInsert | arvore_b_mais.c:170-186 | after the corrected `insert` of a key not yet stored, `search` finds the new value under that key and answers as before for every other key |
| BPlusOrder.CreateSearchTree | arvore_b_mais.c:221-230 | the tree `create_bplus_tree` returns for an order of at least 3 is a search tree |
| Witness.InsertOneToFive | arvore_b_mais.c:170-186 | five insertions into an order-3 tree give a well-formed tree, with exact parent links when corrected |
| Witness.InsertOneToSix | arvore_b_mais.c:170-186 | the sixth insertion stores the pair ("6", 6) |
| Witness.SearchMisses | arvore_b_mais.c:257-265 | on the tree left by the as-written run, `search` for "6" returns nothing |
| Witness.SearchFinds | arvore_b_mais.c:257-265 | on the tree left by the corrected run, `search` for "6" returns 6 |
| Witness.StaleParentLink | arvore_b_mais.c:107-108 | the as-written run leaves leaf 4 listed by node 5 but linked to node 2, then stores ("6", 6) where `search` cannot find it |
| Witness.ParentLinkKept | arvore_b_mais.c:107-108 | the corrected run keeps every parent link exact and `search` finds "6" |

## Left out

- `free_node`, `free_tree_recursive` and `free_bplus_tree` (lines 31-49, 267-271) only release memory. The model
  is garbage collected.
- The `malloc` failure path of `create_node` (line 18) is left out, and so are the ownership and leaks of the
  `strdup` copies. One example: the key promoted at line 146 is not duplicated and is then dropped by line 159.
- The message printed to `stderr` at line 223 is I/O. Only the `NULL` result is modelled.
- The second definitions of `insert_into_parent` (lines 188-216) and `insert` (lines 232-254) conflict with the
  first ones, and the file cannot be compiled with both. The second `insert_into_parent` also calls an undefined
  `insert_into_node`. The model follows the first definitions, which the comment at line 115 presents as the
  ones fixing the overflow.
- The experiment driver and the data generator (file loading, random sampling, timing, CSV output) are I/O,
  randomness and floating point. The driver asks for a binary search strategy that the tree does not
  implement. Only the linear scan of line 56 is modelled.
- Minimum occupancy is not a property of this code. With order 3, an internal split leaves the new node with no
  key and one child (lines 152-159).
- BPlusOrder.InsertSearchTree: the search-tree property is proved only for the corrected revision and for a key
  not yet stored. The as-written revision breaks it; see "## Findings". `BPlusOrder.SearchAfterInsert` carries the
  same precondition.
- Duplicate keys: `insert` stores a second pair with an existing key. The keys of a leaf are then no longer
  strictly increasing. Such a pair can also move a promoted key to a position other than the one right after the
  split node, so keys inserted later can be routed wrongly. The model inserts duplicates exactly as the code does.
  It states nothing about where they end up, and `BPlusSpec.Search` returns the value at the first equal key.
- `strcmp` compares the bytes of NUL-terminated strings as unsigned characters. A key is a Dafny `string`: a NUL
  inside it does not end it, and `Keys.Less` compares `char` code points. The model therefore agrees with the C
  code for keys without NUL whose characters are single bytes. Encodings and locales are not modelled.
- `search` returns `NULL` both when the key is absent and when it is stored with a `NULL` value. The model's
  `Option` tells the two apart. For a value that is itself `NULL`, `Some(null)` here is `NULL` in the C code.
- The `next_leaf` chain is modelled per operation only. The leaf split puts the new leaf right after the old one
  and before the old one's successor (`BPlusSpec.SplitLeafHalves`), and `WellFormed` makes every `next` a leaf.
  No invariant states that the chain visits all leaves in key order. Nothing in the code reads the chain except
  the leaf selection at line 179, right after the split.
- `level` is the one field the C node does not have. It records the distance to the leaves, for termination
  only. The ghost `top` argument of the cascade is not in the C code either.
- The key and value arrays have no fixed capacity in the model: they are sequences. That no node ever holds
  more than `order - 1` keys is proved instead, as part of `WellFormed`.

## Findings

| source | as written | input that shows it | evidently intended | confidence | as-written member | corrected member |
|---|---|---|---|---|---|---|
| arvore_b_mais.c:107-108 | When the parent has room, the new right node is inserted into the parent's children, but its `parent` link is never set. It keeps the parent copied at line 138 or line 166, which is stale when that parent has just been split by the retry at line 117. A later split of that node promotes into the wrong parent. | Order 3, inserting "1", "2", "3", "4", "5", "6" in that order: after "5", leaf 4 is listed by node 5 but its parent link names node 2; after "6", the new leaf and key "5" are filed under node 2, and `search("6")` returns `NULL` although the pair is stored | `right->parent = parent;` after the insertion at line 108, so that every child's parent link names the node that lists it | not executed | Witness.StaleParentLink | BPlusSpec.InsertIntoParent |
