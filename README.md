# Persistent implicit-key treap in Dafny

This project models `Treap<T>` from `Treap.h`. It is a persistent treap with
implicit keys.

- The in-order traversal of the tree is the stored sequence, so a node's key is
  its rank.
- Every node caches the size of its subtree.
- Every node carries an `int` priority. `Merge` keeps priorities in max-heap
  order.
- `Split(key)` cuts the sequence after its first `key` elements.
- `Merge(left, right)` concatenates two sequences.
- Neither operation changes a node it is given. Each builds new nodes and
  reuses the subtrees it does not touch.

Everything is in `treap.dfy`, module `Treaps`.

- A node is the datatype value `Node(left, value, priority, size, right)`. A
  null pointer is `Leaf`.
- `Elements` is the in-order sequence. `PrioritySeq` is the in-order sequence
  of priorities, so position `i` of each belongs to the same node.
  `Priorities` is the multiset of priorities.
- `Valid` says the size cache is right at every node. It is the class
  invariant: `size_` is private and set only by the constructor and by `Split`.
- `HeapOrdered` says no child has a higher priority than its parent.
- `Make` is the constructor. It adds up the size the same way the source does,
  counting an absent child as 0.
- `Split` is a method that follows the source step by step:
  1. build the node with an empty child;
  2. split the child recursively;
  3. replace the empty child by one half of that split;
  4. add that half's size to the cached size.

  `IsSplitOf` is Split's contract. It joins two parts:
  - `SplitCuts`: validity, and where the value and priority sequences are cut;
  - `SplitShape`: which part is empty, which node heads each part, and heap order.

  Four branch lemmas prove one branch each: `SplitInRight`, `SplitInLeft`,
  `SplitAfterNode` and `SplitBeforeNode`. Each recursive branch lemma splits
  into a `Cuts…` lemma and a `Shape…` lemma. Inside `Split`, assertions check
  that the patched node equals the node the constructor would build directly.
  `SplitAfterNode` and `SplitBeforeNode` state that equality in their
  contracts for the branches without a recursive call.
- `Merge` is a recursive function, as in the source. Its properties are proved
  by separate inductive lemmas.

Two behaviours of the code that the model keeps:

- **Keys outside `0..size`.** `Split` checks nothing about its key. The
  comparison at Treap.h:35 sends a key `<= 0` down the left side until it
  reaches an empty left part. A key `>= size` goes down the right side until
  it reaches an empty right part. `Rank` clamps the key into `0..size` the
  same way. `Split` is proved correct, valid and heap-preserving for every
  `int` key.
- **Ties in `Merge`.** The strict `>` at Treap.h:69 means that on equal
  priorities the right input's root goes on top.

## Model

| member | source | states |
|---|---|---|
| Treaps.Make | Treap.h:8-15 | The constructor stores the value, priority and both children, and its size is always 1 plus each present child's size. If both children have correct size caches, the new node does too, and its size is the length of its in-order sequence. |
| Treaps.SizeIsLength | Treap.h:11-14 | In a tree whose size caches are right, the cached size equals the number of elements in the in-order sequence. |
| Treaps.Left | Treap.h:17-19 | The left child of a valid node is valid. Its value and priority sequences are exactly the first `Size(t.left)` entries of the node's, and it is heap-ordered when the node is. |
| Treaps.Right | Treap.h:21-23 | The right child of a valid node is valid. Its value and priority sequences are exactly the last `Size(t.right)` entries of the node's, and it is heap-ordered when the node is. |
| Treaps.GetValue | Treap.h:25-27 | The value of a valid node is the element at rank `Size(left)` of its in-order sequence. |
| Treaps.Split | Treap.h:29-58 | For every `int` key: both parts are valid; the left part holds the first `Rank(key, n)` elements and the right part the rest; the in-order priorities are cut at the same place, so every element keeps its own priority; the left part is empty exactly when `key <= 0` and the right part exactly when `key >= size`; the receiver node heads the left part, with its original left child, when `left_size + 1 <= key`, and otherwise heads the right part, with its original right child; on a heap-ordered receiver both parts are heap-ordered and their roots are no higher than the receiver's priority. |
| Treaps.SplitInRight | Treap.h:35-41 | If splitting the right child at `key - left_size - 1` meets the split contract, then the node rebuilt over the left half, together with the right half, meets the split contract for the whole node. |
| Treaps.CutsInRight | Treap.h:36-41 | In that case, the rebuilt node followed by the right half cuts the whole node's value and priority sequences at the clamped key. |
| Treaps.ShapeInRight | Treap.h:36-41 | In that case, the rebuilt node heads the left part with the original left child, only the right half can be empty (exactly when the key reaches the size), and heap order carries over. |
| Treaps.SplitInLeft | Treap.h:45-51 | If splitting the left child at `key` meets the split contract, then the left half, together with the node rebuilt over the right half, meets the split contract for the whole node. |
| Treaps.CutsInLeft | Treap.h:46-51 | In that case, the left half followed by the rebuilt node cuts the whole node's value and priority sequences at the clamped key. |
| Treaps.ShapeInLeft | Treap.h:46-51 | In that case, the rebuilt node heads the right part with the original right child, only the left half can be empty (exactly when `key <= 0`), and heap order carries over. |
| Treaps.SplitAfterNode | Treap.h:35-44 | When the key passes a node that has no right child, the node built from its value, priority, left child and an empty right child equals the node itself. Returning it with an empty right part meets the split contract. |
| Treaps.SplitBeforeNode | Treap.h:45-54 | When the key does not pass a node that has no left child, the node built from its value, priority, an empty left child and its right child equals the node itself. Returning it with an empty left part meets the split contract. |
| Treaps.Merge | Treap.h:60-78 | An empty left input returns the right input itself, and an empty right input returns the left input itself. Otherwise the result's root is the left root when its priority is strictly greater, keeping its left child. On equal or lower priority the right root wins, keeping its right child. |
| Treaps.MergeElements | Treap.h:69-77 | The in-order sequence of the merge is the left sequence followed by the right sequence. |
| Treaps.MergePriorities | Treap.h:69-77 | The merge has exactly the multiset of priorities of its two inputs. |
| Treaps.MergePrioritySeq | Treap.h:69-77 | Each element keeps its priority through the merge: the result's in-order priorities are the left input's followed by the right input's. |
| Treaps.PrioritiesOfSeq | Treap.h:86 | The multiset of a tree's `priority_` fields is the multiset of its in-order priority sequence. |
| Treaps.MergeValid | Treap.h:70-76 | Merging two trees with correct size caches gives a tree with correct size caches. Its size is the sum of the two sizes. |
| Treaps.MergeHeap | Treap.h:69-76 | Merging two heap-ordered treaps gives a heap-ordered treap whose root priority is that of one of the input roots. |
| Treaps.HeapRootIsMax | Treap.h:86 | A property of the max-heap order over the `priority_` field: in a heap-ordered treap, the root's priority is at least every priority in the tree. |
| Treaps.SplitThenMerge | Treap.h:29-78 | Splitting a valid treap at any key and merging the two parts gives a valid treap with the same sequence, the same in-order priorities (so the same multiset of priorities) and the same size. A heap-ordered treap comes back heap-ordered. |
| Treaps.MergeThenSplit | Treap.h:29-78 | Merging two valid treaps, at least one of them non-empty, and splitting at the left one's size gives back both input sequences, each with its in-order priorities. |

## Left out

- `shared_ptr` reference counting, destruction and reclamation. Nodes are
  immutable values, so there is nothing to free.
- Node identity and sharing by reference. With values, "Split and Merge leave
  their inputs unchanged" holds by construction. A reused child is stated as
  equal, for example `leftPart.left == t.left`, not as the same object.
- Thread safety of the reference counts. This is a concurrency concern that the
  code does not address.
- Random priority generation. The code has none: priorities are `int`
  parameters supplied by the caller.
- Expected O(log n) depth and running time. They are probabilistic, not
  functional properties.
- `int` overflow of `size_` and of `key - left_size - 1`. Sizes and keys are
  unbounded integers.
- The unused `#include <vector>`.
- Treaps.Split: requires a non-empty receiver, because it is a member function
  called on an existing node. It also requires `Valid`, which is the class
  invariant on the private size cache.
