/**
 * A persistent, implicit-key treap.
 *
 * A treap is a binary tree whose in-order traversal is the stored sequence
 * (position 0 is the leftmost node). Every node caches the number of nodes in
 * its subtree and carries an integer priority; priorities are kept in max-heap
 * order. Split and Merge never change a node they are given: they build new
 * nodes and reuse the untouched subtrees.
 *
 * Nodes are immutable values here, so a subtree that two treaps share is simply
 * the same value in both.
 */
module Treaps {

  datatype Tree<T> =
    | Leaf
    | Node(left: Tree<T>, value: T, priority: int, size: int, right: Tree<T>)

  /** The cached size of a possibly empty subtree; an empty one counts 0. */
  function Size<T>(t: Tree<T>): int
  {
    if t.Leaf? then 0 else t.size
  }

  /** The in-order sequence of a tree: the sequence the treap stores. */
  function Elements<T>(t: Tree<T>): seq<T>
  {
    match t
    case Leaf => []
    case Node(left, value, _, _, right) => Elements(left) + [value] + Elements(right)
  }

  /**
   * The priorities of a tree in in-order, so that PrioritySeq(t)[i] is the
   * priority of the node holding Elements(t)[i].
   */
  function PrioritySeq<T>(t: Tree<T>): (p: seq<int>)
    ensures |p| == |Elements(t)|
  {
    match t
    case Leaf => []
    case Node(left, _, priority, _, right) => PrioritySeq(left) + [priority] + PrioritySeq(right)
  }

  /** The priorities of all nodes of a tree. */
  function Priorities<T>(t: Tree<T>): multiset<int>
  {
    match t
    case Leaf => multiset{}
    case Node(left, _, priority, _, right) => Priorities(left) + multiset{priority} + Priorities(right)
  }

  /** The size cache is right at every node: one more than the children's sizes. */
  ghost predicate Valid<T>(t: Tree<T>)
  {
    match t
    case Leaf => true
    case Node(left, _, _, size, right) =>
      size == 1 + Size(left) + Size(right) && Valid(left) && Valid(right)
  }

  /** Max-heap order: no child has a higher priority than its parent. */
  ghost predicate HeapOrdered<T>(t: Tree<T>)
  {
    match t
    case Leaf => true
    case Node(left, _, priority, _, right) =>
      && (left.Node? ==> left.priority <= priority)
      && (right.Node? ==> right.priority <= priority)
      && HeapOrdered(left)
      && HeapOrdered(right)
  }

  /**
   * The number of elements Split puts into its left part: the key itself when
   * it lies in 0..n, and otherwise the nearer end of that range, which is where
   * the comparisons of Split lead an out-of-range key.
   */
  function Rank(key: int, n: nat): (c: nat)
    ensures c <= n
    ensures 0 <= key <= n ==> c == key
  {
    if key <= 0 then 0 else if key >= n then n else key
  }

  /**
   * The node constructor: stores the value, the priority and the two children
   * and computes the size by adding an absent child as 0. Any priority is
   * accepted, and the node is valid whenever its children are.
   */
  function Make<T>(value: T, priority: int, left: Tree<T>, right: Tree<T>): (t: Tree<T>)
    ensures t.Node? && t.value == value && t.priority == priority
    ensures t.left == left && t.right == right
    ensures t.size == 1 + Size(left) + Size(right)
    ensures Valid(left) && Valid(right) ==> Valid(t) && Size(t) == |Elements(t)|
  {
    SizeIsLength(left);
    SizeIsLength(right);
    var size := 1;
    var size := size + (if left.Node? then left.size else 0);
    var size := size + (if right.Node? then right.size else 0);
    Node(left, value, priority, size, right)
  }

  /**
   * The left child of a node: a valid treap holding the node's first
   * Size(t.left) elements with their priorities, heap-ordered when the node is.
   */
  function Left<T>(t: Tree<T>): (l: Tree<T>)
    requires t.Node?
    ensures Valid(t) ==> Valid(l) && 0 <= Size(t.left) < |Elements(t)|
    ensures Valid(t) ==> Elements(l) == Elements(t)[..Size(t.left)]
    ensures Valid(t) ==> PrioritySeq(l) == PrioritySeq(t)[..Size(t.left)]
    ensures HeapOrdered(t) ==> HeapOrdered(l)
  {
    SizeIsLength(t.left);
    t.left
  }

  /**
   * The right child of a node: a valid treap holding the node's last
   * Size(t.right) elements with their priorities, heap-ordered when the node is.
   */
  function Right<T>(t: Tree<T>): (r: Tree<T>)
    requires t.Node?
    ensures Valid(t) ==> Valid(r) && 0 <= Size(t.right) < |Elements(t)|
    ensures Valid(t) ==> Elements(r) == Elements(t)[|Elements(t)| - Size(t.right)..]
    ensures Valid(t) ==> PrioritySeq(r) == PrioritySeq(t)[|Elements(t)| - Size(t.right)..]
    ensures HeapOrdered(t) ==> HeapOrdered(r)
  {
    SizeIsLength(t.right);
    t.right
  }

  /** The value stored at a node: the element at rank Size(t.left) of its sequence. */
  function GetValue<T>(t: Tree<T>): (v: T)
    requires t.Node?
    ensures Valid(t) ==> 0 <= Size(t.left) < |Elements(t)| && Elements(t)[Size(t.left)] == v
  {
    SizeIsLength(t.left);
    t.value
  }

  /**
   * What Split promises about the two parts it returns for node t and a key:
   * they cut t's sequence at the key, and they have the shape Split gives them
   * in Treap.h.
   */
  ghost predicate IsSplitOf<T>(t: Tree<T>, key: int, leftPart: Tree<T>, rightPart: Tree<T>)
    requires t.Node?
  {
    SplitCuts(t, key, leftPart, rightPart) && SplitShape(t, key, leftPart, rightPart)
  }

  /**
   * Both parts are valid treaps; the left one holds the first Rank(key, n)
   * elements of t and the right one the rest; and each element keeps its
   * priority, so the in-order priorities are cut at the same place.
   */
  ghost predicate SplitCuts<T>(t: Tree<T>, key: int, leftPart: Tree<T>, rightPart: Tree<T>)
  {
    && Valid(leftPart) && Valid(rightPart)
    && Elements(leftPart) == Elements(t)[..Rank(key, |Elements(t)|)]
    && Elements(rightPart) == Elements(t)[Rank(key, |Elements(t)|)..]
    && PrioritySeq(leftPart) == PrioritySeq(t)[..Rank(key, |Elements(t)|)]
    && PrioritySeq(rightPart) == PrioritySeq(t)[Rank(key, |Elements(t)|)..]
  }

  /**
   * A part is empty exactly when the key is at or below 0, or at or above the
   * size; the node t itself heads the left part, keeping its left child, when
   * its rank is below the key, and heads the right part, keeping its right
   * child, otherwise; and on a heap-ordered t both parts are heap-ordered with
   * roots no higher than t's priority.
   */
  ghost predicate SplitShape<T>(t: Tree<T>, key: int, leftPart: Tree<T>, rightPart: Tree<T>)
    requires t.Node?
  {
    && (leftPart.Leaf? <==> key <= 0)
    && (rightPart.Leaf? <==> key >= t.size)
    && (Size(t.left) + 1 <= key ==>
          leftPart.Node? && leftPart.left == t.left &&
          leftPart.value == t.value && leftPart.priority == t.priority)
    && (key <= Size(t.left) ==>
          rightPart.Node? && rightPart.right == t.right &&
          rightPart.value == t.value && rightPart.priority == t.priority)
    && (HeapOrdered(t) ==> HeapOrdered(leftPart) && HeapOrdered(rightPart))
    && (HeapOrdered(t) && leftPart.Node? ==> leftPart.priority <= t.priority)
    && (HeapOrdered(t) && rightPart.Node? ==> rightPart.priority <= t.priority)
  }

  /**
   * Cuts the sequence of a node after its first key elements, as IsSplitOf
   * says. The node goes to the left part when its rank is below the key and to
   * the right part otherwise. That node is first built with an empty child,
   * which is then replaced by a half of the recursive split, and its size is
   * bumped by that half's size.
   */
  method Split<T>(t: Tree<T>, key: int) returns (leftPart: Tree<T>, rightPart: Tree<T>)
    requires t.Node? && Valid(t)
    ensures IsSplitOf(t, key, leftPart, rightPart)
    decreases t
  {
    var leftSize := Size(t.left);
    if leftSize + 1 <= key {
      leftPart := Make(t.value, t.priority, t.left, Leaf);
      if t.right.Node? {
        var l, r := Split(t.right, key - leftSize - 1);
        leftPart := leftPart.(right := l);
        leftPart := leftPart.(size := leftPart.size + Size(l));
        rightPart := r;
        SplitInRight(t, key, l, r);
        assert leftPart == Make(t.value, t.priority, t.left, l);
      } else {
        rightPart := Leaf;
        SplitAfterNode(t, key);
        assert leftPart == t;
      }
    } else {
      rightPart := Make(t.value, t.priority, Leaf, t.right);
      if t.left.Node? {
        var l, r := Split(t.left, key);
        rightPart := rightPart.(left := r);
        rightPart := rightPart.(size := rightPart.size + Size(r));
        leftPart := l;
        SplitInLeft(t, key, l, r);
        assert rightPart == Make(t.value, t.priority, r, t.right);
      } else {
        leftPart := Leaf;
        SplitBeforeNode(t, key);
        assert rightPart == t;
      }
    }
  }

  /** The recursive case into the right child: the node heads the left part. */
  lemma SplitInRight<T>(t: Tree<T>, key: int, l: Tree<T>, r: Tree<T>)
    requires t.Node? && Valid(t) && t.right.Node? && Size(t.left) + 1 <= key
    requires IsSplitOf(t.right, key - Size(t.left) - 1, l, r)
    ensures IsSplitOf(t, key, Make(t.value, t.priority, t.left, l), r)
  {
    CutsInRight(t, key, l, r);
    ShapeInRight(t, key, l, r);
  }

  /** The sequence and priorities of the right-child case. */
  lemma CutsInRight<T>(t: Tree<T>, key: int, l: Tree<T>, r: Tree<T>)
    requires t.Node? && Valid(t) && t.right.Node? && Size(t.left) + 1 <= key
    requires SplitCuts(t.right, key - Size(t.left) - 1, l, r)
    ensures SplitCuts(t, key, Make(t.value, t.priority, t.left, l), r)
  {
    SizeIsLength(t.left);
    var leftPart := Make(t.value, t.priority, t.left, l);
    assert Elements(leftPart) == Elements(t.left) + [t.value] + Elements(l);
    CutRightAt(Elements(t.left), t.value, Elements(t.right), key, Elements(l), Elements(r));
    assert PrioritySeq(leftPart) == PrioritySeq(t.left) + [t.priority] + PrioritySeq(l);
    CutRightAt(PrioritySeq(t.left), t.priority, PrioritySeq(t.right), key, PrioritySeq(l), PrioritySeq(r));
  }

  /**
   * Cutting a + [v] + b at a key past v: the halves of b cut at the key less
   * |a| + 1 give the halves of the whole sequence.
   */
  lemma CutRightAt<T>(a: seq<T>, v: T, b: seq<T>, key: int, bl: seq<T>, br: seq<T>)
    requires |a| + 1 <= key
    requires bl == b[..Rank(key - |a| - 1, |b|)] && br == b[Rank(key - |a| - 1, |b|)..]
    ensures a + [v] + bl == (a + [v] + b)[..Rank(key, |a + [v] + b|)]
    ensures br == (a + [v] + b)[Rank(key, |a + [v] + b|)..]
  {
    RankPastNode(key, |a|, |b|);
    CutRight(a, v, b, Rank(key - |a| - 1, |b|));
  }

  /** The emptiness, root and heap order of the right-child case. */
  lemma ShapeInRight<T>(t: Tree<T>, key: int, l: Tree<T>, r: Tree<T>)
    requires t.Node? && Valid(t) && t.right.Node? && Size(t.left) + 1 <= key
    requires IsSplitOf(t.right, key - Size(t.left) - 1, l, r)
    ensures SplitShape(t, key, Make(t.value, t.priority, t.left, l), r)
  {
    SizeIsLength(t.left);
  }

  /** The recursive case into the left child: the node heads the right part. */
  lemma SplitInLeft<T>(t: Tree<T>, key: int, l: Tree<T>, r: Tree<T>)
    requires t.Node? && Valid(t) && t.left.Node? && key <= Size(t.left)
    requires IsSplitOf(t.left, key, l, r)
    ensures IsSplitOf(t, key, l, Make(t.value, t.priority, r, t.right))
  {
    CutsInLeft(t, key, l, r);
    ShapeInLeft(t, key, l, r);
  }

  /** The sequence and priorities of the left-child case. */
  lemma CutsInLeft<T>(t: Tree<T>, key: int, l: Tree<T>, r: Tree<T>)
    requires t.Node? && Valid(t) && t.left.Node? && key <= Size(t.left)
    requires SplitCuts(t.left, key, l, r)
    ensures SplitCuts(t, key, l, Make(t.value, t.priority, r, t.right))
  {
    SizeIsLength(t);
    SizeIsLength(t.left);
    SizeIsLength(t.right);
    var rightPart := Make(t.value, t.priority, r, t.right);
    assert Rank(key, |Elements(t)|) == Rank(key, |Elements(t.left)|);
    CutLeft(Elements(t.left), t.value, Elements(t.right), Rank(key, |Elements(t.left)|));
    assert Elements(rightPart) == Elements(r) + [t.value] + Elements(t.right);
    CutLeft(PrioritySeq(t.left), t.priority, PrioritySeq(t.right), Rank(key, |Elements(t.left)|));
    assert PrioritySeq(rightPart) == PrioritySeq(r) + [t.priority] + PrioritySeq(t.right);
  }

  /** The emptiness, root and heap order of the left-child case. */
  lemma ShapeInLeft<T>(t: Tree<T>, key: int, l: Tree<T>, r: Tree<T>)
    requires t.Node? && Valid(t) && t.left.Node? && key <= Size(t.left)
    requires IsSplitOf(t.left, key, l, r)
    ensures SplitShape(t, key, l, Make(t.value, t.priority, r, t.right))
  {
    SizeIsLength(t.right);
  }

  /** A key past a node without a right child puts the whole node on the left. */
  lemma SplitAfterNode<T>(t: Tree<T>, key: int)
    requires t.Node? && Valid(t) && t.right.Leaf? && Size(t.left) + 1 <= key
    ensures Make(t.value, t.priority, t.left, Leaf) == t
    ensures IsSplitOf(t, key, t, Leaf)
  {
  }

  /** A key up to a node without a left child puts the whole node on the right. */
  lemma SplitBeforeNode<T>(t: Tree<T>, key: int)
    requires t.Node? && Valid(t) && t.left.Leaf? && key <= Size(t.left)
    ensures Make(t.value, t.priority, Leaf, t.right) == t
    ensures IsSplitOf(t, key, Leaf, t)
  {
  }

  /** A key past a node of rank m cuts at m + 1 plus the clamped rank in the right child. */
  lemma RankPastNode(key: int, m: nat, k: nat)
    requires m + 1 <= key
    ensures Rank(key, m + 1 + k) == m + 1 + Rank(key - m - 1, k)
  {
  }

  /** Cutting a + [v] + b inside b, j elements into it. */
  lemma CutRight<T>(a: seq<T>, v: T, b: seq<T>, j: nat)
    requires j <= |b|
    ensures (a + [v] + b)[..|a| + 1 + j] == a + [v] + b[..j]
    ensures (a + [v] + b)[|a| + 1 + j..] == b[j..]
  {
  }

  /** Cutting a + [v] + b inside a, at position i. */
  lemma CutLeft<T>(a: seq<T>, v: T, b: seq<T>, i: nat)
    requires i <= |a|
    ensures (a + [v] + b)[..i] == a[..i]
    ensures (a + [v] + b)[i..] == a[i..] + [v] + b
  {
  }

  /**
   * Concatenates two treaps. An empty side gives back the other input itself.
   * Otherwise the root with the strictly greater priority goes on top, the
   * right root winning ties, and its outer child is kept as it is.
   */
  function Merge<T>(left: Tree<T>, right: Tree<T>): (r: Tree<T>)
    ensures left.Leaf? ==> r == right
    ensures left.Node? && right.Leaf? ==> r == left
    ensures left.Node? && right.Node? && left.priority > right.priority ==>
              r.Node? && r.left == left.left && r.value == left.value && r.priority == left.priority
    ensures left.Node? && right.Node? && left.priority <= right.priority ==>
              r.Node? && r.right == right.right && r.value == right.value && r.priority == right.priority
    decreases left, right
  {
    if left.Leaf? then
      right
    else if right.Leaf? then
      left
    else if left.priority > right.priority then
      var newRight := Merge(left.right, right);
      Make(left.value, left.priority, left.left, newRight)
    else
      var newLeft := Merge(left, right.left);
      Make(right.value, right.priority, newLeft, right.right)
  }

  /** Merge concatenates: the result holds the left sequence followed by the right one. */
  lemma {:induction false} MergeElements<T>(left: Tree<T>, right: Tree<T>)
    ensures Elements(Merge(left, right)) == Elements(left) + Elements(right)
    decreases left, right
  {
    if left.Node? && right.Node? {
      if left.priority > right.priority {
        var m := Merge(left.right, right);
        MergeElements(left.right, right);
        assert Elements(Merge(left, right)) == Elements(left.left) + [left.value] + Elements(m);
        RegroupRight(Elements(left.left), left.value, Elements(left.right), Elements(right));
      } else {
        var m := Merge(left, right.left);
        MergeElements(left, right.left);
        assert Elements(Merge(left, right)) == Elements(m) + [right.value] + Elements(right.right);
        RegroupLeft(Elements(left), Elements(right.left), right.value, Elements(right.right));
      }
    }
  }

  /** Regrouping a + [x] + (b + c) when the right side was merged first. */
  lemma RegroupRight<X>(a: seq<X>, x: X, b: seq<X>, c: seq<X>)
    ensures a + [x] + (b + c) == (a + [x] + b) + c
  {
  }

  /** Regrouping (a + b) + [x] + c when the left side was merged first. */
  lemma RegroupLeft<X>(a: seq<X>, b: seq<X>, x: X, c: seq<X>)
    ensures (a + b) + [x] + c == a + (b + [x] + c)
  {
  }

  /** A sequence cut at k and joined again is the sequence itself. */
  lemma CutJoin<X>(s: seq<X>, k: nat)
    requires k <= |s|
    ensures s[..k] + s[k..] == s
  {
  }

  /** Merge keeps the nodes' priorities: its result has exactly those of both inputs. */
  lemma {:induction false} MergePriorities<T>(left: Tree<T>, right: Tree<T>)
    ensures Priorities(Merge(left, right)) == Priorities(left) + Priorities(right)
    decreases left, right
  {
    if left.Node? && right.Node? {
      if left.priority > right.priority {
        MergePriorities(left.right, right);
      } else {
        MergePriorities(left, right.left);
      }
    }
  }

  /**
   * Merge keeps every element with its own priority: the in-order priorities
   * of the result are those of the left input followed by those of the right.
   */
  lemma {:induction false} MergePrioritySeq<T>(left: Tree<T>, right: Tree<T>)
    ensures PrioritySeq(Merge(left, right)) == PrioritySeq(left) + PrioritySeq(right)
    decreases left, right
  {
    if left.Node? && right.Node? {
      if left.priority > right.priority {
        var m := Merge(left.right, right);
        MergePrioritySeq(left.right, right);
        assert PrioritySeq(Merge(left, right)) == PrioritySeq(left.left) + [left.priority] + PrioritySeq(m);
        RegroupRight(PrioritySeq(left.left), left.priority, PrioritySeq(left.right), PrioritySeq(right));
      } else {
        var m := Merge(left, right.left);
        MergePrioritySeq(left, right.left);
        assert PrioritySeq(Merge(left, right)) == PrioritySeq(m) + [right.priority] + PrioritySeq(right.right);
        RegroupLeft(PrioritySeq(left), PrioritySeq(right.left), right.priority, PrioritySeq(right.right));
      }
    }
  }

  /** The multiset of priorities is the multiset of the in-order priorities. */
  lemma {:induction false} PrioritiesOfSeq<T>(t: Tree<T>)
    ensures Priorities(t) == multiset(PrioritySeq(t))
  {
    if t.Node? {
      PrioritiesOfSeq(t.left);
      PrioritiesOfSeq(t.right);
      assert PrioritySeq(t) == PrioritySeq(t.left) + [t.priority] + PrioritySeq(t.right);
    }
  }

  /** Merge keeps the size cache right, and the result's size is the sum of the two sizes. */
  lemma {:induction false} MergeValid<T>(left: Tree<T>, right: Tree<T>)
    requires Valid(left) && Valid(right)
    ensures Valid(Merge(left, right))
    ensures Size(Merge(left, right)) == Size(left) + Size(right)
    decreases left, right
  {
    if left.Node? && right.Node? {
      if left.priority > right.priority {
        MergeValid(left.right, right);
      } else {
        MergeValid(left, right.left);
      }
    }
  }

  /** Merging two heap-ordered treaps gives a heap-ordered treap. */
  lemma {:induction false} MergeHeap<T>(left: Tree<T>, right: Tree<T>)
    requires HeapOrdered(left) && HeapOrdered(right)
    ensures HeapOrdered(Merge(left, right))
    ensures Merge(left, right).Node? ==>
              (left.Node? && Merge(left, right).priority == left.priority) ||
              (right.Node? && Merge(left, right).priority == right.priority)
    decreases left, right
  {
    if left.Node? && right.Node? {
      if left.priority > right.priority {
        MergeHeap(left.right, right);
      } else {
        MergeHeap(left, right.left);
      }
    }
  }

  /** The cached size of a valid treap is the length of its sequence. */
  lemma {:induction false} SizeIsLength<T>(t: Tree<T>)
    ensures Valid(t) ==> Size(t) == |Elements(t)|
  {
    if t.Node? {
      SizeIsLength(t.left);
      SizeIsLength(t.right);
    }
  }

  /** In a heap-ordered treap the root has the highest priority of all its nodes. */
  lemma {:induction false} HeapRootIsMax<T>(t: Tree<T>)
    requires t.Node? && HeapOrdered(t)
    ensures forall p | p in Priorities(t) :: p <= t.priority
  {
    if t.left.Node? {
      HeapRootIsMax(t.left);
    }
    if t.right.Node? {
      HeapRootIsMax(t.right);
    }
  }

  /**
   * Splitting a treap and merging the two parts gives back its sequence, with
   * each element keeping its priority, and a heap-ordered treap comes back
   * heap-ordered.
   */
  method SplitThenMerge<T>(t: Tree<T>, key: int) returns (r: Tree<T>)
    requires t.Node? && Valid(t)
    ensures Valid(r) && Elements(r) == Elements(t) && Size(r) == Size(t)
    ensures PrioritySeq(r) == PrioritySeq(t) && Priorities(r) == Priorities(t)
    ensures HeapOrdered(t) ==> HeapOrdered(r)
  {
    var leftPart, rightPart := Split(t, key);
    r := Merge(leftPart, rightPart);
    ghost var k := Rank(key, |Elements(t)|);
    MergeElements(leftPart, rightPart);
    CutJoin(Elements(t), k);
    MergePrioritySeq(leftPart, rightPart);
    CutJoin(PrioritySeq(t), k);
    PrioritiesOfSeq(r);
    PrioritiesOfSeq(t);
    MergeValid(leftPart, rightPart);
    if HeapOrdered(t) {
      MergeHeap(leftPart, rightPart);
    }
    SizeIsLength(t);
    SizeIsLength(r);
  }

  /**
   * Merging two treaps, at least one of them non-empty, and splitting the
   * result at the size of the left one gives back both sequences, with their
   * priorities.
   */
  method MergeThenSplit<T>(a: Tree<T>, b: Tree<T>) returns (leftPart: Tree<T>, rightPart: Tree<T>)
    requires Valid(a) && Valid(b) && (a.Node? || b.Node?)
    ensures Elements(leftPart) == Elements(a) && Elements(rightPart) == Elements(b)
    ensures PrioritySeq(leftPart) == PrioritySeq(a) && PrioritySeq(rightPart) == PrioritySeq(b)
  {
    var m := Merge(a, b);
    MergeElements(a, b);
    MergePrioritySeq(a, b);
    MergeValid(a, b);
    SizeIsLength(a);
    assert m.Node? by {
      SizeIsLength(b);
    }
    leftPart, rightPart := Split(m, Size(a));
  }
}
