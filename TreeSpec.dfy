/**
 * Key-level model of the unbalanced binary search tree: the tree as a value,
 * with the insertion and deletion algorithms of BinarySearchTree.java written
 * as functions, and the properties the tree promises proved about them.
 * The heap-based classes (module Bst) are proved to compute exactly these
 * functions.
 */
module TreeSpec {

  datatype Tree = Empty | Branch(left: Tree, key: int, right: Tree)

  function Keys(t: Tree): set<int>
  {
    match t
    case Empty => {}
    case Branch(l, k, r) => Keys(l) + {k} + Keys(r)
  }

  function Size(t: Tree): nat
  {
    match t
    case Empty => 0
    case Branch(l, _, r) => Size(l) + 1 + Size(r)
  }

  /** The BST order invariant: left keys are smaller, right keys are greater, at every node. */
  ghost predicate Ordered(t: Tree)
  {
    match t
    case Empty => true
    case Branch(l, k, r) =>
      Ordered(l) && Ordered(r) &&
      (forall x :: x in Keys(l) ==> x < k) &&
      (forall x :: x in Keys(r) ==> k < x)
  }

  /** Number of layers, computed as heightHelper does: 0 for no node, else one more than the taller child. */
  function Height(t: Tree): nat
  {
    match t
    case Empty => 0
    case Branch(l, _, r) =>
      if Height(l) > Height(r) then Height(l) + 1 else Height(r) + 1
  }

  /** Left subtree, key, right subtree: the order printInOrder visits the keys in. */
  function InOrder(t: Tree): seq<int>
  {
    match t
    case Empty => []
    case Branch(l, k, r) => InOrder(l) + [k] + InOrder(r)
  }

  /** The descent findByValueHelper performs: go left on smaller, right on greater. */
  function Contains(t: Tree, v: int): bool
  {
    match t
    case Empty => false
    case Branch(l, k, r) =>
      if v < k then Contains(l, v)
      else if v > k then Contains(r, v)
      else true
  }

  /** insertHelper: a new leaf at the empty slot the descent reaches; an equal key stops it. */
  function Insert(t: Tree, v: int): Tree
  {
    match t
    case Empty => Branch(Empty, v, Empty)
    case Branch(l, k, r) =>
      if v < k then Branch(Insert(l, v), k, r)
      else if v > k then Branch(l, k, Insert(r, v))
      else t
  }

  /** Key of the leftmost node (getMostLeft). */
  function MinKey(t: Tree): int
    requires t != Empty
  {
    if t.left == Empty then t.key else MinKey(t.left)
  }

  /** Key of the rightmost node (getMostRight). */
  function MaxKey(t: Tree): int
    requires t != Empty
  {
    if t.right == Empty then t.key else MaxKey(t.right)
  }

  /** The tree with its leftmost node spliced out (replaced by that node's right subtree). */
  function DeleteMin(t: Tree): Tree
    requires t != Empty
  {
    if t.left == Empty then t.right else Branch(DeleteMin(t.left), t.key, t.right)
  }

  /** The tree with the key of its leftmost node overwritten by v. */
  function ReplaceMin(t: Tree, v: int): Tree
    requires t != Empty
  {
    if t.left == Empty then Branch(Empty, v, t.right)
    else Branch(ReplaceMin(t.left, v), t.key, t.right)
  }

  /**
   * deleteHelper: descend to the key; a leaf disappears, a node with one child is
   * replaced by that child, and a node with two children takes the key of its
   * in-order successor, whose node is then spliced out of the right subtree.
   */
  function Delete(t: Tree, v: int): Tree
  {
    match t
    case Empty => Empty
    case Branch(l, k, r) =>
      if v < k then Branch(Delete(l, v), k, r)
      else if v > k then Branch(l, k, Delete(r, v))
      else if l == Empty && r == Empty then Empty
      else if l == Empty then r
      else if r == Empty then l
      else Branch(l, MinKey(r), DeleteMin(r))
  }

  function InsertAll(t: Tree, xs: seq<int>): Tree
    decreases |xs|
  {
    if xs == [] then t else InsertAll(Insert(t, xs[0]), xs[1..])
  }

  function DeleteAll(t: Tree, xs: seq<int>): Tree
    decreases |xs|
  {
    if xs == [] then t else DeleteAll(Delete(t, xs[0]), xs[1..])
  }

  function Reverse(xs: seq<int>): (r: seq<int>)
    ensures |r| == |xs|
  {
    if xs == [] then [] else Reverse(xs[1..]) + [xs[0]]
  }

  /** Each element is smaller than every later one: ascending, without repeats. */
  ghost predicate StrictlyIncreasing(xs: seq<int>)
  {
    forall i, j :: 0 <= i < j < |xs| ==> xs[i] < xs[j]
  }

  // ---------------------------------------------------------------- search

  /** On an ordered tree the descent finds v exactly when v is a key. */
  lemma {:induction false} ContainsIffKey(t: Tree, v: int)
    requires Ordered(t)
    ensures Contains(t, v) <==> v in Keys(t)
  {
    match t
    case Empty =>
    case Branch(l, k, r) =>
      ContainsIffKey(l, v);
      ContainsIffKey(r, v);
  }

  // ---------------------------------------------------------------- insert

  /** Insertion adds exactly v to the key set. */
  lemma {:induction false} InsertKeys(t: Tree, v: int)
    ensures Keys(Insert(t, v)) == Keys(t) + {v}
  {
    match t
    case Empty =>
    case Branch(l, k, r) =>
      InsertKeys(l, v);
      InsertKeys(r, v);
  }

  /** Insertion keeps the BST order. */
  lemma {:induction false} InsertOrdered(t: Tree, v: int)
    requires Ordered(t)
    ensures Ordered(Insert(t, v))
  {
    match t
    case Empty =>
    case Branch(l, k, r) =>
      InsertKeys(l, v);
      InsertKeys(r, v);
      InsertOrdered(l, v);
      InsertOrdered(r, v);
  }

  /** Inserting a key the descent finds changes nothing. */
  lemma {:induction false} InsertFoundIsNoop(t: Tree, v: int)
    requires Contains(t, v)
    ensures Insert(t, v) == t
  {
    match t
    case Branch(l, k, r) =>
      if v < k { InsertFoundIsNoop(l, v); }
      else if v > k { InsertFoundIsNoop(r, v); }
  }

  /** Inserting a key that is not found adds exactly one node. */
  lemma {:induction false} InsertNotFoundGrows(t: Tree, v: int)
    requires !Contains(t, v)
    ensures Size(Insert(t, v)) == Size(t) + 1
  {
    match t
    case Empty =>
    case Branch(l, k, r) =>
      if v < k { InsertNotFoundGrows(l, v); }
      else { InsertNotFoundGrows(r, v); }
  }

  // ---------------------------------------------------------------- min / max

  /** The leftmost key of an ordered tree is its least key. */
  lemma {:induction false} MinKeyIsLeast(t: Tree)
    requires t != Empty && Ordered(t)
    ensures MinKey(t) in Keys(t)
    ensures forall x :: x in Keys(t) ==> MinKey(t) <= x
  {
    if t.left != Empty {
      MinKeyIsLeast(t.left);
    }
  }

  /** The rightmost key of an ordered tree is its greatest key. */
  lemma {:induction false} MaxKeyIsGreatest(t: Tree)
    requires t != Empty && Ordered(t)
    ensures MaxKey(t) in Keys(t)
    ensures forall x :: x in Keys(t) ==> x <= MaxKey(t)
  {
    if t.right != Empty {
      MaxKeyIsGreatest(t.right);
    }
  }

  /**
   * The in-order successor of the key of a node with a right subtree is the
   * leftmost key of that subtree: the smallest key of the tree greater than it.
   */
  lemma SuccessorIsNextKey(l: Tree, v: int, r: Tree)
    requires r != Empty && Ordered(Branch(l, v, r))
    ensures MinKey(r) in Keys(r) && v < MinKey(r)
    ensures forall x :: x in Keys(Branch(l, v, r)) && v < x ==> MinKey(r) <= x
  {
    MinKeyIsLeast(r);
  }

  // ---------------------------------------------------------------- delete

  /** Splicing out the leftmost node removes exactly the least key and keeps the order. */
  lemma {:induction false} DeleteMinKeys(t: Tree)
    requires t != Empty && Ordered(t)
    ensures Keys(DeleteMin(t)) == Keys(t) - {MinKey(t)}
    ensures Ordered(DeleteMin(t))
  {
    MinKeyIsLeast(t);
    if t.left != Empty {
      DeleteMinKeys(t.left);
    }
  }

  /** Deletion removes exactly v from the key set. */
  lemma {:induction false} DeleteKeys(t: Tree, v: int)
    requires Ordered(t)
    ensures Keys(Delete(t, v)) == Keys(t) - {v}
  {
    match t
    case Empty =>
    case Branch(l, k, r) =>
      if v < k {
        DeleteKeys(l, v);
      } else if v > k {
        DeleteKeys(r, v);
      } else if l != Empty && r != Empty {
        DeleteMinKeys(r);
        MinKeyIsLeast(r);
      }
  }

  /** Deletion keeps the BST order. */
  lemma {:induction false} DeleteOrdered(t: Tree, v: int)
    requires Ordered(t)
    ensures Ordered(Delete(t, v))
  {
    match t
    case Empty =>
    case Branch(l, k, r) =>
      if v < k {
        DeleteKeys(l, v);
        DeleteOrdered(l, v);
      } else if v > k {
        DeleteKeys(r, v);
        DeleteOrdered(r, v);
      } else if l != Empty && r != Empty {
        DeleteMinKeys(r);
        MinKeyIsLeast(r);
      }
  }

  /** Deleting a key that is not in the tree gives back the same tree. */
  lemma {:induction false} DeleteAbsentIsNoop(t: Tree, v: int)
    requires v !in Keys(t)
    ensures Delete(t, v) == t
  {
    match t
    case Empty =>
    case Branch(l, k, r) =>
      DeleteAbsentIsNoop(l, v);
      DeleteAbsentIsNoop(r, v);
  }

  /** Overwriting the leftmost key does not change what splicing out the leftmost node leaves. */
  lemma {:induction false} DeleteMinReplaceMin(t: Tree, v: int)
    requires t != Empty
    ensures ReplaceMin(t, v) != Empty && DeleteMin(ReplaceMin(t, v)) == DeleteMin(t)
  {
    if t.left != Empty {
      DeleteMinReplaceMin(t.left, v);
    }
  }

  lemma {:induction false} ReplaceMinKeys(t: Tree, v: int)
    requires t != Empty
    ensures MinKey(ReplaceMin(t, v)) == v
  {
    if t.left != Empty {
      ReplaceMinKeys(t.left, v);
    }
  }

  /**
   * The two-children case of deleteHelper first swaps the key v of the node with
   * the key of its successor: the intermediate tree is NOT ordered (v now sits in
   * the right subtree, below a node holding a greater key), and splicing out the
   * successor's node restores an ordered tree that is exactly Delete's result.
   */
  lemma SwapBreaksThenRestoresOrder(l: Tree, v: int, r: Tree)
    requires l != Empty && r != Empty && Ordered(Branch(l, v, r))
    ensures !Ordered(Branch(l, MinKey(r), ReplaceMin(r, v)))
    ensures Branch(l, MinKey(r), DeleteMin(ReplaceMin(r, v))) == Delete(Branch(l, v, r), v)
    ensures Ordered(Delete(Branch(l, v, r), v))
  {
    ReplaceMinKeys(r, v);
    DeleteMinReplaceMin(r, v);
    DeleteOrdered(Branch(l, v, r), v);
    var r' := ReplaceMin(r, v);
    MinKeyInKeys(r');
    SuccessorIsNextKey(l, v, r);
  }

  lemma {:induction false} MinKeyInKeys(t: Tree)
    requires t != Empty
    ensures MinKey(t) in Keys(t)
  {
    if t.left != Empty {
      MinKeyInKeys(t.left);
    }
  }

  // ---------------------------------------------------------------- height

  /** A tree has no more layers than nodes; a non-empty tree has at least one. */
  lemma {:induction false} HeightAtMostSize(t: Tree)
    ensures Height(t) <= Size(t)
    ensures t != Empty ==> Height(t) >= 1
  {
    match t
    case Empty =>
    case Branch(l, _, r) =>
      HeightAtMostSize(l);
      HeightAtMostSize(r);
  }

  /** A tree in which no node has a left child: the degenerate chain. */
  ghost predicate RightChain(t: Tree)
  {
    t == Empty || (t.left == Empty && RightChain(t.right))
  }

  /** A key greater than every key extends a right chain by one layer. */
  lemma {:induction false} InsertGreatestExtendsChain(t: Tree, v: int)
    requires RightChain(t)
    requires forall x :: x in Keys(t) ==> x < v
    ensures RightChain(Insert(t, v))
    ensures Height(Insert(t, v)) == Height(t) + 1
    ensures Keys(Insert(t, v)) == Keys(t) + {v}
  {
    match t
    case Empty =>
    case Branch(l, k, r) =>
      assert k in Keys(t);
      assert forall x :: x in Keys(r) ==> x in Keys(t);
      InsertGreatestExtendsChain(r, v);
  }

  /** Inserting strictly increasing keys (1, 2, ..., n) into the empty tree yields height n. */
  lemma IncreasingInsertsGiveChain(xs: seq<int>)
    requires StrictlyIncreasing(xs)
    ensures Height(InsertAll(Empty, xs)) == |xs|
  {
    IncreasingInsertsAux(Empty, xs);
  }

  lemma {:induction false} IncreasingInsertsAux(t: Tree, xs: seq<int>)
    requires RightChain(t) && StrictlyIncreasing(xs)
    requires forall x, i :: x in Keys(t) && 0 <= i < |xs| ==> x < xs[i]
    ensures RightChain(InsertAll(t, xs))
    ensures Height(InsertAll(t, xs)) == Height(t) + |xs|
    decreases |xs|
  {
    if xs != [] {
      InsertGreatestExtendsChain(t, xs[0]);
      var t' := Insert(t, xs[0]);
      forall x, i | x in Keys(t') && 0 <= i < |xs[1..]|
        ensures x < xs[1..][i]
      {
        assert xs[1..][i] == xs[i + 1];
      }
      IncreasingInsertsAux(t', xs[1..]);
    }
  }

  // ---------------------------------------------------------------- in-order

  /** The in-order traversal of an ordered tree lists every key once, in ascending order. */
  lemma {:induction false} InOrderSorted(t: Tree)
    requires Ordered(t)
    ensures StrictlyIncreasing(InOrder(t))
    ensures forall x :: x in InOrder(t) <==> x in Keys(t)
    ensures |InOrder(t)| == Size(t)
  {
    match t
    case Empty =>
    case Branch(l, k, r) =>
      InOrderSorted(l);
      InOrderSorted(r);
      var s := InOrder(t);
      assert s == InOrder(l) + [k] + InOrder(r);
      forall i, j | 0 <= i < j < |s| ensures s[i] < s[j] {
        var n := |InOrder(l)|;
        if j < n {
        } else if i < n {
          assert s[i] in InOrder(l);
          if j > n { assert s[j] == InOrder(r)[j - n - 1]; assert s[j] in InOrder(r); }
        } else if i == n {
          assert s[j] == InOrder(r)[j - n - 1];
          assert s[j] in InOrder(r);
        } else {
          assert s[i] == InOrder(r)[i - n - 1];
          assert s[j] == InOrder(r)[j - n - 1];
        }
      }
  }

  // ---------------------------------------------------------------- sequences of operations

  /** Inserting a list adds exactly its elements and keeps the order. */
  lemma {:induction false} InsertAllKeys(t: Tree, xs: seq<int>)
    requires Ordered(t)
    ensures Ordered(InsertAll(t, xs))
    ensures forall x :: x in Keys(InsertAll(t, xs)) <==> x in Keys(t) || x in xs
    decreases |xs|
  {
    if xs != [] {
      InsertKeys(t, xs[0]);
      InsertOrdered(t, xs[0]);
      InsertAllKeys(Insert(t, xs[0]), xs[1..]);
      assert xs == [xs[0]] + xs[1..];
    }
  }

  /** Deleting a list removes exactly its elements and keeps the order. */
  lemma {:induction false} DeleteAllKeys(t: Tree, xs: seq<int>)
    requires Ordered(t)
    ensures Ordered(DeleteAll(t, xs))
    ensures forall x :: x in Keys(DeleteAll(t, xs)) <==> x in Keys(t) && x !in xs
    decreases |xs|
  {
    if xs != [] {
      DeleteKeys(t, xs[0]);
      DeleteOrdered(t, xs[0]);
      DeleteAllKeys(Delete(t, xs[0]), xs[1..]);
      assert xs == [xs[0]] + xs[1..];
    }
  }

  lemma {:induction false} ReverseSameElements(xs: seq<int>)
    ensures forall x :: x in Reverse(xs) <==> x in xs
  {
    if xs != [] {
      ReverseSameElements(xs[1..]);
      assert xs == [xs[0]] + xs[1..];
    }
  }

  /**
   * Inserting a list into the empty tree and then deleting the same list, in the
   * same or in the reverse order, leaves the empty tree.
   */
  lemma InsertThenDeleteAllIsEmpty(xs: seq<int>)
    ensures DeleteAll(InsertAll(Empty, xs), xs) == Empty
    ensures DeleteAll(InsertAll(Empty, xs), Reverse(xs)) == Empty
  {
    InsertAllKeys(Empty, xs);
    var t := InsertAll(Empty, xs);
    DeleteAllKeys(t, xs);
    DeleteAllKeys(t, Reverse(xs));
    ReverseSameElements(xs);
    EmptyKeys(DeleteAll(t, xs));
    EmptyKeys(DeleteAll(t, Reverse(xs)));
  }

  lemma EmptyKeys(t: Tree)
    requires forall x :: x !in Keys(t)
    ensures t == Empty
  {
    if t != Empty {
      assert t.key in Keys(t);
    }
  }

  /** Inserting the same key repeatedly and deleting it once empties the tree. */
  lemma RepeatedInsertSingleDelete(v: int)
    ensures InsertAll(Empty, [v, v, v]) == Branch(Empty, v, Empty)
    ensures Delete(InsertAll(Empty, [v, v, v]), v) == Empty
  {
    var one := Branch(Empty, v, Empty);
    assert [v, v, v][1..] == [v, v] && [v, v][1..] == [v] && [v][1..] == [];
    assert Insert(one, v) == one;
    calc {
      InsertAll(Empty, [v, v, v]);
      InsertAll(one, [v, v]);
      InsertAll(one, [v]);
      InsertAll(one, []);
    }
  }

  /**
   * The worked example: keys 5, 3, 2, 1, 6, 10, 9 give a tree of height 4 with
   * least key 1 and greatest 10 that finds 9; deleting 5, which has two
   * children, leaves 1, 2, 3, 6, 9, 10 in ascending order.
   */
  lemma Example()
    ensures Contains(InsertAll(Empty, [5, 3, 2, 1, 6, 10, 9]), 9)
    ensures Height(InsertAll(Empty, [5, 3, 2, 1, 6, 10, 9])) == 4
    ensures MinKey(InsertAll(Empty, [5, 3, 2, 1, 6, 10, 9])) == 1
    ensures MaxKey(InsertAll(Empty, [5, 3, 2, 1, 6, 10, 9])) == 10
    ensures InOrder(Delete(InsertAll(Empty, [5, 3, 2, 1, 6, 10, 9]), 5)) == [1, 2, 3, 6, 9, 10]
  {
    var left := Branch(Branch(Branch(Empty, 1, Empty), 2, Empty), 3, Empty);
    var t := Branch(left, 5, Branch(Empty, 6, Branch(Branch(Empty, 9, Empty), 10, Empty)));
    assert InsertAll(Empty, [5, 3, 2, 1, 6, 10, 9]) == t;
    assert Delete(t, 5) == Branch(left, 6, Branch(Branch(Empty, 9, Empty), 10, Empty));
  }
}
