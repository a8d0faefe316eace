/**
 * The linked structure of Node objects, seen as a value. A Shape is a tree that
 * records, at each position, the Node object found there and its key; Mirrors
 * says that the heap (the left, right, parent and value fields) holds exactly
 * that shape, parent back-links included. Abstract forgets the objects and
 * gives the key-level tree of module TreeSpec.
 *
 * Frames and Plug form a zipper: a path of frames from a subtree root down to a
 * hole, so that a subtree deep inside a tree can be cut out, changed and put
 * back. This is what deletion at the in-order successor needs.
 */
module Shapes {
  import opened Nodes
  import opened TreeSpec

  datatype Shape = Nil | Br(left: Shape, node: Node, key: int, right: Shape)

  function Abstract(s: Shape): Tree
  {
    match s
    case Nil => Empty
    case Br(l, _, k, r) => Branch(Abstract(l), k, Abstract(r))
  }

  function NodesOf(s: Shape): set<Node>
  {
    match s
    case Nil => {}
    case Br(l, n, _, r) => NodesOf(l) + {n} + NodesOf(r)
  }

  function Root(s: Shape): Node?
  {
    if s == Nil then null else s.node
  }

  /** No object occurs twice: the links form a tree, not a graph. */
  ghost predicate Distinct(s: Shape)
  {
    match s
    case Nil => true
    case Br(l, n, _, r) =>
      Distinct(l) && Distinct(r) &&
      n !in NodesOf(l) && n !in NodesOf(r) && NodesOf(l) !! NodesOf(r)
  }

  /** Every object of a shape exists in the current heap. */
  lemma {:induction false} NodesAllocated(s: Shape)
    ensures forall n :: n in NodesOf(s) ==> allocated(n)
  {
    if s != Nil {
      NodesAllocated(s.left);
      NodesAllocated(s.right);
    }
  }

  /**
   * p points to the root of shape s, whose parent link is par, and every node
   * of s holds its key and links to its children, which link back to it.
   */
  ghost predicate Mirrors(p: Node?, s: Shape, par: Node?)
    reads NodesOf(s)
  {
    match s
    case Nil => p == null
    case Br(l, n, k, r) =>
      p == n && n.value == k && n.parent == par &&
      Mirrors(n.left, l, n) && Mirrors(n.right, r, n)
  }

  // ---------------------------------------------------------------- leftmost node

  /** The subtree rooted at the leftmost node (the node getMostLeft returns). */
  function LeftmostSub(s: Shape): (m: Shape)
    requires s != Nil
    ensures m != Nil && m.left == Nil
  {
    if s.left == Nil then s else LeftmostSub(s.left)
  }

  /** The subtree rooted at the rightmost node (the node getMostRight returns). */
  function RightmostSub(s: Shape): (m: Shape)
    requires s != Nil
    ensures m != Nil && m.right == Nil
  {
    if s.right == Nil then s else RightmostSub(s.right)
  }

  lemma {:induction false} LeftmostIsMin(s: Shape)
    requires s != Nil
    ensures LeftmostSub(s).key == MinKey(Abstract(s))
    ensures LeftmostSub(s).node in NodesOf(s)
    ensures Size(Abstract(LeftmostSub(s))) <= Size(Abstract(s))
  {
    if s.left != Nil {
      LeftmostIsMin(s.left);
    }
  }

  // ---------------------------------------------------------------- contexts

  /** One step of a path: the node passed, its key, and the subtree not taken. */
  datatype Frame = Frame(goesLeft: bool, node: Node, key: int, sibling: Shape)

  function PlugFrame(f: Frame, t: Shape): Shape
  {
    if f.goesLeft then Br(t, f.node, f.key, f.sibling) else Br(f.sibling, f.node, f.key, t)
  }

  /** The tree obtained by putting t into the hole at the bottom of the path ctx. */
  function Plug(ctx: seq<Frame>, t: Shape): Shape
    decreases |ctx|
  {
    if ctx == [] then t else Plug(ctx[..|ctx| - 1], PlugFrame(ctx[|ctx| - 1], t))
  }

  function CtxNodes(ctx: seq<Frame>): set<Node>
    decreases |ctx|
  {
    if ctx == [] then {}
    else CtxNodes(ctx[..|ctx| - 1]) + {ctx[|ctx| - 1].node} + NodesOf(ctx[|ctx| - 1].sibling)
  }

  /** The parent link the node in the hole must have. */
  function HolePar(par: Node?, ctx: seq<Frame>): Node?
  {
    if ctx == [] then par else ctx[|ctx| - 1].node
  }

  /** The child slot that holds the hole, read from the heap. */
  ghost function HolePtr(p: Node?, ctx: seq<Frame>): Node?
    reads if ctx == [] then {} else {ctx[|ctx| - 1].node}
  {
    if ctx == [] then p
    else if ctx[|ctx| - 1].goesLeft then ctx[|ctx| - 1].node.left
    else ctx[|ctx| - 1].node.right
  }

  /** The heap holds the path ctx from p (whose parent is par) down to its hole. */
  ghost predicate CtxMirrors(p: Node?, ctx: seq<Frame>, par: Node?)
    reads CtxNodes(ctx)
    decreases |ctx|
  {
    if ctx == [] then true
    else
      var c, f := ctx[..|ctx| - 1], ctx[|ctx| - 1];
      CtxMirrors(p, c, par) &&
      HolePtr(p, c) == f.node && f.node.value == f.key && f.node.parent == HolePar(par, c) &&
      Mirrors(if f.goesLeft then f.node.right else f.node.left, f.sibling, f.node)
  }

  /** Every object on a path exists in the current heap. */
  lemma {:induction false} CtxNodesAllocated(ctx: seq<Frame>)
    ensures forall n :: n in CtxNodes(ctx) ==> allocated(n)
    decreases |ctx|
  {
    if ctx != [] {
      CtxNodesAllocated(ctx[..|ctx| - 1]);
      NodesAllocated(ctx[|ctx| - 1].sibling);
    }
  }

  /** A tree with a hole is mirrored exactly when the path and the subtree in the hole are. */
  lemma {:induction false} SplitMirrors(p: Node?, ctx: seq<Frame>, t: Shape, par: Node?)
    ensures Mirrors(p, Plug(ctx, t), par) <==>
            CtxMirrors(p, ctx, par) && Mirrors(HolePtr(p, ctx), t, HolePar(par, ctx))
    decreases |ctx|
  {
    if ctx != [] {
      var c, f := ctx[..|ctx| - 1], ctx[|ctx| - 1];
      SplitMirrors(p, c, PlugFrame(f, t), par);
    }
  }

  lemma {:induction false} PlugNodes(ctx: seq<Frame>, t: Shape)
    ensures NodesOf(Plug(ctx, t)) == CtxNodes(ctx) + NodesOf(t)
    decreases |ctx|
  {
    if ctx != [] {
      PlugNodes(ctx[..|ctx| - 1], PlugFrame(ctx[|ctx| - 1], t));
    }
  }

  lemma {:induction false} PlugDistinct(ctx: seq<Frame>, t: Shape)
    requires Distinct(Plug(ctx, t))
    ensures Distinct(t) && CtxNodes(ctx) !! NodesOf(t)
    decreases |ctx|
  {
    if ctx != [] {
      PlugDistinct(ctx[..|ctx| - 1], PlugFrame(ctx[|ctx| - 1], t));
    }
  }

  /** Replacing the subtree in the hole by one made of fewer of the same objects keeps the tree a tree. */
  lemma {:induction false} PlugReplace(ctx: seq<Frame>, t: Shape, t': Shape)
    requires Distinct(Plug(ctx, t)) && Distinct(t') && NodesOf(t') <= NodesOf(t)
    ensures Distinct(Plug(ctx, t'))
    ensures NodesOf(Plug(ctx, t')) <= NodesOf(Plug(ctx, t))
    decreases |ctx|
  {
    if ctx != [] {
      var c, f := ctx[..|ctx| - 1], ctx[|ctx| - 1];
      PlugDistinct(c, PlugFrame(f, t));
      PlugReplace(c, PlugFrame(f, t), PlugFrame(f, t'));
    }
  }

  lemma {:induction false} PlugCons(f: Frame, ctx: seq<Frame>, t: Shape)
    ensures Plug([f] + ctx, t) == PlugFrame(f, Plug(ctx, t))
    decreases |ctx|
  {
    if ctx != [] {
      var c, g := ctx[..|ctx| - 1], ctx[|ctx| - 1];
      assert ([f] + ctx)[..|[f] + ctx| - 1] == [f] + c;
      PlugCons(f, c, PlugFrame(g, t));
    }
  }

  /** The path from the root of s down its left spine to the leftmost node. */
  function LeftSpine(s: Shape): seq<Frame>
    requires s != Nil
  {
    if s.left == Nil then [] else [Frame(true, s.node, s.key, s.right)] + LeftSpine(s.left)
  }

  /**
   * s is its left spine with the leftmost subtree in the hole; putting into the
   * hole anything with the keys of the leftmost node's right subtree gives
   * DeleteMin of s: the successor's node is spliced out.
   */
  lemma {:induction false} LeftSpinePlug(s: Shape, t: Shape)
    requires s != Nil
    ensures Plug(LeftSpine(s), LeftmostSub(s)) == s
    ensures Abstract(t) == Abstract(LeftmostSub(s).right) ==>
              Abstract(Plug(LeftSpine(s), t)) == DeleteMin(Abstract(s))
  {
    if s.left != Nil {
      var f := Frame(true, s.node, s.key, s.right);
      LeftSpinePlug(s.left, t);
      PlugCons(f, LeftSpine(s.left), LeftmostSub(s.left));
      PlugCons(f, LeftSpine(s.left), t);
    }
  }

  lemma {:induction false} PlugSameSize(ctx: seq<Frame>, t: Shape, t': Shape)
    requires Size(Abstract(t)) == Size(Abstract(t'))
    ensures Size(Abstract(Plug(ctx, t))) == Size(Abstract(Plug(ctx, t')))
    decreases |ctx|
  {
    if ctx != [] {
      var c, f := ctx[..|ctx| - 1], ctx[|ctx| - 1];
      PlugSameSize(c, PlugFrame(f, t), PlugFrame(f, t'));
    }
  }

  /** Putting a subtree without a left child at the bottom of a left spine keeps the spine and makes it the leftmost subtree. */
  lemma {:induction false} LeftSpineOfPlug(s: Shape, t: Shape)
    requires s != Nil && t != Nil && t.left == Nil
    ensures Plug(LeftSpine(s), t) != Nil
    ensures LeftSpine(Plug(LeftSpine(s), t)) == LeftSpine(s)
    ensures LeftmostSub(Plug(LeftSpine(s), t)) == t
  {
    PlugNotNil(LeftSpine(s), t);
    if s.left != Nil {
      var f := Frame(true, s.node, s.key, s.right);
      LeftSpineOfPlug(s.left, t);
      PlugCons(f, LeftSpine(s.left), t);
    }
  }

  /** Writing v into the leftmost node, at the bottom of the left spine, overwrites the least key. */
  lemma {:induction false} LeftSpineReplaceMin(s: Shape, n: Node, v: int)
    requires s != Nil
    ensures Abstract(Plug(LeftSpine(s), Br(Nil, n, v, LeftmostSub(s).right))) == ReplaceMin(Abstract(s), v)
  {
    if s.left != Nil {
      var f := Frame(true, s.node, s.key, s.right);
      LeftSpineReplaceMin(s.left, n, v);
      PlugCons(f, LeftSpine(s.left), Br(Nil, n, v, LeftmostSub(s.left).right));
    }
  }

  /**
   * The subtree at a node with a right subtree after the node and its successor
   * (the leftmost node of the right subtree) have exchanged their keys.
   */
  function SwapWithSuccessor(s: Shape): Shape
    requires s != Nil && s.right != Nil
  {
    var lm := LeftmostSub(s.right);
    Br(s.left, s.node, lm.key, Plug(LeftSpine(s.right), Br(Nil, lm.node, s.key, lm.right)))
  }

  /**
   * The exchange keeps the objects and their places; the key moved down is the
   * new least key of the right subtree, at the same node, and at the key level
   * the node takes the least key of its right subtree, which gets the old key
   * instead.
   */
  lemma SwapWithSuccessorFacts(s: Shape)
    requires s != Nil && s.right != Nil && Distinct(s)
    ensures Distinct(SwapWithSuccessor(s)) && NodesOf(SwapWithSuccessor(s)) == NodesOf(s)
    ensures Size(Abstract(SwapWithSuccessor(s))) == Size(Abstract(s))
    ensures SwapWithSuccessor(s).right != Nil
    ensures LeftmostSub(SwapWithSuccessor(s).right).node == LeftmostSub(s.right).node
    ensures LeftmostSub(SwapWithSuccessor(s).right).key == s.key
    ensures Abstract(SwapWithSuccessor(s)) ==
            Branch(Abstract(s.left), MinKey(Abstract(s.right)), ReplaceMin(Abstract(s.right), s.key))
  {
    var R := s.right;
    var spine, lm := LeftSpine(R), LeftmostSub(R);
    var t := Br(Nil, lm.node, s.key, lm.right);
    LeftSpinePlug(R, lm);
    PlugDistinct(spine, lm);
    PlugNodes(spine, lm);
    PlugNodes(spine, t);
    PlugReplace(spine, lm, t);
    PlugSameSize(spine, lm, t);
    LeftSpineOfPlug(R, t);
    LeftSpineReplaceMin(R, lm.node, s.key);
    LeftmostIsMin(R);
  }

  /** The path from a node with a right subtree down to its successor, the leftmost node of that subtree. */
  function SuccessorPath(s: Shape): seq<Frame>
    requires s != Nil && s.right != Nil
  {
    [Frame(false, s.node, s.key, s.left)] + LeftSpine(s.right)
  }

  /**
   * After the exchange the successor, at the bottom of the successor path, holds
   * the key of the node and no left child, and its subtree is smaller.
   */
  lemma SuccessorPathFacts(s: Shape)
    requires s != Nil && s.right != Nil && Distinct(s)
    ensures SwapWithSuccessor(s).right != Nil
    ensures Plug(SuccessorPath(SwapWithSuccessor(s)), LeftmostSub(SwapWithSuccessor(s).right)) == SwapWithSuccessor(s)
    ensures LeftmostSub(SwapWithSuccessor(s).right).node == LeftmostSub(s.right).node
    ensures LeftmostSub(SwapWithSuccessor(s).right).key == s.key
    ensures Size(Abstract(LeftmostSub(SwapWithSuccessor(s).right))) < Size(Abstract(s))
  {
    var s2 := SwapWithSuccessor(s);
    SwapWithSuccessorFacts(s);
    LeftSpinePlug(s2.right, LeftmostSub(s2.right));
    PlugCons(Frame(false, s2.node, s2.key, s2.left), LeftSpine(s2.right), LeftmostSub(s2.right));
    LeftmostIsMin(s2.right);
  }

  /**
   * Deleting the key at the successor after the exchange, and putting the
   * result t back at the bottom of the successor path, deletes the key from
   * the whole subtree, and uses no object from outside it.
   */
  lemma DeleteAtSuccessor(s: Shape, t: Shape)
    requires s != Nil && s.left != Nil && s.right != Nil && Distinct(s)
    ensures SwapWithSuccessor(s).right != Nil
    ensures NodesOf(t) <= NodesOf(LeftmostSub(SwapWithSuccessor(s).right)) ==>
              NodesOf(Plug(SuccessorPath(SwapWithSuccessor(s)), t)) <= NodesOf(s)
    ensures Abstract(t) == Delete(Abstract(LeftmostSub(SwapWithSuccessor(s).right)), s.key) ==>
              Abstract(Plug(SuccessorPath(SwapWithSuccessor(s)), t)) == Delete(Abstract(s), s.key)
  {
    var s2 := SwapWithSuccessor(s);
    SwapWithSuccessorFacts(s);
    var spine, lm := LeftSpine(s2.right), LeftmostSub(s2.right);
    PlugCons(Frame(false, s2.node, s2.key, s2.left), spine, t);
    PlugNodes(spine, t);
    PlugNodes(spine, lm);
    LeftSpinePlug(s2.right, lm);
    TreeSpec.DeleteMinReplaceMin(Abstract(s.right), s.key);
    if Abstract(t) == Delete(Abstract(lm), s.key) {
      assert Abstract(lm) == Branch(Empty, s.key, Abstract(lm.right));
      LeftSpinePlug(s2.right, t);
    }
  }

  /**
   * Deleting the key at the successor after the exchange splices the successor
   * out; put back at the bottom of the successor path, that is ShapeDelete at
   * the node: the node keeps its place with the successor's key.
   */
  lemma SuccessorSplice(s: Shape)
    requires s != Nil && s.left != Nil && s.right != Nil
    ensures SwapWithSuccessor(s).right != Nil
    ensures ShapeDelete(LeftmostSub(SwapWithSuccessor(s).right), s.key) == LeftmostSub(s.right).right
    ensures Plug(SuccessorPath(SwapWithSuccessor(s)), LeftmostSub(s.right).right) == ShapeDelete(s, s.key)
  {
    var lm := LeftmostSub(s.right);
    var s2 := SwapWithSuccessor(s);
    LeftSpineOfPlug(s.right, Br(Nil, lm.node, s.key, lm.right));
    ShapeDeleteMinFacts(s.right);
    PlugCons(Frame(false, s.node, lm.key, s.left), LeftSpine(s.right), lm.right);
  }

  // ---------------------------------------------------------------- insertion in place

  /**
   * Insertion on the linked structure: the descent of TreeSpec.Insert, which
   * keeps every node in its place and hangs the node n, holding v, at the empty
   * slot it reaches. A key already present leaves the shape as it is.
   */
  function ShapeInsert(s: Shape, n: Node, v: int): Shape
  {
    match s
    case Nil => Br(Nil, n, v, Nil)
    case Br(l, m, k, r) =>
      if v < k then Br(ShapeInsert(l, n, v), m, k, r)
      else if v > k then Br(l, m, k, ShapeInsert(r, n, v))
      else s
  }

  /** The path of that descent, from the root down to the slot it stops at. */
  function InsertPath(s: Shape, v: int): seq<Frame>
  {
    match s
    case Nil => []
    case Br(l, m, k, r) =>
      if v < k then [Frame(true, m, k, r)] + InsertPath(l, v)
      else if v > k then [Frame(false, m, k, l)] + InsertPath(r, v)
      else []
  }

  /**
   * ShapeInsert computes TreeSpec.Insert on the keys. For an absent key, s is
   * the insertion path with an empty slot at its bottom, and the result is the
   * same path with the one-node shape of n in that slot; no other node moves.
   */
  lemma {:induction false} ShapeInsertFacts(s: Shape, n: Node, v: int)
    ensures Abstract(ShapeInsert(s, n, v)) == TreeSpec.Insert(Abstract(s), v)
    ensures Contains(Abstract(s), v) ==> ShapeInsert(s, n, v) == s
    ensures !Contains(Abstract(s), v) ==>
              Plug(InsertPath(s, v), Nil) == s &&
              ShapeInsert(s, n, v) == Plug(InsertPath(s, v), Br(Nil, n, v, Nil)) &&
              NodesOf(ShapeInsert(s, n, v)) == NodesOf(s) + {n}
  {
    match s
    case Nil =>
    case Br(l, m, k, r) =>
      if v < k {
        var f := Frame(true, m, k, r);
        ShapeInsertFacts(l, n, v);
        PlugCons(f, InsertPath(l, v), Nil);
        PlugCons(f, InsertPath(l, v), Br(Nil, n, v, Nil));
      } else if v > k {
        var f := Frame(false, m, k, l);
        ShapeInsertFacts(r, n, v);
        PlugCons(f, InsertPath(r, v), Nil);
        PlugCons(f, InsertPath(r, v), Br(Nil, n, v, Nil));
      }
  }

  /**
   * In a heap that mirrors the shape after insertion of an absent key, the new
   * node is a leaf holding v in the child slot at the bottom of the insertion
   * path, and its parent is the node owning that slot (par for an empty tree).
   */
  lemma NewNodeAtSlot(p: Node?, s: Shape, n: Node, v: int, par: Node?)
    requires !Contains(Abstract(s), v)
    requires Mirrors(p, ShapeInsert(s, n, v), par)
    ensures HolePtr(p, InsertPath(s, v)) == n
    ensures n.parent == HolePar(par, InsertPath(s, v))
    ensures n.value == v && n.left == null && n.right == null
  {
    ShapeInsertFacts(s, n, v);
    SplitMirrors(p, InsertPath(s, v), Br(Nil, n, v, Nil), par);
  }

  // ---------------------------------------------------------------- deletion in place

  /** Splices the leftmost node out of s: its right subtree takes its place, and no other node moves. */
  function ShapeDeleteMin(s: Shape): Shape
    requires s != Nil
  {
    if s.left == Nil then s.right else Br(ShapeDeleteMin(s.left), s.node, s.key, s.right)
  }

  /**
   * Deletion on the linked structure: the descent of TreeSpec.Delete. A node
   * holding v with at most one child is replaced by that child (or by nothing);
   * a node holding v with two children stays in its place and takes the least
   * key of its right subtree, whose node, the successor, is spliced out. Every
   * other node keeps its place and its key.
   */
  function ShapeDelete(s: Shape, v: int): Shape
  {
    match s
    case Nil => Nil
    case Br(l, n, k, r) =>
      if v < k then Br(ShapeDelete(l, v), n, k, r)
      else if v > k then Br(l, n, k, ShapeDelete(r, v))
      else if l == Nil && r == Nil then Nil
      else if l == Nil then r
      else if r == Nil then l
      else Br(l, n, LeftmostSub(r).key, ShapeDeleteMin(r))
  }

  /** The node object that deletion of a present v takes out of the tree. */
  function UnlinkedNode(s: Shape, v: int): Node
    requires Contains(Abstract(s), v)
  {
    if v < s.key then UnlinkedNode(s.left, v)
    else if v > s.key then UnlinkedNode(s.right, v)
    else if s.left != Nil && s.right != Nil then LeftmostSub(s.right).node
    else s.node
  }

  /**
   * ShapeDeleteMin computes DeleteMin on the keys and takes out exactly the
   * leftmost node; it is the left spine with the leftmost node's right subtree
   * in the hole.
   */
  lemma {:induction false} ShapeDeleteMinFacts(s: Shape)
    requires s != Nil
    ensures Abstract(ShapeDeleteMin(s)) == DeleteMin(Abstract(s))
    ensures Plug(LeftSpine(s), LeftmostSub(s).right) == ShapeDeleteMin(s)
    ensures NodesOf(ShapeDeleteMin(s)) <= NodesOf(s)
    ensures Distinct(s) ==>
              Distinct(ShapeDeleteMin(s)) &&
              NodesOf(ShapeDeleteMin(s)) == NodesOf(s) - {LeftmostSub(s).node}
  {
    if s.left != Nil {
      var f := Frame(true, s.node, s.key, s.right);
      ShapeDeleteMinFacts(s.left);
      PlugCons(f, LeftSpine(s.left), LeftmostSub(s.left).right);
      LeftmostIsMin(s.left);
    }
  }

  /**
   * ShapeDelete computes TreeSpec.Delete on the keys. An absent key leaves the
   * shape as it is; a present one takes out exactly the node UnlinkedNode
   * names, and only nodes of s remain.
   */
  lemma {:induction false} ShapeDeleteFacts(s: Shape, v: int)
    ensures Abstract(ShapeDelete(s, v)) == TreeSpec.Delete(Abstract(s), v)
    ensures NodesOf(ShapeDelete(s, v)) <= NodesOf(s)
    ensures !Contains(Abstract(s), v) ==> ShapeDelete(s, v) == s
    ensures Distinct(s) ==> Distinct(ShapeDelete(s, v))
    ensures Contains(Abstract(s), v) ==> UnlinkedNode(s, v) in NodesOf(s)
    ensures Distinct(s) && Contains(Abstract(s), v) ==>
              NodesOf(ShapeDelete(s, v)) == NodesOf(s) - {UnlinkedNode(s, v)}
  {
    match s
    case Nil =>
    case Br(l, n, k, r) =>
      if v < k {
        ShapeDeleteFacts(l, v);
      } else if v > k {
        ShapeDeleteFacts(r, v);
      } else if l != Nil && r != Nil {
        ShapeDeleteMinFacts(r);
        LeftmostIsMin(r);
      }
  }

  // ---------------------------------------------------------------- the parent of the hole

  lemma PlugSnoc(ctx: seq<Frame>, f: Frame, t: Shape)
    ensures Plug(ctx + [f], t) == Plug(ctx, PlugFrame(f, t))
  {
    assert (ctx + [f])[..|ctx + [f]| - 1] == ctx;
  }

  /** Below a non-empty path, the root of the whole tree is one of the path's nodes. */
  lemma {:induction false} PlugRootOnPath(ctx: seq<Frame>, t: Shape)
    requires ctx != []
    ensures Plug(ctx, t) != Nil && Plug(ctx, t).node in CtxNodes(ctx)
    decreases |ctx|
  {
    var c, f := ctx[..|ctx| - 1], ctx[|ctx| - 1];
    if c != [] {
      PlugRootOnPath(c, PlugFrame(f, t));
    }
  }

  /**
   * The heap around the hole of a non-empty path from the root: the path splits
   * into the path c above the hole's parent and the parent's frame f. The parent
   * links to the subtree in the hole from the side the path took, and to its
   * sibling subtree from the other; the tree's root lies above the hole.
   */
  lemma HoleParent(top: Node?, ctx: seq<Frame>, t: Shape) returns (c: seq<Frame>, f: Frame)
    requires ctx != [] && Mirrors(top, Plug(ctx, t), null) && Distinct(Plug(ctx, t))
    ensures ctx == c + [f]
    ensures CtxMirrors(top, c, null) && HolePtr(top, c) == f.node
    ensures f.node.value == f.key && f.node.parent == HolePar(null, c)
    ensures Mirrors(if f.goesLeft then f.node.right else f.node.left, f.sibling, f.node)
    ensures Mirrors(if f.goesLeft then f.node.left else f.node.right, t, f.node)
    ensures t != Nil ==> (f.node.left == t.node <==> f.goesLeft)
    ensures Distinct(t) && Distinct(f.sibling)
    ensures f.node !in NodesOf(f.sibling) + NodesOf(t) && NodesOf(f.sibling) !! NodesOf(t)
    ensures CtxNodes(c) !! {f.node} + NodesOf(f.sibling) + NodesOf(t)
    ensures top != null && top !in NodesOf(t)
    ensures NodesOf(Plug(ctx, t)) == CtxNodes(c) + {f.node} + NodesOf(f.sibling) + NodesOf(t)
  {
    c, f := ctx[..|ctx| - 1], ctx[|ctx| - 1];
    assert ctx == c + [f];
    SplitMirrors(top, c, PlugFrame(f, t), null);
    PlugDistinct(c, PlugFrame(f, t));
    PlugNodes(c, PlugFrame(f, t));
    PlugDistinct(ctx, t);
    PlugRootOnPath(ctx, t);
    if f.sibling != Nil {
      assert f.sibling.node in NodesOf(f.sibling);
    }
    if t != Nil {
      assert t.node in NodesOf(t);
    }
  }

  /**
   * The heap around a node with a single child subtree cs, at the bottom of
   * the path ctx from the root top: what unlinking the node relies on. c and f
   * are the path above the node's parent and the parent's frame.
   */
  lemma SingleChildPlace(top: Node?, ctx: seq<Frame>, s: Shape, cs: Shape) returns (c: seq<Frame>, f: Frame)
    requires Mirrors(top, Plug(ctx, s), null) && Distinct(Plug(ctx, s)) && s != Nil && cs != Nil
    requires (s.left == cs && s.right == Nil) || (s.left == Nil && s.right == cs)
    ensures Distinct(Plug(ctx, cs))
    ensures s.node.left == Root(s.left) && s.node.right == Root(s.right)
    ensures cs.node.value == cs.key && cs.node.parent == s.node
    ensures Mirrors(cs.node.left, cs.left, cs.node) && Mirrors(cs.node.right, cs.right, cs.node)
    ensures cs.node !in NodesOf(cs.left) && cs.node !in NodesOf(cs.right)
    ensures ctx == [] ==> top == s.node && s.node.parent == null
    ensures ctx != [] ==>
              c == ctx[..|ctx| - 1] && f == ctx[|ctx| - 1] && s.node.parent == f.node &&
              CtxMirrors(top, c, null) && HolePtr(top, c) == f.node &&
              f.node.value == f.key && f.node.parent == HolePar(null, c) &&
              Mirrors(if f.goesLeft then f.node.right else f.node.left, f.sibling, f.node) &&
              (f.node.left == s.node <==> f.goesLeft) &&
              f.node !in CtxNodes(c) && cs.node !in CtxNodes(c) &&
              f.node !in NodesOf(f.sibling) && cs.node !in NodesOf(f.sibling) &&
              f.node !in NodesOf(cs.left) && f.node !in NodesOf(cs.right) && f.node != cs.node
  {
    PlugDistinct(ctx, s);
    PlugReplace(ctx, s, cs);
    if ctx != [] {
      c, f := HoleParent(top, ctx, s);
    } else {
      c, f := [], Frame(true, s.node, 0, Nil);
      assert Mirrors(s.node, s, null);
    }
  }

  /** The node to unlink has a parent: its context is not empty and the path above it is framed. */
  lemma ChildUnderParent(top: Node?, ctx: seq<Frame>, s: Shape, cs: Shape) returns (c: seq<Frame>, f: Frame)
    requires Mirrors(top, Plug(ctx, s), null) && Distinct(Plug(ctx, s)) && s != Nil && cs != Nil
    requires (s.left == cs && s.right == Nil) || (s.left == Nil && s.right == cs)
    requires s.node.parent != null
    ensures ctx != [] && c == ctx[..|ctx| - 1] && f == ctx[|ctx| - 1]
    ensures Distinct(Plug(ctx, cs))
    ensures s.node.left == Root(s.left) && s.node.right == Root(s.right) && s.node.parent == f.node
    ensures cs.node.value == cs.key && cs.node.parent == s.node
    ensures Mirrors(cs.node.left, cs.left, cs.node) && Mirrors(cs.node.right, cs.right, cs.node)
    ensures CtxMirrors(top, c, null) && HolePtr(top, c) == f.node
    ensures f.node.value == f.key && f.node.parent == HolePar(null, c)
    ensures Mirrors(if f.goesLeft then f.node.right else f.node.left, f.sibling, f.node)
    ensures f.node.left == s.node <==> f.goesLeft
    ensures f.node !in CtxNodes(c) && cs.node !in CtxNodes(c)
    ensures f.node !in NodesOf(f.sibling) && cs.node !in NodesOf(f.sibling)
    ensures f.node !in NodesOf(cs.left) && f.node !in NodesOf(cs.right) && f.node != cs.node
    ensures cs.node !in NodesOf(cs.left) && cs.node !in NodesOf(cs.right)
  {
    c, f := SingleChildPlace(top, ctx, s, cs);
  }

  /** The node to unlink has no parent: it is the root and its context is empty. */
  lemma ChildAtRoot(top: Node?, ctx: seq<Frame>, s: Shape, cs: Shape)
    requires Mirrors(top, Plug(ctx, s), null) && Distinct(Plug(ctx, s)) && s != Nil && cs != Nil
    requires (s.left == cs && s.right == Nil) || (s.left == Nil && s.right == cs)
    requires s.node.parent == null
    ensures ctx == [] && top == s.node && Distinct(cs)
    ensures s.node.left == Root(s.left) && s.node.right == Root(s.right)
    ensures cs.node.value == cs.key && cs.node.parent == s.node
    ensures Mirrors(cs.node.left, cs.left, cs.node) && Mirrors(cs.node.right, cs.right, cs.node)
    ensures cs.node !in NodesOf(cs.left) && cs.node !in NodesOf(cs.right)
  {
    var c, f := SingleChildPlace(top, ctx, s, cs);
    if ctx != [] {
      assert false;
    }
  }

  /**
   * The arguments of Mirrors bundled into one value: a two-state lemma then takes a
   * single argument, whose allocation in the earlier state is checked once.
   */
  datatype Hook = Hook(p: Node?, s: Shape, par: Node?)

  /** Mirroring survives any heap change that leaves the fields of the shape's nodes alone. */
  twostate lemma MirrorsFrame(h: Hook)
    requires old(Mirrors(h.p, h.s, h.par))
    requires forall n :: n in NodesOf(h.s) ==> old(allocated(n)) && unchanged(n)
    ensures Mirrors(h.p, h.s, h.par)
    decreases h.s
  {
    var s := h.s;
    if s != Nil {
      assert s.node in NodesOf(s);
      MirrorsFrame(Hook(old(s.node.left), s.left, s.node));
      MirrorsFrame(Hook(old(s.node.right), s.right, s.node));
    }
  }

  /** The arguments of CtxMirrors bundled into one value, for the same reason. */
  datatype Path = Path(p: Node?, ctx: seq<Frame>, par: Node?)

  /** The same for a path of frames: the path still mirrors and leads to the same hole slot. */
  twostate lemma CtxMirrorsFrame(h: Path)
    requires old(CtxMirrors(h.p, h.ctx, h.par))
    requires forall n :: n in CtxNodes(h.ctx) ==> old(allocated(n)) && unchanged(n)
    ensures CtxMirrors(h.p, h.ctx, h.par) && HolePtr(h.p, h.ctx) == old(HolePtr(h.p, h.ctx))
    decreases |h.ctx|
  {
    var ctx := h.ctx;
    if ctx != [] {
      var c, f := ctx[..|ctx| - 1], ctx[|ctx| - 1];
      assert f.node in CtxNodes(ctx);
      CtxMirrorsFrame(Path(h.p, c, h.par));
      MirrorsFrame(Hook(old(if f.goesLeft then f.node.right else f.node.left), f.sibling, f.node));
    }
  }

  /** The nodes whose fields unlinking s leaves alone: everything but the parent and the child. */
  lemma KeptNodes(ctx: seq<Frame>, s: Shape, c: seq<Frame>, f: Frame, cs: Shape)
    requires ctx != [] && c == ctx[..|ctx| - 1] && f == ctx[|ctx| - 1] && s != Nil && cs != Nil
    requires (s.left == cs && s.right == Nil) || (s.left == Nil && s.right == cs)
    requires f.node !in CtxNodes(c) && cs.node !in CtxNodes(c)
    requires f.node !in NodesOf(f.sibling) && cs.node !in NodesOf(f.sibling)
    requires f.node !in NodesOf(cs.left) && f.node !in NodesOf(cs.right)
    requires cs.node !in NodesOf(cs.left) && cs.node !in NodesOf(cs.right)
    ensures forall n :: n in CtxNodes(c) ==> n in NodesOf(Plug(ctx, s)) && n != f.node && n != cs.node
    ensures forall n :: n in NodesOf(f.sibling) ==> n in NodesOf(Plug(ctx, s)) && n != f.node && n != cs.node
    ensures forall n :: n in NodesOf(cs.left) ==> n in NodesOf(Plug(ctx, s)) && n != f.node && n != cs.node
    ensures forall n :: n in NodesOf(cs.right) ==> n in NodesOf(Plug(ctx, s)) && n != f.node && n != cs.node
  {
    PlugNodes(ctx, s);
    assert NodesOf(cs) <= NodesOf(s);
  }

  /** The arguments of HangInParent bundled into one value, for the same reason. */
  datatype Unlink = Unlink(top: Node?, ctx: seq<Frame>, s: Shape, c: seq<Frame>, f: Frame, cs: Shape)

  /**
   * After the child cs of the one-child node s has been hung into the parent's hole (only
   * the parent's hole slot and the child's parent link changed), the tree mirrors the
   * context with cs plugged in.
   */
  twostate lemma HangInParent(u: Unlink)
    requires u.ctx != [] && u.c == u.ctx[..|u.ctx| - 1] && u.f == u.ctx[|u.ctx| - 1] && u.s != Nil && u.cs != Nil
    requires (u.s.left == u.cs && u.s.right == Nil) || (u.s.left == Nil && u.s.right == u.cs)
    requires u.f.node !in CtxNodes(u.c) && u.cs.node !in CtxNodes(u.c)
    requires u.f.node !in NodesOf(u.f.sibling) && u.cs.node !in NodesOf(u.f.sibling)
    requires u.f.node !in NodesOf(u.cs.left) && u.f.node !in NodesOf(u.cs.right)
    requires u.cs.node !in NodesOf(u.cs.left) && u.cs.node !in NodesOf(u.cs.right)
    requires old(CtxMirrors(u.top, u.c, null))
    requires old(HolePtr(u.top, u.c)) == u.f.node
    requires old(u.f.node.value) == u.f.key
    requires old(u.f.node.parent) == HolePar(null, u.c)
    requires old(Mirrors(if u.f.goesLeft then u.f.node.right else u.f.node.left, u.f.sibling, u.f.node))
    requires old(u.cs.node.value) == u.cs.key
    requires old(Mirrors(u.cs.node.left, u.cs.left, u.cs.node))
    requires old(Mirrors(u.cs.node.right, u.cs.right, u.cs.node))
    requires forall n :: n in NodesOf(Plug(u.ctx, u.s)) && n != u.f.node && n != u.cs.node ==> old(allocated(n)) && unchanged(n)
    requires u.f.node.value == old(u.f.node.value) && u.f.node.parent == old(u.f.node.parent)
    requires if u.f.goesLeft then u.f.node.left == u.cs.node && u.f.node.right == old(u.f.node.right)
             else u.f.node.right == u.cs.node && u.f.node.left == old(u.f.node.left)
    requires u.cs.node.value == old(u.cs.node.value) && u.cs.node.parent == u.f.node
    requires u.cs.node.left == old(u.cs.node.left) && u.cs.node.right == old(u.cs.node.right)
    ensures Mirrors(u.top, Plug(u.ctx, u.cs), null)
  {
    var (top, ctx, s, c, f, cs) := (u.top, u.ctx, u.s, u.c, u.f, u.cs);
    KeptNodes(ctx, s, c, f, cs);
    CtxMirrorsFrame(Path(top, c, null));
    MirrorsFrame(Hook(old(if f.goesLeft then f.node.right else f.node.left), f.sibling, f.node));
    MirrorsFrame(Hook(old(cs.node.left), cs.left, cs.node));
    MirrorsFrame(Hook(old(cs.node.right), cs.right, cs.node));
    assert Mirrors(cs.node, cs, f.node);
    assert Mirrors(f.node, PlugFrame(f, cs), HolePar(null, c));
    SplitMirrors(top, c, PlugFrame(f, cs), null);
  }

  /** Puts the hole's parent, with t in the hole, back under the path above it. */
  lemma Rebuild(top: Node?, ctx: seq<Frame>, t: Shape)
    requires ctx != []
    requires CtxMirrors(top, ctx[..|ctx| - 1], null) && HolePtr(top, ctx[..|ctx| - 1]) == ctx[|ctx| - 1].node
    requires Mirrors(ctx[|ctx| - 1].node, PlugFrame(ctx[|ctx| - 1], t), HolePar(null, ctx[..|ctx| - 1]))
    ensures Mirrors(top, Plug(ctx, t), null)
  {
    SplitMirrors(top, ctx[..|ctx| - 1], PlugFrame(ctx[|ctx| - 1], t), null);
  }

  // ---------------------------------------------------------------- walking up a path

  /** The node of the last frame of ctx that went left: the first ancestor whose left subtree holds the hole. */
  function NearestLeftAncestor(ctx: seq<Frame>): Node?
    decreases |ctx|
  {
    if ctx == [] then null
    else if ctx[|ctx| - 1].goesLeft then ctx[|ctx| - 1].node
    else NearestLeftAncestor(ctx[..|ctx| - 1])
  }

  /** The key at the nearest ancestor whose left subtree holds the hole. */
  function NearestLeftKey(ctx: seq<Frame>): int
    requires NearestLeftAncestor(ctx) != null
    decreases |ctx|
  {
    if ctx[|ctx| - 1].goesLeft then ctx[|ctx| - 1].key else NearestLeftKey(ctx[..|ctx| - 1])
  }

  /** In the heap, that ancestor holds that key. */
  lemma {:induction false} NearestLeftValue(p: Node?, ctx: seq<Frame>, par: Node?)
    requires CtxMirrors(p, ctx, par) && NearestLeftAncestor(ctx) != null
    ensures NearestLeftAncestor(ctx).value == NearestLeftKey(ctx)
    decreases |ctx|
  {
    if !ctx[|ctx| - 1].goesLeft {
      NearestLeftValue(p, ctx[..|ctx| - 1], par);
    }
  }

  /**
   * In an ordered tree, a subtree t found along ctx is ordered, its keys are
   * keys of the whole tree, and every other key of the tree lies below all of
   * t's keys or above all of them.
   */
  lemma {:induction false} PlugKeys(ctx: seq<Frame>, t: Shape)
    requires t != Nil && Ordered(Abstract(Plug(ctx, t)))
    ensures Ordered(Abstract(t))
    ensures Keys(Abstract(t)) <= Keys(Abstract(Plug(ctx, t)))
    ensures forall x :: x in Keys(Abstract(Plug(ctx, t))) ==>
              x in Keys(Abstract(t)) || x < MinKey(Abstract(t)) || MaxKey(Abstract(t)) < x
    decreases |ctx|
  {
    if ctx != [] {
      var c, g := ctx[..|ctx| - 1], ctx[|ctx| - 1];
      var u := PlugFrame(g, t);
      PlugKeys(c, u);
      MinKeyIsLeast(Abstract(t));
      MaxKeyIsGreatest(Abstract(t));
      MinKeyIsLeast(Abstract(u));
      MaxKeyIsGreatest(Abstract(u));
    }
  }

  /** No key of keys exceeds m. */
  ghost predicate NoKeyAbove(keys: set<int>, m: int)
  {
    forall x :: x in keys ==> x <= m
  }

  /** y is the least key of keys above m: the in-order successor of m. */
  ghost predicate IsNextKey(keys: set<int>, m: int, y: int)
  {
    y in keys && m < y && forall x :: x in keys && m < x ==> y <= x
  }

  /**
   * The in-order successor of the greatest key m of a subtree t found along
   * ctx, in an ordered tree: there is none (no key exceeds m) exactly when no
   * ancestor has the hole in its left subtree, and otherwise it is the key of
   * the nearest such ancestor, the least key of the tree above m.
   */
  lemma {:induction false} NearestLeftIsNextKey(ctx: seq<Frame>, t: Shape)
    requires t != Nil && Ordered(Abstract(Plug(ctx, t)))
    ensures NearestLeftAncestor(ctx) == null <==> NoKeyAbove(Keys(Abstract(Plug(ctx, t))), MaxKey(Abstract(t)))
    ensures NearestLeftAncestor(ctx) != null ==>
              IsNextKey(Keys(Abstract(Plug(ctx, t))), MaxKey(Abstract(t)), NearestLeftKey(ctx))
    decreases |ctx|
  {
    if ctx == [] {
      MaxKeyIsGreatest(Abstract(t));
    } else {
      var c, g := ctx[..|ctx| - 1], ctx[|ctx| - 1];
      var u := PlugFrame(g, t);
      assert Plug(ctx, t) == Plug(c, u);
      if g.goesLeft {
        PlugKeys(ctx, t);
        MaxKeyIsGreatest(Abstract(t));
        PlugKeys(c, u);
        MinKeyIsLeast(Abstract(u));
        MaxKeyIsGreatest(Abstract(u));
      } else {
        assert MaxKey(Abstract(u)) == MaxKey(Abstract(t));
        NearestLeftIsNextKey(c, u);
      }
    }
  }

  lemma {:induction false} PlugAppend(c1: seq<Frame>, c2: seq<Frame>, t: Shape)
    ensures Plug(c1 + c2, t) == Plug(c1, Plug(c2, t))
    decreases |c2|
  {
    if c2 == [] {
      assert c1 + c2 == c1;
    } else {
      var c, g := c2[..|c2| - 1], c2[|c2| - 1];
      assert (c1 + c2)[..|c1 + c2| - 1] == c1 + c;
      assert (c1 + c2)[|c1 + c2| - 1] == g;
      PlugAppend(c1, c, PlugFrame(g, t));
    }
  }

  lemma {:induction false} PlugNotNil(ctx: seq<Frame>, t: Shape)
    requires t != Nil
    ensures Plug(ctx, t) != Nil
    decreases |ctx|
  {
    if ctx != [] {
      PlugNotNil(ctx[..|ctx| - 1], PlugFrame(ctx[|ctx| - 1], t));
    }
  }

  /**
   * One step up the path ctx, from the node at depth i to its parent (the node
   * of frame i - 1): the parent's parent link is the one above, and the node is
   * the parent's right child exactly when the path went right there.
   */
  lemma PathStep(top: Node?, ctx: seq<Frame>, t: Shape, i: nat)
    requires Mirrors(top, Plug(ctx, t), null) && Distinct(Plug(ctx, t)) && t != Nil
    requires 0 < i <= |ctx|
    ensures ctx[i - 1].node == HolePtr(top, ctx[..i - 1])
    ensures ctx[i - 1].node.parent == HolePar(null, ctx[..i - 1])
    ensures HolePtr(top, ctx[..i]) != null
    ensures ctx[i - 1].node.right == HolePtr(top, ctx[..i]) <==> !ctx[i - 1].goesLeft
  {
    var above, below := ctx[..i], ctx[i..];
    assert above + below == ctx;
    PlugAppend(above, below, t);
    SplitMirrors(top, above, Plug(below, t), null);
    PlugNotNil(below, t);
    PlugDistinct(above, Plug(below, t));
    assert above[..i - 1] == ctx[..i - 1];
  }
}
