/**
 * The binary search tree (BinarySearchTree.java): a root link into a structure
 * of Node objects that the operations change in place. The ghost field shape
 * records the structure as a value; Valid() says the heap holds it, that it is
 * a tree, and that its keys are in BST order. Every operation is proved to
 * compute the key-level function of module TreeSpec on Abstract(shape).
 */
module Bst {
  import opened Nodes
  import opened Shapes
  import TreeSpec

  datatype Option<T> = None | Some(value: T)

  class BinarySearchTree {
    var root: Node?
    ghost var shape: Shape

    ghost predicate Valid()
      reads this, NodesOf(shape)
    {
      Mirrors(root, shape, null) && Distinct(shape) && TreeSpec.Ordered(Abstract(shape))
    }

    /** The keys stored in the tree. */
    ghost function KeySet(): set<int>
      reads this
    {
      TreeSpec.Keys(Abstract(shape))
    }

    /** An empty tree. */
    constructor ()
      ensures Valid() && shape == Nil && KeySet() == {}
    {
      root := null;
      shape := Nil;
    }

    // ---------------------------------------------------------------- public operations

    /**
     * Adds value. The root stays unless the tree was empty; the shape becomes
     * ShapeInsert of the old one, with the ghost n, a new node, hung at the null
     * slot the descent reaches. A value already present leaves every node as it
     * was, and n is then the node holding it.
     */
    method Insert(value: int) returns (ghost n: Node)
      requires Valid()
      modifies this, NodesOf(shape)
      ensures Valid()
      ensures Abstract(shape) == TreeSpec.Insert(old(Abstract(shape)), value)
      ensures KeySet() == old(KeySet()) + {value}
      ensures shape == ShapeInsert(old(shape), n, value)
      ensures old(root) != null ==> root == old(root)
      ensures old(NodesOf(shape)) <= NodesOf(shape) && fresh(NodesOf(shape) - old(NodesOf(shape)))
      ensures value !in old(KeySet()) ==> fresh(n)
      ensures value !in old(KeySet()) ==>
                n.value == value && n.left == null && n.right == null &&
                n.parent == HolePar(null, InsertPath(old(shape), value)) &&
                HolePtr(root, InsertPath(old(shape), value)) == n
      ensures n.value == value
      ensures value in old(KeySet()) ==>
                root == old(root) && shape == old(shape) && n in NodesOf(shape)
    {
      ghost var s;
      TreeSpec.ContainsIffKey(Abstract(shape), value);
      TreeSpec.InsertKeys(Abstract(shape), value);
      TreeSpec.InsertOrdered(Abstract(shape), value);
      root, n, s := InsertHelper(value, root, null, shape);
      if value !in old(KeySet()) {
        NewNodeAtSlot(root, old(shape), n, value, null);
      }
      shape := s;
    }

    /**
     * Removes value. The shape becomes ShapeDelete of the old one: exactly one
     * node, UnlinkedNode, leaves the tree and every other keeps its place. The
     * root stays when it does not hold value; a value not present leaves every
     * node as it was.
     */
    method Delete(value: int)
      requires Valid()
      modifies this, NodesOf(shape)
      ensures Valid()
      ensures Abstract(shape) == TreeSpec.Delete(old(Abstract(shape)), value)
      ensures KeySet() == old(KeySet()) - {value}
      ensures NodesOf(shape) <= old(NodesOf(shape))
      ensures old(root) != null && old(root.value) != value ==> root == old(root)
      ensures value !in old(KeySet()) ==>
                root == old(root) && shape == old(shape)
      ensures shape == ShapeDelete(old(shape), value)
      ensures TreeSpec.Contains(old(Abstract(shape)), value) ==>
                NodesOf(shape) == old(NodesOf(shape)) - {UnlinkedNode(old(shape), value)}
    {
      TreeSpec.DeleteKeys(Abstract(shape), value);
      TreeSpec.ContainsIffKey(Abstract(shape), value);
      ShapeDeleteFacts(shape, value);
      TreeSpec.DeleteOrdered(Abstract(shape), value);
      ghost var s := DeleteHelper(value, root, [], shape);
      shape := s;
    }

    /** Whether value is stored: exactly when findByValue finds a node. */
    function Contain(value: int): (b: bool)
      reads this, NodesOf(shape)
      requires Valid()
      ensures b <==> value in KeySet()
    {
      FindByValue(value) != null
    }

    function Empty(): (b: bool)
      reads this, NodesOf(shape)
      requires Valid()
      ensures b <==> KeySet() == {}
    {
      assert shape != Nil ==> shape.key in KeySet();
      root == null
    }

    /** The greatest key, or None on an empty tree. */
    method Max() returns (r: Option<int>)
      requires Valid()
      ensures Valid()
      ensures r.None? <==> KeySet() == {}
      ensures r.Some? ==> r.value in KeySet() && forall k :: k in KeySet() ==> k <= r.value
    {
      NodesAllocated(shape);
      var mostRight := GetMostRight(root, shape, null);
      if mostRight != null {
        TreeSpec.MaxKeyIsGreatest(Abstract(shape));
        return Some(mostRight.GetValue());
      }
      return None;
    }

    /** The least key, or None on an empty tree. */
    method Min() returns (r: Option<int>)
      requires Valid()
      ensures Valid()
      ensures r.None? <==> KeySet() == {}
      ensures r.Some? ==> r.value in KeySet() && forall k :: k in KeySet() ==> r.value <= k
    {
      NodesAllocated(shape);
      var mostLeft := GetMostLeft(root, shape, null);
      if mostLeft != null {
        TreeSpec.MinKeyIsLeast(Abstract(shape));
        return Some(mostLeft.GetValue());
      }
      return None;
    }

    /** Number of layers: 0 for the empty tree, otherwise at least 1 and at most the number of nodes. */
    function Height(): (h: int)
      reads this, NodesOf(shape)
      requires Valid()
      ensures h == TreeSpec.Height(Abstract(shape))
      ensures h == 0 <==> root == null
      ensures h <= TreeSpec.Size(Abstract(shape))
    {
      TreeSpec.HeightAtMostSize(Abstract(shape));
      HeightHelper(root, shape, null)
    }

    /** The node holding value, or null when value is not stored. */
    function FindByValue(value: int): (r: Node?)
      reads this, NodesOf(shape)
      requires Valid()
      ensures r != null ==> r in NodesOf(shape) && r.value == value
      ensures r != null <==> value in KeySet()
    {
      TreeSpec.ContainsIffKey(Abstract(shape), value);
      FindByValueHelper(value, root, shape, null)
    }

    // ---------------------------------------------------------------- recursive helpers

    /**
     * Inserts value into the subtree at node, whose parent is parent, and returns
     * the subtree's root, which stays node unless the subtree was empty. The
     * ghost n is the node that holds value afterwards: a new node hung at the
     * null slot the descent reaches, its parent the node owning that slot, or
     * the node that already held value.
     */
    method InsertHelper(value: int, node: Node?, parent: Node?, ghost s: Shape)
      returns (r: Node, ghost n: Node, ghost s': Shape)
      requires Mirrors(node, s, parent) && Distinct(s)
      modifies NodesOf(s)
      ensures Mirrors(r, s', parent) && Distinct(s')
      ensures s' == ShapeInsert(s, n, value)
      ensures Abstract(s') == TreeSpec.Insert(Abstract(s), value)
      ensures node != null ==> r == node
      ensures NodesOf(s) <= NodesOf(s') && fresh(NodesOf(s') - NodesOf(s))
      ensures !TreeSpec.Contains(Abstract(s), value) ==> fresh(n)
      ensures n.value == value
      ensures TreeSpec.Contains(Abstract(s), value) ==> n in NodesOf(s) && s' == s
      decreases s
    {
      NodesAllocated(s);
      if node == null {
        r := new Node(value, parent);
        n := r;
        s' := Br(Nil, r, value, Nil);
        return;
      }
      s' := s;
      n := node;
      if value < node.GetValue() {
        var child;
        ghost var l';
        child, n, l' := InsertHelper(value, node.GetLeft(), node, s.left);
        NodesAllocated(l');
        node.SetLeft(child);
        s' := Br(l', node, s.key, s.right);
      }
      if value > node.GetValue() {
        var child;
        ghost var r';
        child, n, r' := InsertHelper(value, node.GetRight(), node, s.right);
        NodesAllocated(r');
        node.SetRight(child);
        s' := Br(s.left, node, s.key, r');
      }
      r := node;
    }

    /**
     * Deletes value from the subtree s at node, which hangs at the bottom of the
     * path ctx from root. The rest of the tree stays as it was around the new
     * subtree, ShapeDelete of the old one, which is made of its own nodes.
     */
    method DeleteHelper(value: int, node: Node?, ghost ctx: seq<Frame>, ghost s: Shape)
      returns (ghost s': Shape)
      requires Mirrors(root, Plug(ctx, s), null) && Distinct(Plug(ctx, s)) && node == Root(s)
      modifies this`root, NodesOf(Plug(ctx, s))
      ensures Mirrors(root, Plug(ctx, s'), null) && Distinct(Plug(ctx, s'))
      ensures NodesOf(s') <= NodesOf(s)
      ensures Abstract(s') == TreeSpec.Delete(Abstract(s), value)
      ensures s' == ShapeDelete(s, value)
      ensures value !in TreeSpec.Keys(Abstract(s)) ==> s' == s && root == old(root)
      ensures s != Nil && value != s.key ==> s' != Nil && s'.node == s.node
      decreases TreeSpec.Size(Abstract(s)), 1
    {
      SplitMirrors(root, ctx, s, null);
      PlugDistinct(ctx, s);
      PlugNodes(ctx, s);
      s' := s;
      // the value is not in the tree
      if node == null {
        return;
      }
      // the value can be in the left subtree
      if value < node.GetValue() {
        ghost var f := Frame(true, node, s.key, s.right);
        PlugSnoc(ctx, f, s.left);
        ghost var l' := DeleteHelper(value, node.GetLeft(), ctx + [f], s.left);
        PlugSnoc(ctx, f, l');
        s' := Br(l', node, s.key, s.right);
        return;
      }
      // the value can be in the right subtree
      if value > node.GetValue() {
        ghost var f := Frame(false, node, s.key, s.left);
        PlugSnoc(ctx, f, s.right);
        ghost var r' := DeleteHelper(value, node.GetRight(), ctx + [f], s.right);
        PlugSnoc(ctx, f, r');
        s' := Br(s.left, node, s.key, r');
        return;
      }
      // node holds value and has no children
      if node.GetLeft() == null && node.GetRight() == null {
        DeleteLeaf(node, ctx, s);
        s' := Nil;
        return;
      }
      // node has only a right child
      if node.GetLeft() == null {
        DeleteNodeWithRightDescendant(node, ctx, s);
        s' := s.right;
        return;
      }
      // node has only a left child
      if node.GetRight() == null {
        DeleteNodeWithLeftDescendant(node, ctx, s);
        s' := s.left;
        return;
      }
      // node has two children: swap its value with its successor's and delete there
      s' := DeleteWithTwoChildren(value, node, ctx, s);
    }

    /**
     * The last case of deleteHelper: node holds value and has two children. Its
     * successor (the leftmost node of its right subtree) gives node its value and
     * takes value, and the search then deletes value at the successor, which has
     * no left child. node stays where it is.
     */
    method DeleteWithTwoChildren(value: int, node: Node, ghost ctx: seq<Frame>, ghost s: Shape)
      returns (ghost s': Shape)
      requires Mirrors(root, Plug(ctx, s), null) && Distinct(Plug(ctx, s)) && node == Root(s)
      requires s.key == value && s.left != Nil && s.right != Nil
      modifies this`root, NodesOf(Plug(ctx, s))
      ensures Mirrors(root, Plug(ctx, s'), null) && Distinct(Plug(ctx, s'))
      ensures NodesOf(s') <= NodesOf(s)
      ensures Abstract(s') == TreeSpec.Delete(Abstract(s), value)
      ensures s' == ShapeDelete(s, value)
      decreases TreeSpec.Size(Abstract(s)), 0
    {
      ghost var par := HolePar(null, ctx);
      PlugNodes(ctx, s);
      CtxNodesAllocated(ctx);
      NodesAllocated(s);
      assert Mirrors(node, s, par) && Distinct(s) && CtxMirrors(root, ctx, null) && HolePtr(root, ctx) == node &&
             CtxNodes(ctx) !! NodesOf(s) by {
        SplitMirrors(root, ctx, s, null);
        PlugDistinct(ctx, s);
      }
      assert node.right != null && LeftmostSub(s.right).node in NodesOf(s) by {
        assert Mirrors(node.right, s.right, node);
        LeftmostIsMin(s.right);
      }
      ghost var s2 := SwapWithSuccessor(s);
      s' := s;
      var successor := Successor(node, s, par, null, []);
      if successor != null {
        assert node !in CtxNodes(ctx) && successor !in CtxNodes(ctx);
        var tmpValue := ExchangeWithSuccessor(node, successor, par, s);
        assert CtxMirrors(root, ctx, null) && HolePtr(root, ctx) == node;
        assert Mirrors(root, Plug(ctx, s2), null) && Distinct(Plug(ctx, s2)) &&
               NodesOf(Plug(ctx, s2)) <= NodesOf(Plug(ctx, s)) by {
          SplitMirrors(root, ctx, s2, null);
          SwapWithSuccessorFacts(s);
          PlugReplace(ctx, s, s2);
        }
        SuccessorPathFacts(s);
        ghost var lm := LeftmostSub(s2.right);
        PlugAppend(ctx, SuccessorPath(s2), lm);
        ghost var lm' := DeleteHelper(value, successor, ctx + SuccessorPath(s2), lm);
        PlugAppend(ctx, SuccessorPath(s2), lm');
        DeleteAtSuccessor(s, lm');
        SuccessorSplice(s);
        s' := Plug(SuccessorPath(s2), lm');
      } else {
        assert false;
      }
    }

    /**
     * The successor gives its value to node and takes node's: the heap then
     * holds the same objects in the same places, with the two keys exchanged.
     * Returns the value node received.
     */
    method ExchangeWithSuccessor(node: Node, successor: Node, ghost par: Node?, ghost s: Shape)
      returns (tmpValue: int)
      requires Mirrors(node, s, par) && Distinct(s) && s.right != Nil
      requires successor == LeftmostSub(s.right).node
      modifies node`value, successor`value
      ensures Mirrors(node, SwapWithSuccessor(s), par)
      ensures tmpValue == old(successor.value) == node.value && successor.value == old(node.value)
    {
      NodesAllocated(s.left);
      NodesAllocated(s.right);
      ghost var spine, lm := LeftSpine(s.right), LeftmostSub(s.right);
      ghost var sp := HolePar(node, spine);
      assert CtxMirrors(node.right, spine, node) && HolePtr(node.right, spine) == lm.node &&
             Mirrors(lm.node, lm, sp) && Distinct(lm) && lm.node in NodesOf(lm) &&
             NodesOf(s.right) == CtxNodes(spine) + NodesOf(lm) &&
             CtxNodes(spine) !! NodesOf(lm) && node !in CtxNodes(spine) + NodesOf(lm) &&
             NodesOf(s.left) !! CtxNodes(spine) + NodesOf(lm) by {
        LeftSpinePlug(s.right, lm);
        SplitMirrors(node.right, spine, lm, node);
        PlugDistinct(spine, lm);
        PlugNodes(spine, lm);
      }
      tmpValue := successor.GetValue();
      successor.SetValue(node.GetValue());
      node.SetValue(tmpValue);
      assert Mirrors(node.left, s.left, node);
      assert Mirrors(successor, Br(Nil, successor, s.key, lm.right), sp);
      assert CtxMirrors(node.right, spine, node);
      SplitMirrors(node.right, spine, Br(Nil, successor, s.key, lm.right), node);
    }

    /** The successor of node: the leftmost node of its right subtree or, lacking one, the nearest ancestor reached from a left child. */
    method Successor(node: Node?, ghost s: Shape, ghost par: Node?, ghost top: Node?, ghost ctx: seq<Frame>)
      returns (r: Node?)
      requires Mirrors(node, s, par) && Distinct(s)
      requires node != null && node.right == null ==>
                 CtxMirrors(top, ctx, null) && HolePtr(top, ctx) == node && HolePar(null, ctx) == par &&
                 Distinct(Plug(ctx, s))
      ensures node == null ==> r == null
      ensures node != null && s.right != Nil ==> r == LeftmostSub(s.right).node && r.left == null
      ensures node != null && s.right != Nil ==> r.value == TreeSpec.MinKey(Abstract(s.right))
      ensures node != null && s.right == Nil ==> r == NearestLeftAncestor(ctx)
      ensures node != null && s.right == Nil && TreeSpec.Ordered(Abstract(Plug(ctx, s))) ==>
                (r == null <==> NoKeyAbove(TreeSpec.Keys(Abstract(Plug(ctx, s))), s.key)) &&
                (r != null ==> IsNextKey(TreeSpec.Keys(Abstract(Plug(ctx, s))), s.key, r.value))
    {
      if node == null {
        return null;
      }
      if node.GetRight() != null {
        r := GetMostLeft(node.GetRight(), s.right, node);
        return;
      }
      if NearestLeftAncestor(ctx) != null {
        NearestLeftValue(top, ctx, null);
      }
      if TreeSpec.Ordered(Abstract(Plug(ctx, s))) {
        NearestLeftIsNextKey(ctx, s);
      }
      SplitMirrors(top, ctx, s, null);
      NodesAllocated(Plug(ctx, s));
      var parent := node.GetParent();
      var next := node;
      ghost var i := |ctx|;
      assert ctx[..i] == ctx;
      while parent != null && parent.GetRight() == next
        invariant 0 <= i <= |ctx|
        invariant next == HolePtr(top, ctx[..i]) && parent == HolePar(null, ctx[..i])
        invariant NearestLeftAncestor(ctx[..i]) == NearestLeftAncestor(ctx)
        decreases i
      {
        PathStep(top, ctx, s, i);
        assert ctx[..i][..i - 1] == ctx[..i - 1];
        next := parent;
        parent := parent.GetParent();
        i := i - 1;
      }
      if parent != null {
        PathStep(top, ctx, s, i);
        assert ctx[..i][..i - 1] == ctx[..i - 1];
      }
      r := parent;
    }

    /** The leftmost node of the subtree at node: the node with its least key. */
    method GetMostLeft(node: Node?, ghost s: Shape, ghost par: Node?) returns (r: Node?)
      requires Mirrors(node, s, par)
      ensures r == (if s == Nil then null else LeftmostSub(s).node)
      ensures r != null ==> r.left == null && r.value == TreeSpec.MinKey(Abstract(s))
    {
      if node == null {
        return null;
      }
      var left := node;
      ghost var t, tp := s, par;
      while true
        invariant t != Nil && Mirrors(left, t, tp)
        invariant LeftmostSub(t) == LeftmostSub(s)
        invariant TreeSpec.MinKey(Abstract(t)) == TreeSpec.MinKey(Abstract(s))
        decreases t
      {
        if left.GetLeft() == null {
          return left;
        }
        t, tp := t.left, left;
        left := left.GetLeft();
      }
    }

    /** The rightmost node of the subtree at node: the node with its greatest key. */
    method GetMostRight(node: Node?, ghost s: Shape, ghost par: Node?) returns (r: Node?)
      requires Mirrors(node, s, par)
      ensures r == (if s == Nil then null else RightmostSub(s).node)
      ensures r != null ==> r.right == null && r.value == TreeSpec.MaxKey(Abstract(s))
    {
      if node == null {
        return null;
      }
      var right := node;
      ghost var t, tp := s, par;
      while true
        invariant t != Nil && Mirrors(right, t, tp)
        invariant RightmostSub(t) == RightmostSub(s)
        invariant TreeSpec.MaxKey(Abstract(t)) == TreeSpec.MaxKey(Abstract(s))
        decreases t
      {
        if right.GetRight() == null {
          return right;
        }
        t, tp := t.right, right;
        right := right.GetRight();
      }
    }

    /** Height of the subtree at node, recursively over both children. */
    function HeightHelper(node: Node?, ghost s: Shape, ghost par: Node?): (h: int)
      reads NodesOf(s)
      requires Mirrors(node, s, par)
      ensures h == TreeSpec.Height(Abstract(s))
      decreases s
    {
      if node == null then 0
      else
        var leftHeight := HeightHelper(node.GetLeft(), s.left, node);
        var rightHeight := HeightHelper(node.GetRight(), s.right, node);
        if leftHeight > rightHeight then leftHeight + 1 else rightHeight + 1
    }

    /** The node of the subtree at node that the search for value reaches, or null. */
    function FindByValueHelper(value: int, node: Node?, ghost s: Shape, ghost par: Node?): (r: Node?)
      reads NodesOf(s)
      requires Mirrors(node, s, par)
      ensures r != null ==> r in NodesOf(s) && r.value == value
      ensures r != null <==> TreeSpec.Contains(Abstract(s), value)
      decreases s
    {
      if node == null then null
      else if value < node.GetValue() then FindByValueHelper(value, node.GetLeft(), s.left, node)
      else if value > node.GetValue() then FindByValueHelper(value, node.GetRight(), s.right, node)
      else node
    }

    // ---------------------------------------------------------------- unlinking one node

    /**
     * Unlinks a childless node: clears the parent's slot that held it, or root.
     * node is the subtree s at the bottom of the path ctx from root, and the
     * tree afterwards has an empty hole there.
     */
    method DeleteLeaf(node: Node?, ghost ctx: seq<Frame>, ghost s: Shape)
      requires Mirrors(root, Plug(ctx, s), null) && Distinct(Plug(ctx, s)) && node == Root(s)
      requires node != null ==> s.left == Nil && s.right == Nil
      modifies this`root, if node == null then {} else {node.parent}
      ensures Mirrors(root, Plug(ctx, Nil), null) && Distinct(Plug(ctx, Nil))
      ensures node == null ==> root == old(root)
      ensures node != null ==> root == if old(root) == node then null else old(root)
      ensures node != null && old(node.parent) != null ==>
                var p := old(node.parent);
                p.value == old(p.value) && p.parent == old(p.parent) &&
                if old(p.left) == node then p.left == null && p.right == old(p.right)
                else p.right == null && p.left == old(p.left)
    {
      ghost var c, f;
      if ctx != [] {
        c, f := HoleParent(root, ctx, s);
        NodesAllocated(Plug(ctx, s));
      }
      PlugReplace(ctx, s, Nil);
      if node == null {
        return;
      }
      var parent := node.GetParent();
      if parent != null {
        if parent.GetLeft() == node {
          parent.SetLeft(null);
        } else {
          parent.SetRight(null);
        }
      }
      if root == node {
        root := null;
      }
      if ctx != [] {
        Rebuild(root, ctx, Nil);
      }
    }

    /**
     * Unlinks a node whose only child is on the left: the child takes its place
     * under the parent, or becomes root. The tree afterwards has the child's
     * subtree at the bottom of ctx.
     */
    method DeleteNodeWithLeftDescendant(node: Node?, ghost ctx: seq<Frame>, ghost s: Shape)
      requires Mirrors(root, Plug(ctx, s), null) && Distinct(Plug(ctx, s)) && node == Root(s)
      requires node != null ==> s.left != Nil && s.right == Nil
      modifies this`root, if node == null then {} else {node.left, node.parent}
      ensures node != null ==> Mirrors(root, Plug(ctx, s.left), null) && Distinct(Plug(ctx, s.left))
      ensures node == null ==> root == old(root)
      ensures node != null ==>
                var p, c := old(node.parent), old(node.left);
                c != null && c.parent == p && c.value == old(c.value) && c.left == old(c.left) && c.right == old(c.right) &&
                (p == null ==> root == c) &&
                (p != null ==>
                   root == old(root) && p.value == old(p.value) && p.parent == old(p.parent) &&
                   if old(p.left) == node then p.left == c && p.right == old(p.right)
                   else p.right == c && p.left == old(p.left))
    {
      if node == null {
        return;
      }
      ghost var cs := s.left;
      var parent := node.GetParent();
      var left := node.GetLeft();
      if parent != null {
        ghost var c, f := ChildUnderParent(root, ctx, s, cs);
        NodesAllocated(Plug(ctx, s));
        if parent.GetLeft() == node {
          parent.SetLeft(left);
        } else {
          parent.SetRight(left);
        }
        left.SetParent(parent);
        // the path above the parent is untouched; the child hangs in the hole
        HangInParent(Unlink(root, ctx, s, c, f, cs));
      } else {
        ChildAtRoot(root, ctx, s, cs);
        NodesAllocated(cs.left);
        NodesAllocated(cs.right);
        root := left;
        root.SetParent(null);
      }
    }

    method DeleteNodeWithRightDescendant(node: Node?, ghost ctx: seq<Frame>, ghost s: Shape)
      requires Mirrors(root, Plug(ctx, s), null) && Distinct(Plug(ctx, s)) && node == Root(s)
      requires node != null ==> s.left == Nil && s.right != Nil
      modifies this`root, if node == null then {} else {node.right, node.parent}
      ensures node != null ==> Mirrors(root, Plug(ctx, s.right), null) && Distinct(Plug(ctx, s.right))
      ensures node == null ==> root == old(root)
      ensures node != null ==>
                var p, c := old(node.parent), old(node.right);
                c != null && c.parent == p && c.value == old(c.value) && c.left == old(c.left) && c.right == old(c.right) &&
                (p == null ==> root == c) &&
                (p != null ==>
                   root == old(root) && p.value == old(p.value) && p.parent == old(p.parent) &&
                   if old(p.left) == node then p.left == c && p.right == old(p.right)
                   else p.right == c && p.left == old(p.left))
    {
      if node == null {
        return;
      }
      ghost var cs := s.right;
      var parent := node.GetParent();
      var right := node.GetRight();
      if parent != null {
        ghost var c, f := ChildUnderParent(root, ctx, s, cs);
        NodesAllocated(Plug(ctx, s));
        if parent.GetLeft() == node {
          parent.SetLeft(right);
        } else {
          parent.SetRight(right);
        }
        right.SetParent(parent);
        // the path above the parent is untouched; the child hangs in the hole
        HangInParent(Unlink(root, ctx, s, c, f, cs));
      } else {
        ChildAtRoot(root, ctx, s, cs);
        NodesAllocated(cs.left);
        NodesAllocated(cs.right);
        root := right;
        root.SetParent(null);
      }
    }
  }
}
