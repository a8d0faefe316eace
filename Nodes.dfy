/**
 * A tree node (Node.java): a key with links to the left and right subtrees and a
 * back-link to the parent. All four fields are updated in place through setters.
 */
module Nodes {

  class Node {
    var value: int
    var left: Node?
    var right: Node?
    var parent: Node?

    /** A detached node: no children, the given value and parent. */
    constructor (value: int, parent: Node?)
      ensures this.value == value && this.parent == parent
      ensures left == null && right == null
    {
      this.value := value;
      this.parent := parent;
      this.left := null;
      this.right := null;
    }

    // Each getter reads exactly one field and has no effect.

    function GetValue(): (v: int)
      reads this`value
      ensures v == value
    {
      value
    }

    function GetLeft(): (l: Node?)
      reads this`left
      ensures l == left
    {
      left
    }

    function GetRight(): (r: Node?)
      reads this`right
      ensures r == right
    {
      right
    }

    function GetParent(): (p: Node?)
      reads this`parent
      ensures p == parent
    {
      parent
    }

    // Each setter may change exactly one field; its frame keeps the other three.

    method SetValue(value: int)
      modifies this`value
      ensures this.value == value
      ensures left == old(left) && right == old(right) && parent == old(parent)
    {
      this.value := value;
    }

    method SetLeft(left: Node?)
      modifies this`left
      ensures this.left == left
      ensures value == old(value) && right == old(right) && parent == old(parent)
    {
      this.left := left;
    }

    method SetRight(right: Node?)
      modifies this`right
      ensures this.right == right
      ensures value == old(value) && left == old(left) && parent == old(parent)
    {
      this.right := right;
    }

    method SetParent(parent: Node?)
      modifies this`parent
      ensures this.parent == parent
      ensures value == old(value) && left == old(left) && right == old(right)
    {
      this.parent := parent;
    }
  }
}
