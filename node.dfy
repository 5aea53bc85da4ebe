/** A node of the singly linked list: a value and an optional link to the next
    node. A list is the chain of `next` links from its first node, ending at the
    first node whose `next` is absent. */
module Nodes {

  class Node {
    var val: int
    var next: Node?

    /** `new Node()` holds 0 and no successor; `new Node(v, n)` holds exactly `v`
        and `n`. Construction allocates a new node and changes no existing one,
        the node passed as `next` included. */
    constructor (val: int := 0, next: Node? := null)
      ensures this.val == val && this.next == next
    {
      this.val := val;
      this.next := next;
    }
  }
}
