/** The elements of the lists of utlist.h. */
module Nodes {
  /** A list element; what it carries never changes. */
  class Node<T> {
    const item: T
    var next: Node?<T>
    var prev: Node?<T>

    constructor (item: T)
      ensures this.item == item
    {
      this.item := item;
      next, prev := null, null;
    }
  }
}
