/** The element of the map's ring: a key, its value and the links to its neighbours. */
module Nodes {

  class Node<K(0), V(0)> {
    const key: K
    var value: V
    var next: Node?<K, V>
    var prev: Node?<K, V>

    /** A node with the given key, value and links. */
    constructor (key: K, value: V, next: Node?<K, V>, prev: Node?<K, V>)
      ensures this.key == key && this.value == value
      ensures this.next == next && this.prev == prev
    {
      this.key := key;
      this.value := value;
      this.next := next;
      this.prev := prev;
    }

    /** The sentinel: no key, no value, no links yet. */
    constructor Blank()
      ensures next == null && prev == null
    {
      next := null;
      prev := null;
    }
  }

  /** The (key, value) pairs held by a sequence of nodes, in the same order. */
  ghost function Pairs<K(0), V(0)>(ns: seq<Node<K, V>>): (ps: seq<(K, V)>)
    reads ns`value
    ensures |ps| == |ns|
    ensures forall i :: 0 <= i < |ns| ==> ps[i] == (ns[i].key, ns[i].value)
  {
    if ns == [] then [] else Pairs(ns[..|ns| - 1]) + [(ns[|ns| - 1].key, ns[|ns| - 1].value)]
  }
}
