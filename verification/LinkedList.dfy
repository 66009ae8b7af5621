/** Singly linked lists as the kernel builds them, node by node at the end. */
module LinkedList {

  class Node<T> {
    const value: T
    var next: Node?<T>

    constructor (v: T)
      ensures value == v && next == null
    {
      value := v;
      next := null;
    }
  }

  /** The list that starts at root runs through exactly these nodes. */
  ghost predicate Chain<T>(root: Node?<T>, nodes: seq<Node<T>>)
    reads nodes
  {
    && root == (if nodes == [] then null else nodes[0])
    && (forall i, j :: 0 <= i < j < |nodes| ==> nodes[i] != nodes[j])
    && (forall i {:trigger nodes[i].next} :: 0 <= i < |nodes| ==>
          nodes[i].next == if i + 1 < |nodes| then nodes[i + 1] else null)
  }

  /** The values in the nodes, in order. */
  ghost function Values<T>(nodes: seq<Node<T>>): (r: seq<T>)
    ensures |r| == |nodes| && forall i :: 0 <= i < |r| ==> r[i] == nodes[i].value
  {
    seq(|nodes|, i requires 0 <= i < |nodes| => nodes[i].value)
  }

  /** Allocates the next node and links it behind the last one. */
  method Append<T>(root: Node<T>, ghost nodes: seq<Node<T>>, last: Node<T>, v: T) returns (n: Node<T>)
    requires nodes != [] && Chain(root, nodes) && last == nodes[|nodes| - 1]
    modifies last
    ensures fresh(n) && n.value == v && Chain(root, nodes + [n])
  {
    n := new Node(v);
    last.next := n;
    ChainGrows(root, nodes, n);
  }

  lemma ChainGrows<T>(root: Node?<T>, nodes: seq<Node<T>>, n: Node<T>)
    requires nodes != [] && root == nodes[0] && n !in nodes && n.next == null
    requires forall i, j :: 0 <= i < j < |nodes| ==> nodes[i] != nodes[j]
    requires forall i {:trigger nodes[i].next} :: 0 <= i < |nodes| ==> nodes[i].next == if i + 1 < |nodes| then nodes[i + 1] else n
    ensures Chain(root, nodes + [n])
  {
    var all := nodes + [n];
    forall i {:trigger all[i].next} | 0 <= i < |all|
      ensures all[i].next == if i + 1 < |all| then all[i + 1] else null
    {
      if i < |nodes| {
        assert all[i] == nodes[i];
      }
    }
  }

  lemma ListOfOne<T>(root: Node<T>, all: seq<T>)
    requires root.next == null && all != [] && root.value == all[0]
    ensures Chain(root, [root]) && Values([root]) == all[..1]
  {
  }

  lemma ValuesGrow<T>(nodes: seq<Node<T>>, n: Node<T>, all: seq<T>)
    requires |nodes| < |all| && Values(nodes) == all[..|nodes|] && n.value == all[|nodes|]
    ensures Values(nodes + [n]) == all[..|nodes| + 1]
  {
  }
}
