/** The shell's command history: a queue of linked nodes with a front and a rear pointer. */
module ShellHistory {

  class Node {
    var data: string
    var next: Node?

    constructor (data: string)
      ensures this.data == data && next == null
    {
      this.data, this.next := data, null;
    }
  }

  class Queue {
    var front: Node?
    var rear: Node?
    ghost var nodes: seq<Node>

    /** The nodes reached from the front by `next`, ending at the rear. */
    ghost predicate Valid()
      reads this, nodes
    {
      && (forall i, j :: 0 <= i < j < |nodes| ==> nodes[i] != nodes[j])
      && (forall i {:trigger nodes[i].next} :: 0 <= i < |nodes| - 1 ==> nodes[i].next == nodes[i + 1])
      && if nodes == [] then front == null && rear == null
         else front == nodes[0] && rear == nodes[|nodes| - 1] && nodes[|nodes| - 1].next == null
    }

    ghost function Contents(): seq<string>
      reads this, nodes
    {
      seq(|nodes|, i requires 0 <= i < |nodes| reads this, nodes => nodes[i].data)
    }

    ghost function NodeSet(): set<Node>
      reads this
    {
      set n | n in nodes
    }

    constructor ()
      ensures Valid() && Contents() == [] && nodes == []
    {
      front, rear, nodes := null, null, [];
    }

    method IsEmpty() returns (empty: bool)
      requires Valid()
      ensures empty <==> Contents() == []
    {
      empty := front == null;
    }

    method Enqueue(data: string)
      requires Valid()
      modifies this, nodes
      ensures Valid() && Contents() == old(Contents()) + [data]
      ensures fresh(NodeSet() - old(NodeSet()))
    {
      var newNode := new Node(data);
      var empty := IsEmpty();
      if empty {
        front := newNode;
        rear := newNode;
      } else {
        rear.next := newNode;
        rear := newNode;
      }
      nodes := nodes + [newNode];
    }

    /** Takes the oldest entry off; an empty queue has none. */
    method Dequeue() returns (data: string, found: bool)
      requires Valid()
      modifies this
      ensures Valid() && (found <==> old(Contents()) != [])
      ensures found ==> old(Contents()) == [data] + Contents()
      ensures !found ==> Contents() == []
    {
      var empty := IsEmpty();
      if empty {
        return "", false;
      }
      data := front.data;
      front := front.next;
      nodes := nodes[1..];
      if front == null {
        rear := null;
      }
      found := true;
    }
  }
}
