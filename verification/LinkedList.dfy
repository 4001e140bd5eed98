/** The doubly linked list under the run queue, the message queues and the waiter lists. */
module LinkedList {
  import opened Sequences

  class Node<T> {
    const data: T
    var next: Node?<T>
    var prev: Node?<T>

    /** A node as linked_list_insert makes it. */
    constructor (data: T)
      ensures this.data == data && next == null && prev == null
    {
      this.data := data;
      next := null;
      prev := null;
    }
  }

  /** The node at a position, or null outside the sequence. */
  ghost function NodeAt<T>(ns: seq<Node<T>>, i: int): Node?<T> {
    if 0 <= i < |ns| then ns[i] else null
  }

  /** All links follow the sequence. */
  ghost predicate Linked<T>(ns: seq<Node<T>>)
    reads ns
  {
    forall i :: 0 <= i < |ns| ==> ns[i].next == NodeAt(ns, i + 1) && ns[i].prev == NodeAt(ns, i - 1)
  }

  /** The data of the nodes, in order. */
  ghost function Contents<T>(ns: seq<Node<T>>): (s: seq<T>)
    ensures |s| == |ns| && forall i :: 0 <= i < |ns| ==> s[i] == ns[i].data
  {
    seq(|ns|, i requires 0 <= i < |ns| => ns[i].data)
  }

  lemma CutDistinct<T>(ns: seq<Node<T>>, k: nat)
    requires Distinct(ns) && k < |ns|
    ensures Distinct(Cut(ns, k)) && forall i :: 0 <= i < |ns| - 1 ==>
              Cut(ns, k)[i] == ns[if i < k then i else i + 1] && Cut(ns, k)[i] != ns[k]
    ensures NodeAt(Cut(ns, k), 0) == NodeAt(ns, if k == 0 then 1 else 0)
    ensures NodeAt(Cut(ns, k), |ns| - 2) == NodeAt(ns, if k == |ns| - 1 then k - 1 else |ns| - 1)
  {
  }

  class List<T> {
    var head: Node?<T>
    var tail: Node?<T>

    /** The nodes in order, and the objects the list owns. */
    ghost var nodes: seq<Node<T>>
    ghost var repr: set<object>

    ghost predicate Valid()
      reads this, repr
    {
      && this in repr && (forall i :: 0 <= i < |nodes| ==> nodes[i] in repr)
      && head == NodeAt(nodes, 0) && tail == NodeAt(nodes, |nodes| - 1) && Distinct(nodes) && Linked(nodes)
    }

    /** The data in the list, in order. */
    ghost function Items(): (s: seq<T>)
      reads this
      ensures |s| == |nodes|
    {
      Contents(nodes)
    }

    lemma Owns()
      requires Valid()
      ensures this in repr
    {
    }

    /** linked_list_init. */
    constructor ()
      ensures Valid() && nodes == [] && fresh(repr)
    {
      head, tail := null, null;
      nodes := [];
      repr := {this};
    }

    /** linked_list_insert_node of a node that is linked nowhere. */
    method InsertNode(node: Node<T>)
      requires Valid() && node !in repr && node.next == null && node.prev == null
      modifies repr, node
      ensures Valid() && nodes == old(nodes) + [node] && repr == old(repr) + {node}
    {
      hide Distinct, NodeAt, Contents;
      ghost var ns, last := nodes, tail;
      EndsShown();
      DistinctAppend(ns, node);
      AppendLinks(node);
      nodes := nodes + [node];
      repr := repr + {node};
      forall j | 0 <= j < |ns| ensures Appended(ns, node, j, last) {
        assert ns[j] in ns;
        assert old(ns[j].next) == NodeAt(ns, j + 1);
        assert old(ns[j].prev) == NodeAt(ns, j - 1);
      }
      AppendedIsLinked(ns, node, last);
    }

    /** The linking: the node points back to the one that was last. */
    method AppendLinks(node: Node<T>)
      requires node !in nodes && node.next == null && node.prev == null && (head == null <==> tail == null)
      requires tail != null ==> tail in nodes
      modifies this`head, this`tail, nodes, node
      ensures head == (if old(head) == null then node else old(head)) && tail == node
      ensures node.prev == old(tail) && node.next == null
      ensures forall x :: x in nodes ==> x.prev == old(x.prev) && x.next == if x == old(tail) then node else old(x.next)
    {
      if head == null {
        head := node;
        tail := node;
      } else {
        tail.next := node;
        node.prev := tail;
        tail := node;
      }
    }

    lemma EndsShown()
      requires Valid()
      ensures head == NodeAt(nodes, 0) && tail == NodeAt(nodes, |nodes| - 1) && (head == null <==> tail == null)
      ensures (head == null <==> nodes == []) && (tail != null ==> tail in nodes)
    {
    }

    /** linked_list_insert: the data ends up behind all others. */
    method Insert(data: T) returns (node: Node<T>)
      requires Valid()
      modifies repr
      ensures Valid() && fresh(node) && node.data == data && fresh(repr - old(repr))
      ensures nodes == old(nodes) + [node] && Items() == old(Items()) + [data]
    {
      hide NodeAt, Linked, Distinct, Contents;
      node := new Node(data);
      ContentsAppend(nodes, node);
      InsertNode(node);
    }

    /** linked_list_remove of a node that the caller knows by its address alone; it is at position k. */
    method Remove(node: Node<T>, ghost k: nat)
      requires Valid() && k < |nodes| && nodes[k] == node
      modifies repr
      ensures Valid() && nodes == old(Cut(nodes, k)) && repr == old(repr) - {node} && node.next == null
      ensures node.prev == null
      ensures Items() == Cut(old(Items()), k)
    {
      hide Cut, Contents, Distinct, NodeAt;
      ghost var ns, p, n := nodes, node.prev, node.next;
      EndsAt(ns, k);
      ContentsCut(ns, k);
      CutDistinct(ns, k);
      RemoveLinks(node);
      nodes := Cut(ns, k);
      repr := repr - {node};
      forall j | 0 <= j < |ns| && ns[j] != node ensures Relinked(ns, j, p, n) {
        assert ns[j] in ns;
        assert old(ns[j].next) == NodeAt(ns, j + 1);
        assert old(ns[j].prev) == NodeAt(ns, j - 1);
      }
      RelinkedIsLinked(ns, k, p, n);
    }

    /** linked_list_remove of the node at the head. */
    method RemoveHead() returns (data: T)
      requires Valid() && nodes != []
      modifies repr
      ensures Valid() && nodes == old(nodes[1..]) && repr <= old(repr)
      ensures old(Items()) == [data] + Items()
    {
      hide Linked, Distinct, Contents;
      HeadShown();
      ghost var ns, s := nodes, Items();
      data := head.data;
      Remove(head, 0);
      assert nodes == ns[1..] && Items() == s[1..];
    }

    /** A list is empty exactly if it has no head. */
    lemma HeadShown()
      requires Valid()
      ensures head == null <==> nodes == []
      ensures head != null ==> head.data == Items()[0]
    {
    }

    /** The relinking: the neighbours point past the node and it points nowhere. */
    method RemoveLinks(node: Node<T>)
      requires node in nodes && node.prev != node && node.next != node
      requires (node.prev != null ==> node.prev in nodes) && (node.next != null ==> node.next in nodes)
      modifies this`head, this`tail, nodes
      ensures head == (if old(node.prev) == null then old(node.next) else old(head))
      ensures tail == (if old(node.next) == null then old(node.prev) else old(tail))
      ensures node.next == null && node.prev == null
      ensures forall x :: x in nodes && x != node ==>
                x.next == if x == old(node.prev) then old(node.next) else old(x.next)
      ensures forall x :: x in nodes && x != node ==>
                x.prev == if x == old(node.next) then old(node.prev) else old(x.prev)
    {
      if node.prev != null {
        node.prev.next := node.next;
      } else {
        head := node.next;
      }
      if node.next != null {
        node.next.prev := node.prev;
      } else {
        tail := node.prev;
      }
      node.next := null;
      node.prev := null;
    }
  }

  /** Node j points where it did, past the node between p and n. */
  ghost predicate Relinked<T>(ns: seq<Node<T>>, j: nat, p: Node?<T>, n: Node?<T>)
    requires j < |ns|
    reads ns
  {
    && ns[j].next == (if ns[j] == p then n else NodeAt(ns, j + 1))
    && ns[j].prev == (if ns[j] == n then p else NodeAt(ns, j - 1))
  }

  lemma RelinkedIsLinked<T>(ns: seq<Node<T>>, k: nat, p: Node?<T>, n: Node?<T>)
    requires Distinct(ns) && k < |ns| && p == NodeAt(ns, k - 1) && n == NodeAt(ns, k + 1)
    requires forall j :: 0 <= j < |ns| && ns[j] != ns[k] ==> Relinked(ns, j, p, n)
    ensures Linked(Cut(ns, k))
  {
  }

  lemma ContentsCut<T>(ns: seq<Node<T>>, k: nat)
    requires k < |ns|
    ensures Contents(Cut(ns, k)) == Cut(Contents(ns), k)
  {
  }

  /** Node j points where it did, or to the new node if it was the last. */
  ghost predicate Appended<T>(ns: seq<Node<T>>, node: Node<T>, j: nat, last: Node?<T>)
    requires j < |ns|
    reads ns
  {
    ns[j].next == (if ns[j] == last then node else NodeAt(ns, j + 1)) && ns[j].prev == NodeAt(ns, j - 1)
  }

  lemma AppendedIsLinked<T>(ns: seq<Node<T>>, node: Node<T>, last: Node?<T>)
    requires Distinct(ns + [node]) && last == NodeAt(ns, |ns| - 1) && node.prev == last && node.next == null
    requires forall j :: 0 <= j < |ns| ==> Appended(ns, node, j, last)
    ensures Linked(ns + [node]) && NodeAt(ns + [node], |ns|) == node
    ensures NodeAt(ns + [node], 0) == if ns == [] then node else NodeAt(ns, 0)
  {
    var ms := ns + [node];
    forall i | 0 <= i < |ms| ensures ms[i].next == NodeAt(ms, i + 1) && ms[i].prev == NodeAt(ms, i - 1) {
      if i < |ns| { assert Appended(ns, node, i, last) && ms[i] == ns[i] && (i < |ns| - 1 ==> ms[|ns| - 1] != ms[i]); }
    }
  }

  lemma ContentsAppend<T>(ns: seq<Node<T>>, node: Node<T>)
    ensures Contents(ns + [node]) == Contents(ns) + [node.data]
  {
  }

  lemma DistinctAppend<T>(ns: seq<Node<T>>, node: Node<T>)
    requires Distinct(ns) && forall i :: 0 <= i < |ns| ==> ns[i] != node
    ensures Distinct(ns + [node])
  {
  }

  lemma EndsAt<T>(ns: seq<Node<T>>, k: nat)
    requires Linked(ns) && Distinct(ns) && k < |ns|
    ensures ns[k].prev == NodeAt(ns, k - 1) && ns[k].next == NodeAt(ns, k + 1)
    ensures ns[k].prev != ns[k] && ns[k].next != ns[k]
    ensures (ns[k].prev != null ==> ns[k].prev in ns) && (ns[k].next != null ==> ns[k].next in ns)
    ensures (ns[k].prev == null <==> k == 0) && (ns[k].next == null <==> k == |ns| - 1)
  {
  }
}
