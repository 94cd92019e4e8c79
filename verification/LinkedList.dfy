/** The hand-written singly linked list of browse records (`linked_list.c`), with `malloc` and
    `free` made visible: a node may only be read or written while it is live. */
module LinkedList {
  import opened Bytes

  class Node {
    var next: Node?
    const data: seq<byte>

    constructor (data: seq<byte>)
      ensures next == null && this.data == data
    {
      this.next, this.data := null, data;
    }
  }

  /** `first` heads an acyclic chain of exactly these nodes. */
  ghost predicate IsChain(first: Node?, nodes: seq<Node>)
    reads nodes
  {
    && first == NodeAt(nodes, 0)
    && (forall i {:trigger nodes[i].next} :: 0 <= i < |nodes| ==> nodes[i].next == NodeAt(nodes, i + 1))
    && (forall i, j :: 0 <= i < j < |nodes| ==> nodes[i] != nodes[j])
  }

  ghost function NodeAt(nodes: seq<Node>, i: nat): Node? {
    if i < |nodes| then nodes[i] else null
  }

  /** The sequence without its `i`-th element. */
  ghost function Cut(nodes: seq<Node>, i: nat): (r: seq<Node>)
    requires i < |nodes|
    ensures |r| == |nodes| - 1
    ensures forall j :: 0 <= j < |r| ==> r[j] == nodes[if j < i then j else j + 1]
  {
    nodes[..i] + nodes[i + 1..]
  }

  ghost function Elements(nodes: seq<Node>): set<Node> {
    set n | n in nodes
  }

  lemma NoElements()
    ensures Elements([]) == {}
  {
  }

  lemma ElementsSnoc(nodes: seq<Node>, k: nat)
    requires k < |nodes|
    ensures nodes[..k + 1] == nodes[..k] + [nodes[k]]
    ensures Elements(nodes[..k + 1]) == Elements(nodes[..k]) + {nodes[k]}
  {
  }

  ghost function DataOf(nodes: seq<Node>): seq<seq<byte>> {
    seq(|nodes|, i requires 0 <= i < |nodes| => nodes[i].data)
  }

  class List {
    var head: Node?
    var didRegister: bool
    /** The nodes in list order, the live nodes of the heap, and the nodes freed so far. */
    ghost var nodes: seq<Node>
    ghost var live: set<Node>
    ghost var freed: seq<Node>

    ghost predicate Valid()
      reads this, nodes
    {
      IsChain(head, nodes) && forall n :: n in nodes ==> n in live
    }

    /** A list around the given first element, or an empty one. */
    constructor (first: Node?, ghost chain: seq<Node>)
      requires IsChain(first, chain)
      ensures Valid() && nodes == chain && live == Elements(chain) && freed == [] && !didRegister
    {
      head, didRegister, nodes, live, freed := first, false, chain, Elements(chain), [];
    }

    /** `free`: only a live node, and it is dead afterwards. */
    ghost method Free(n: Node)
      requires n in live
      modifies `live, `freed
      ensures live == old(live) - {n} && freed == old(freed) + [n]
    {
      live, freed := live - {n}, freed + [n];
    }

    method FindTail() returns (tail: Node?)
      requires Valid()
      ensures tail == if nodes == [] then null else nodes[|nodes| - 1]
    {
      var cursor := head;
      if cursor == null { return null; }
      var prev: Node := cursor;
      ghost var i := 0;
      while cursor != null
        invariant 0 <= i <= |nodes| && cursor == NodeAt(nodes, i)
        invariant prev == nodes[if i == 0 then 0 else i - 1]
        decreases |nodes| - i
      {
        prev := cursor;
        assert cursor in live;
        cursor := cursor.next;
        i := i + 1;
      }
      tail := prev;
    }

    /** Appends the element, with whatever chain hangs on it. */
    method AddElement(element: Node, ghost more: seq<Node>)
      requires Valid() && more != [] && IsChain(element, more)
      requires forall n :: n in more ==> n in live && n !in nodes
      modifies `head, `nodes, nodes`next
      ensures Valid() && nodes == old(nodes) + more
    {
      if head == null {
        head := element;
        nodes := more;
        assert old(nodes) + more == more;
        return;
      }
      var tail := FindTail();
      if tail != null {
        assert tail in live;
        tail.next := element;
        nodes := nodes + more;
        JoinedChain(old(nodes), more);
      }
    }

    /** Takes the element out of the list and frees it; an element that is not in the list
        leaves everything as it is. */
    method RemoveElement(element: Node)
      requires Valid()
      modifies `head, `nodes, `live, `freed, nodes`next
      ensures Valid()
      ensures element !in old(nodes) ==> nodes == old(nodes) && live == old(live) && freed == old(freed)
      ensures forall i :: 0 <= i < |old(nodes)| && old(nodes)[i] == element ==>
                nodes == Cut(old(nodes), i) && live == old(live) - {element} && freed == old(freed) + [element]
      ensures old(head) == element ==> nodes == old(nodes)[1..] && head == NodeAt(old(nodes), 1)
    {
      if head == null { return; }
      if element == head {
        assert head in live;
        var nextCopy := head.next;
        Free(element);
        head := nextCopy;
        DropFirst(nodes);
        nodes := nodes[1..];
        assert nodes == Cut(old(nodes), 0);
      } else {
        RemoveInside(element);
      }
    }

    /** The third branch: walk with a trailing pointer and unlink. */
    method RemoveInside(element: Node)
      requires Valid() && head != null && element != head
      modifies `head, `nodes, `live, `freed, nodes`next
      ensures Valid()
      ensures element !in old(nodes) ==> nodes == old(nodes) && live == old(live) && freed == old(freed)
      ensures forall i :: 0 <= i < |old(nodes)| && old(nodes)[i] == element ==>
                nodes == Cut(old(nodes), i) && live == old(live) - {element} && freed == old(freed) + [element]
    {
      var prev: Node := head;
      var cursor := head;
      ghost var i := 0;
      while cursor != null && cursor != element
        invariant 0 <= i <= |nodes| && cursor == NodeAt(nodes, i)
        invariant prev == nodes[if i == 0 then 0 else i - 1]
        invariant forall j :: 0 <= j < i ==> nodes[j] != element
        decreases |nodes| - i
      {
        prev := cursor;
        assert cursor in live;
        cursor := cursor.next;
        i := i + 1;
      }
      if cursor == element {
        assert i > 0 && prev in live && element in live;
        prev.next := element.next;
        CutChain(nodes, i);
        nodes := Cut(nodes, i);
        Free(element);
      }
    }

    /** Frees every node exactly once, front to back, reading none after it is freed. */
    method ClearList()
      requires Valid()
      modifies `head, `didRegister, `nodes, `live, `freed, nodes`next
      ensures Valid() && nodes == [] && head == null && !didRegister
      ensures freed == old(freed) + old(nodes)
      ensures live == old(live) - Elements(old(nodes))
    {
      hide Elements;
      didRegister := false;
      if head == null {
        NoElements();
        assert old(freed) + [] == old(freed);
        return;
      }
      var prev: Node? := head;
      ghost var k := 0;
      NoElements();
      while prev != null
        invariant 0 <= k <= |old(nodes)| && nodes == old(nodes)[k..] && Valid()
        invariant prev == head && !didRegister
        invariant freed == old(freed) + old(nodes)[..k]
        invariant live == old(live) - Elements(old(nodes)[..k])
        decreases |old(nodes)| - k
      {
        assert prev == nodes[0] == old(nodes)[k] && prev in live;
        ElementsSnoc(old(nodes), k);
        assert nodes[1..] == old(nodes)[k + 1..];
        Assoc(old(freed), old(nodes)[..k], [prev]);
        var next := prev.next;
        assert next == NodeAt(nodes, 1);
        RemoveElement(prev);
        prev := next;
        k := k + 1;
      }
      assert old(nodes)[..k] == old(nodes);
    }
  }

  /** Two chains, the last node of the first linked to the first of the second, are one. */
  lemma JoinedChain(nodes: seq<Node>, more: seq<Node>)
    requires nodes != [] && more != [] && IsChain(more[0], more)
    requires forall i, j :: 0 <= i < j < |nodes| ==> nodes[i] != nodes[j]
    requires forall n :: n in more ==> n !in nodes
    requires forall i {:trigger nodes[i].next} :: 0 <= i < |nodes| ==>
               nodes[i].next == if i + 1 < |nodes| then nodes[i + 1] else more[0]
    ensures IsChain(nodes[0], nodes + more)
  {
    var all := nodes + more;
    forall i | 0 <= i < |all|
      ensures all[i].next == NodeAt(all, i + 1)
    {
      if i >= |nodes| {
        assert more[i - |nodes|].next == NodeAt(more, i - |nodes| + 1);
      } else {
        assert nodes[i].next == if i + 1 < |nodes| then nodes[i + 1] else more[0];
      }
    }
    forall i, j | 0 <= i < j < |all|
      ensures all[i] != all[j]
    {
      if i < |nodes| <= j {
        assert all[j] in more && all[i] in nodes;
      }
    }
  }

  lemma DropFirst(nodes: seq<Node>)
    requires nodes != [] && IsChain(nodes[0], nodes)
    ensures IsChain(NodeAt(nodes, 1), nodes[1..]) && nodes[0] !in nodes[1..]
  {
    var rest := nodes[1..];
    forall i | 0 <= i < |rest|
      ensures rest[i].next == NodeAt(rest, i + 1)
    {
      assert nodes[i + 1].next == NodeAt(nodes, i + 2);
    }
  }

  /** A chain in which the predecessor of the `i`-th node points past it, without that node. */
  lemma CutChain(nodes: seq<Node>, i: nat)
    requires 0 < i < |nodes|
    requires forall j, k :: 0 <= j < k < |nodes| ==> nodes[j] != nodes[k]
    requires forall j {:trigger nodes[j].next} :: 0 <= j < |nodes| ==>
               nodes[j].next == NodeAt(nodes, if j == i - 1 then i + 1 else j + 1)
    ensures IsChain(nodes[0], Cut(nodes, i)) && nodes[i] !in Cut(nodes, i)
  {
    hide Cut;
    var rest := Cut(nodes, i);
    forall j | 0 <= j < |rest|
      ensures rest[j].next == NodeAt(rest, j + 1)
    {
      var k := if j < i then j else j + 1;
      assert nodes[k].next == NodeAt(nodes, if k == i - 1 then i + 1 else k + 1);
    }
    forall j, k | 0 <= j < k < |rest|
      ensures rest[j] != rest[k]
    {
    }
  }
}
