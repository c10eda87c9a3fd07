/** The head/tail linked list of waiters, updated in place. It represents a sequence of distinct nodes in arrival
    order, so it is acyclic and ends at the tail. */
module WaiterList {
  import opened Broker

  /** A waiter on the stack of its worker thread. `woken` records what the condition variable knows about it, and
      `ticket` its place in the order of arrival. */
  class Node {
    const info: Waiter
    var next: Node?
    ghost const ticket: nat
    ghost var woken: bool

    constructor (info: Waiter, ghost ticket: nat)
      ensures this.info == info && this.ticket == ticket && next == null && woken
    {
      this.info := info;
      this.ticket := ticket;
      next := null;
      woken := true;
    }

    ghost function Seen(): Waiter
      reads this
    {
      info.(ticket := ticket, woken := woken)
    }
  }

  /** The node after position `i`, or null at the end. */
  ghost function Successor(nodes: seq<Node>, i: nat): Node? {
    if i + 1 < |nodes| then nodes[i + 1] else null
  }

  /** A sequence without the element at `at`, if there is one. */
  ghost function Without<T>(s: seq<T>, at: nat): (r: seq<T>)
    requires at <= |s|
    ensures |r| == if at < |s| then |s| - 1 else |s|
    ensures forall i :: 0 <= i < |r| ==> r[i] == s[if i < at then i else i + 1]
  {
    if at < |s| then s[..at] + s[at + 1..] else s
  }

  class List {
    var head: Node?
    var tail: Node?
    ghost var nodes: seq<Node>

    /** The nodes are distinct, linked in order from the head, and the last one is the tail. */
    ghost predicate Valid()
      reads this, nodes`next
    {
      && (forall i, j :: 0 <= i < j < |nodes| ==> nodes[i] != nodes[j])
      && head == (if nodes == [] then null else nodes[0])
      && tail == (if nodes == [] then null else nodes[|nodes| - 1])
      && forall i :: 0 <= i < |nodes| ==> nodes[i].next == Successor(nodes, i)
    }

    /** The waiters the list stands for, in arrival order. */
    ghost function Waiters(): (q: seq<Waiter>)
      reads this, nodes
      ensures |q| == |nodes| && forall i :: 0 <= i < |q| ==> q[i] == nodes[i].Seen()
    {
      seq(|nodes|, i requires 0 <= i < |nodes| reads this, nodes => nodes[i].Seen())
    }

    constructor ()
      ensures Valid() && nodes == []
    {
      head, tail, nodes := null, null, [];
    }

    /** Appending keeps the arrival order. */
    method Enqueue(w: Node)
      requires Valid() && w !in nodes
      modifies this, w`next, nodes`next
      ensures Valid() && nodes == old(nodes) + [w] && Waiters() == old(Waiters()) + [w.Seen()]
    {
      w.next := null;
      if tail == null {
        head := w;
      } else {
        tail.next := w;
      }
      tail := w;
      nodes := nodes + [w];
    }

    /** Walks to the node, remembering its predecessor. `at` is its position, or the length if it is absent. */
    method Locate(w: Node, ghost at: nat) returns (previous: Node?, current: Node?)
      requires Valid() && at <= |nodes| && if at < |nodes| then nodes[at] == w else w !in nodes
      ensures current == if at < |nodes| then w else null
      ensures previous == if at == 0 then null else nodes[at - 1]
    {
      previous, current := null, head;
      ghost var i := 0;
      while current != null && current != w
        invariant 0 <= i <= at
        invariant current == if i < |nodes| then nodes[i] else null
        invariant previous == if i == 0 then null else nodes[i - 1]
        decreases |nodes| - i
      {
        assert current.next == Successor(nodes, i);
        previous, current, i := current, current.next, i + 1;
      }
    }

    /** Bypasses the node at position `i`. */
    method Unlink(previous: Node?, current: Node, ghost i: nat)
      requires Valid() && i < |nodes| && current == nodes[i]
      requires previous == if i == 0 then null else nodes[i - 1]
      modifies this, nodes`next
      ensures Valid() && nodes == Without(old(nodes), i)
    {
      ghost var was := nodes;
      assert current.next == Successor(was, i);
      if previous == null {
        head := current.next;
      } else {
        previous.next := current.next;
      }
      if tail == current {
        tail := previous;
      }
      nodes := Without(was, i);
      forall j | 0 <= j < |nodes|
        ensures nodes[j] == was[if j < i then j else j + 1]
        ensures nodes[j].next == Successor(nodes, j)
      {
        var k := if j < i then j else j + 1;
        assert nodes[j] == was[k];
        assert k != i - 1 ==> was[k].next == Successor(was, k);
      }
    }

    /** Unlinking a node from any position keeps the order of the others; a node not in the list is ignored. */
    method Remove(w: Node, ghost at: nat)
      requires Valid() && at <= |nodes| && if at < |nodes| then nodes[at] == w else w !in nodes
      modifies this, nodes`next
      ensures Valid()
      ensures nodes == Without(old(nodes), at) && Waiters() == Without(old(Waiters()), at)
    {
      hide List.Valid;
      var previous, current := Locate(w, at);
      if current != null {
        Unlink(previous, current, at);
      }
      assert Waiters() == Without(old(Waiters()), at);
    }

    /** The broadcast: every waiter is woken. */
    method WakeAll()
      requires Valid()
      modifies nodes`woken
      ensures Valid() && nodes == old(nodes) && Waiters() == Wake(old(Waiters()))
    {
      hide List.Valid;
      forall n | n in nodes {
        n.woken := true;
      }
      assert Waiters() == Wake(old(Waiters()));
    }

    lemma Distinct(i: nat)
      requires Valid() && i < |nodes|
      ensures forall j :: 0 <= j < |nodes| && j != i ==> nodes[j] != nodes[i]
    {
    }

    /** A waiter goes back to sleep. */
    method PutToSleep(w: Node, ghost i: nat)
      requires Valid() && i < |nodes| && nodes[i] == w
      modifies w`woken
      ensures Valid() && nodes == old(nodes) && Waiters() == old(Waiters())[i := old(Waiters())[i].(woken := false)]
    {
      hide List.Valid;
      Distinct(i);
      w.woken := false;
      assert Waiters() == old(Waiters())[i := old(Waiters())[i].(woken := false)];
    }

    /** Whether a queued node is ahead of every other node waiting for the same set. */
    method IsFirstForSet(w: Node) returns (r: bool)
      requires Valid()
      ensures r ==> w in nodes
      ensures forall i :: 0 <= i < |nodes| && nodes[i] == w ==> (r <==> FirstForSet(Waiters(), i))
    {
      var current := head;
      ghost var i := 0;
      while current != null
        invariant 0 <= i <= |nodes|
        invariant current == if i < |nodes| then nodes[i] else null
        invariant forall j :: 0 <= j < i ==> nodes[j] != w && nodes[j].info.id != w.info.id
        decreases |nodes| - i
      {
        if current == w {
          return true;
        }
        if current.info.id == w.info.id {
          assert nodes[i] == current;
          return false;
        }
        current := current.next;
        i := i + 1;
      }
      return false;
    }
  }
}
