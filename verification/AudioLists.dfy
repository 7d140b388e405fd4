/** The two doubly linked lists of the audio module: the tracked buffers, with pointers to both
    ends, and a chain of audio processors, with a pointer to its head only. */
module AudioLists {

  class Node<T> {
    const item: T
    var next: Node?<T>
    var prev: Node?<T>

    constructor (t: T)
      ensures item == t && next == null && prev == null
    {
      item, next, prev := t, null, null;
    }
  }

  /** The nodes, in order, are linked both ways and to nothing else. */
  ghost predicate Linked<T>(nodes: seq<Node<T>>)
    reads nodes
  {
    && Distinct(nodes)
    && (forall i {:trigger nodes[i].next} :: 0 <= i < |nodes| ==> nodes[i].next == NodeAt(nodes, i + 1))
    && (forall i {:trigger nodes[i].prev} :: 0 <= i < |nodes| ==> nodes[i].prev == NodeAt(nodes, i - 1))
  }

  ghost predicate Distinct<T>(nodes: seq<Node<T>>) {
    forall i, j :: 0 <= i < j < |nodes| ==> nodes[i] != nodes[j]
  }

  ghost function NodeAt<T>(nodes: seq<Node<T>>, i: int): Node?<T> {
    if 0 <= i < |nodes| then nodes[i] else null
  }

  ghost function Remove<T>(nodes: seq<Node<T>>, i: nat): (rest: seq<Node<T>>)
    requires i < |nodes|
    ensures |rest| == |nodes| - 1
    ensures forall j :: 0 <= j < |rest| ==> rest[j] == nodes[if j < i then j else j + 1]
  {
    nodes[..i] + nodes[i + 1..]
  }

  /** A list whose node i is passed over by its neighbours is linked without that node. */
  lemma Unlinked<T>(nodes: seq<Node<T>>, i: nat)
    requires Distinct(nodes) && i < |nodes|
    requires forall j {:trigger nodes[j].next} :: 0 <= j < |nodes| && j != i && j != i - 1 ==>
               nodes[j].next == NodeAt(nodes, j + 1)
    requires forall j {:trigger nodes[j].prev} :: 0 <= j < |nodes| && j != i && j != i + 1 ==>
               nodes[j].prev == NodeAt(nodes, j - 1)
    requires 0 < i ==> nodes[i - 1].next == NodeAt(nodes, i + 1)
    requires i + 1 < |nodes| ==> nodes[i + 1].prev == NodeAt(nodes, i - 1)
    ensures Linked(Remove(nodes, i))
  {
    var rest := Remove(nodes, i);
    hide Remove;
    forall j | 0 <= j < |rest|
      ensures rest[j].next == NodeAt(rest, j + 1) && rest[j].prev == NodeAt(rest, j - 1)
    {
      assert rest[j] == nodes[if j < i then j else j + 1];
      assert NodeAt(rest, j + 1) == (if j + 1 < i then NodeAt(nodes, j + 1) else NodeAt(nodes, j + 2));
      assert NodeAt(rest, j - 1) == (if j - 1 < i then NodeAt(nodes, j - 1) else NodeAt(nodes, j));
    }
  }

  /** A node behind the last one of a list extends the list. */
  lemma Appended<T>(nodes: seq<Node<T>>, added: Node<T>)
    requires Distinct(nodes) && added !in nodes
    requires forall j {:trigger nodes[j].next} :: 0 <= j < |nodes| - 1 ==> nodes[j].next == NodeAt(nodes, j + 1)
    requires forall j {:trigger nodes[j].prev} :: 0 <= j < |nodes| ==> nodes[j].prev == NodeAt(nodes, j - 1)
    requires 0 < |nodes| ==> nodes[|nodes| - 1].next == added
    requires added.next == null && added.prev == NodeAt(nodes, |nodes| - 1)
    ensures Linked(nodes + [added])
  {
  }

  lemma NeighboursDiffer<T>(nodes: seq<Node<T>>, i: nat)
    requires i < |nodes| && Linked(nodes)
    ensures nodes[i].next == NodeAt(nodes, i + 1) && nodes[i].prev == NodeAt(nodes, i - 1)
    ensures forall j :: 0 <= j < |nodes| && j != i ==> nodes[j] != nodes[i]
    ensures 0 < i ==> forall j :: 0 <= j < |nodes| && j != i - 1 ==> nodes[j] != nodes[i - 1]
    ensures i + 1 < |nodes| ==> forall j :: 0 <= j < |nodes| && j != i + 1 ==> nodes[j] != nodes[i + 1]
  {
  }

  /** Links the neighbours of a node to each other. */
  method Bypass<T>(node: Node<T>, ghost nodes: seq<Node<T>>, ghost i: nat)
    requires Linked(nodes) && i < |nodes| && nodes[i] == node
    modifies nodes
    ensures Linked(Remove(nodes, i))
    ensures node.next == old(node.next) && node.prev == old(node.prev)
    ensures forall n :: n in nodes && n != node ==>
              && n.next == (if n == old(node.prev) then old(node.next) else old(n.next))
              && n.prev == (if n == old(node.next) then old(node.prev) else old(n.prev))
  {
    hide Remove;
    NeighboursDiffer(nodes, i);
    if node.prev != null { node.prev.next := node.next; }
    if node.next != null { node.next.prev := node.prev; }
    Unlinked(nodes, i);
  }

  /** A node's links tell whether it is the first or the last. */
  lemma LinksOf<T>(nodes: seq<Node<T>>, i: nat)
    requires Linked(nodes) && i < |nodes|
    ensures nodes[i].prev == NodeAt(nodes, i - 1) && nodes[i].next == NodeAt(nodes, i + 1)
    ensures if 0 < i then nodes[i].prev == nodes[i - 1] else nodes[i].prev == null
    ensures if i + 1 < |nodes| then nodes[i].next == nodes[i + 1] else nodes[i].next == null
  {
  }

  lemma RemoveEnds<T>(nodes: seq<Node<T>>, i: nat)
    requires Linked(nodes) && i < |nodes|
    ensures var rest := Remove(nodes, i);
      && nodes[i] !in rest && |rest| == |nodes| - 1
      && NodeAt(rest, 0) == NodeAt(nodes, if i == 0 then 1 else 0)
      && NodeAt(rest, |rest| - 1) == NodeAt(nodes, if i == |nodes| - 1 then |nodes| - 2 else |nodes| - 1)
  {
  }

  class BufferList<T> {
    var first: Node?<T>
    var last: Node?<T>
    ghost var nodes: seq<Node<T>>

    ghost predicate Valid()
      reads this, nodes
    {
      Linked(nodes) && first == NodeAt(nodes, 0) && last == NodeAt(nodes, |nodes| - 1)
    }

    constructor ()
      ensures Valid() && nodes == []
    {
      first, last, nodes := null, null, [];
    }

    method TrackAudioBuffer(buffer: Node<T>)
      requires Valid() && buffer !in nodes && buffer.next == null && buffer.prev == null
      modifies this, nodes, buffer
      ensures Valid() && nodes == old(nodes) + [buffer]
      ensures last == buffer && buffer.next == null && buffer.prev == old(last)
      ensures if old(first) == null then first == buffer else first == old(first) && old(last).next == buffer
      ensures forall n :: n in old(nodes) ==> n.prev == old(n.prev) && (n != old(last) ==> n.next == old(n.next))
    {
      if first == null {
        first := buffer;
      } else {
        last.next := buffer;
        buffer.prev := last;
      }
      last := buffer;
      Appended(nodes, buffer);
      nodes := nodes + [buffer];
    }

    /** The position is that of the buffer in the list. */
    method UntrackAudioBuffer(buffer: Node<T>, ghost i: nat)
      requires Valid() && i < |nodes| && nodes[i] == buffer
      modifies this, nodes
      ensures Valid() && nodes == Remove(old(nodes), i)
      ensures buffer.next == null && buffer.prev == null && buffer !in nodes
      ensures if old(buffer.prev) == null then first == old(buffer.next) else first == old(first)
      ensures if old(buffer.next) == null then last == old(buffer.prev) else last == old(last)
      ensures forall n :: n in old(nodes) && n != buffer ==>
                && n.next == (if n == old(buffer.prev) then old(buffer.next) else old(n.next))
                && n.prev == (if n == old(buffer.next) then old(buffer.prev) else old(n.prev))
    {
      hide Remove, Linked;
      LinksOf(nodes, i);
      RemoveEnds(nodes, i);
      Bypass(buffer, nodes, i);
      if buffer.prev == null { first := buffer.next; }
      if buffer.next == null { last := buffer.prev; }
      nodes := Remove(nodes, i);
      buffer.prev := null;
      buffer.next := null;
    }
  }

  /** The nodes whose item is not the given one, in their order. */
  ghost function Without<T>(nodes: seq<Node<T>>, item: T): seq<Node<T>> {
    if nodes == [] then []
    else
      var n := nodes[|nodes| - 1];
      Without(nodes[..|nodes| - 1], item) + if n.item != item then [n] else []
  }

  /** Node by node: a node stays exactly if its item is another. */
  lemma WithoutNext<T>(nodes: seq<Node<T>>, n: Node<T>, item: T)
    ensures Without(nodes + [n], item) == Without(nodes, item) + if n.item == item then [] else [n]
    ensures Without<T>([], item) == []
  {
    assert (nodes + [n])[..|nodes|] == nodes;
  }

  lemma {:induction false} WithoutMembers<T>(nodes: seq<Node<T>>, item: T)
    ensures forall n :: n in Without(nodes, item) ==> n in nodes && n.item != item
    ensures forall n :: n in nodes && n.item != item ==> n in Without(nodes, item)
  {
    if nodes != [] {
      WithoutMembers(nodes[..|nodes| - 1], item);
    }
  }

  class ProcessorChain<T(==)> {
    var processor: Node?<T>
    ghost var nodes: seq<Node<T>>

    ghost predicate Valid()
      reads this, nodes
    {
      Linked(nodes) && processor == NodeAt(nodes, 0)
    }

    constructor ()
      ensures Valid() && nodes == []
    {
      processor, nodes := null, [];
    }

    /** Walks to the end of the chain and appends a new node there. */
    method AttachAudioStreamProcessor(process: T)
      requires Valid()
      modifies this, nodes
      ensures Valid() && |nodes| == |old(nodes)| + 1 && old(nodes) == nodes[..|old(nodes)|]
      ensures fresh(nodes[|old(nodes)|]) && nodes[|old(nodes)|].item == process
      ensures nodes[|old(nodes)|].next == null
      ensures if old(nodes) == [] then processor == nodes[0] && processor.prev == null
              else && processor == old(processor) && nodes[|old(nodes)| - 1].next == nodes[|old(nodes)|]
                   && nodes[|old(nodes)|].prev == nodes[|old(nodes)| - 1]
    {
      var added := new Node(process);
      var end := processor;
      ghost var i := 0;
      while end != null && end.next != null
        invariant end == NodeAt(nodes, i) && (nodes != [] ==> i < |nodes|)
        decreases |nodes| - i
      {
        end := end.next;
        i := i + 1;
      }
      if end != null {
        added.prev := end;
        end.next := added;
      } else {
        processor := added;
      }
      Appended(nodes, added);
      nodes := nodes + [added];
    }

    /** Removes every node with the given callback and keeps the others in order. */
    method DetachAudioStreamProcessor(process: T)
      requires Valid()
      modifies this, nodes
      ensures Valid() && nodes == Without(old(nodes), process)
    {
      hide *;
      var current := processor;
      ghost var all, i := nodes, 0;
      StartOfWalk();
      NothingDetached(all, process);
      while current != null
        invariant 0 <= i <= |all| && current == NodeAt(all, i)
        invariant Valid() && nodes == Without(all[..i], process) + all[i..]
        decreases |all| - i
      {
        Unvisited(all, i, process);
        NextDetached(all, i, process);
        current := DetachStep(current, process, |Without(all[..i], process)|);
        i := i + 1;
      }
      EndOfWalk(all, i, process);
    }

    lemma StartOfWalk()
      requires Valid()
      ensures processor == NodeAt(nodes, 0)
    {
    }

    /** One node of the walk: frees it if it has the callback, and moves on. */
    method DetachStep(current: Node<T>, process: T, ghost k: nat) returns (next: Node?<T>)
      requires Valid() && k < |nodes| && nodes[k] == current
      modifies this, nodes
      ensures Valid() && next == old(NodeAt(nodes, k + 1))
      ensures nodes == if current.item == process then Remove(old(nodes), k) else old(nodes)
    {
      NeighboursDiffer(nodes, k);
      next := current.next;
      if current.item == process {
        Bypass(current, nodes, k);
        if processor == current { processor := next; }
        nodes := Remove(nodes, k);
      }
    }
  }

  lemma Unvisited<T>(all: seq<Node<T>>, i: nat, item: T)
    requires i <= |all|
    ensures NodeAt(all, i) != null ==> i < |all| && all[i] == NodeAt(all, i)
    ensures var nodes := Without(all[..i], item) + all[i..]; forall j :: 0 <= j < |nodes| ==> nodes[j] in all
  {
    var kept := Without(all[..i], item);
    var nodes := kept + all[i..];
    WithoutMembers(all[..i], item);
    forall j | 0 <= j < |nodes|
      ensures nodes[j] in all
    {
      if j < |kept| {
        assert kept[j] in kept;
        assert kept[j] in all[..i];
      } else {
        assert nodes[j] == all[i + (j - |kept|)];
      }
    }
  }

  lemma EndOfWalk<T>(all: seq<Node<T>>, i: nat, item: T)
    requires i <= |all| && NodeAt(all, i) == null
    ensures Without(all[..i], item) + all[i..] == Without(all, item)
  {
    assert all[..|all|] == all && all[|all|..] == [];
  }

  lemma NothingDetached<T>(all: seq<Node<T>>, item: T)
    ensures Without(all[..0], item) + all[0..] == all
  {
  }

  /** Keeping or removing the first node not yet visited. */
  lemma NextDetached<T>(all: seq<Node<T>>, i: nat, item: T)
    requires i < |all|
    ensures var kept, nodes := Without(all[..i], item), Without(all[..i], item) + all[i..];
            && nodes[|kept|] == all[i] && NodeAt(nodes, |kept| + 1) == NodeAt(all, i + 1)
            && Without(all[..i + 1], item) + all[i + 1..]
               == if all[i].item == item then Remove(nodes, |kept|) else nodes
  {
    assert all[..i + 1][..i] == all[..i];
    var kept, n := Without(all[..i], item), all[i];
    assert Without(all[..i + 1], item) == kept + if n.item != item then [n] else [];
    hide Without;
    FirstOfRest(kept, all, i);
  }

  lemma FirstOfRest<T>(kept: seq<Node<T>>, all: seq<Node<T>>, i: nat)
    requires i < |all|
    ensures var nodes := kept + all[i..];
      && nodes[|kept|] == all[i] && NodeAt(nodes, |kept| + 1) == NodeAt(all, i + 1)
      && kept + [all[i]] + all[i + 1..] == nodes && Remove(nodes, |kept|) == kept + all[i + 1..]
      && kept + [] + all[i + 1..] == kept + all[i + 1..]
  {
  }
}
