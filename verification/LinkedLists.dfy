/** The intrusive doubly linked list: its operations on pointers do what they say on sequences. */
module LinkedLists {

  // ---- pointers as values ----

  datatype Ptr = Ptr(prev: Node?, next: Node?)

  type Pointers = map<Node, Ptr>

  /** The node at position `k`, or none beyond the ends. */
  ghost function At(nodes: seq<Node>, k: int): Node? {
    if 0 <= k < |nodes| then nodes[k] else null
  }

  ghost predicate Distinct(nodes: seq<Node>) {
    forall i, j :: 0 <= i < j < |nodes| ==> nodes[i] != nodes[j]
  }

  /** Every node points to its neighbours. */
  ghost predicate Shape(nodes: seq<Node>, p: Pointers) {
    Distinct(nodes) && forall k :: 0 <= k < |nodes| ==> InPlace(nodes, p, k)
  }

  ghost predicate InPlace(nodes: seq<Node>, p: Pointers, k: nat)
    requires k < |nodes|
  {
    nodes[k] in p && p[nodes[k]] == Ptr(At(nodes, k - 1), At(nodes, k + 1))
  }

  ghost function SetNext(p: Pointers, n: Node?, to: Node?): Pointers {
    if n == null || n !in p then p else p[n := p[n].(next := to)]
  }

  ghost function SetPrev(p: Pointers, n: Node?, to: Node?): Pointers {
    if n == null || n !in p then p else p[n := p[n].(prev := to)]
  }

  ghost function Unlinked(p: Pointers, n: Node): Pointers
    requires n in p
  {
    SetPrev(SetNext(p, p[n].prev, p[n].next), p[n].next, p[n].prev)
  }

  ghost function LinkedBefore(p: Pointers, n: Node, loc: Node): Pointers
    requires n in p && loc in p
  {
    SetNext(SetPrev(p[n := Ptr(p[loc].prev, loc)], loc, n), p[loc].prev, n)
  }

  ghost function LinkedAfter(p: Pointers, n: Node, loc: Node): Pointers
    requires n in p && loc in p
  {
    SetPrev(SetNext(p[n := Ptr(loc, p[loc].next)], loc, n), p[loc].next, n)
  }

  function Inserted(nodes: seq<Node>, i: nat, n: Node): seq<Node>
    requires i <= |nodes|
  {
    nodes[..i] + [n] + nodes[i..]
  }

  function Removed(nodes: seq<Node>, i: nat): seq<Node>
    requires i < |nodes|
  {
    nodes[..i] + nodes[i + 1..]
  }

  /** The node at position `i` is taken out and put back so that it ends up at position `k`. */
  function MovedTo(nodes: seq<Node>, i: nat, k: nat): seq<Node>
    requires i < |nodes| && k < |nodes|
  {
    Inserted(Removed(nodes, i), k, nodes[i])
  }

  lemma MovedNowhere(nodes: seq<Node>, i: nat)
    requires i < |nodes|
    ensures MovedTo(nodes, i, i) == nodes
  {
  }

  lemma MovedAt(nodes: seq<Node>, i: nat, k: nat)
    requires i < |nodes| && k < |nodes|
    ensures |MovedTo(nodes, i, k)| == |nodes|
    ensures forall m :: 0 <= m < |nodes| ==> MovedTo(nodes, i, k)[m] == nodes[Before(i, k, m)]
  {
  }

  /** Where the node was that is at position `m` after a move from `i` to `k`. */
  function Before(i: nat, k: nat, m: nat): nat {
    if m == k then i else if i <= m < k then m + 1 else if k < m <= i then m - 1 else m
  }

  lemma MovedNodes(nodes: seq<Node>, i: nat, k: nat)
    requires i < |nodes| && k < |nodes|
    ensures (set n | n in MovedTo(nodes, i, k)) == (set n | n in nodes)
  {
    MovedAt(nodes, i, k);
    var s := MovedTo(nodes, i, k);
    forall n
      ensures n in s <==> n in nodes
    {
      if n in nodes {
        var m :| 0 <= m < |nodes| && nodes[m] == n;
        assert s[Before(k, i, m)] == n;
      }
    }
  }

  function Swapped(nodes: seq<Node>, i: nat, j: nat): seq<Node>
    requires i < |nodes| && j < |nodes|
  {
    nodes[i := nodes[j]][j := nodes[i]]
  }

  lemma SwappedAt(nodes: seq<Node>, i: nat, j: nat)
    requires i < |nodes| && j < |nodes|
    ensures |Swapped(nodes, i, j)| == |nodes|
    ensures forall m :: 0 <= m < |nodes| ==> Swapped(nodes, i, j)[m] == nodes[if m == j then i else if m == i then j else m]
  {
  }

  lemma OneMoveSwaps(nodes: seq<Node>, i: nat)
    requires i + 1 < |nodes|
    ensures MovedTo(nodes, i, i + 1) == Swapped(nodes, i, i + 1) == Swapped(nodes, i + 1, i)
  {
    hide MovedTo, Swapped;
    MovedAt(nodes, i, i + 1);
    SwappedAt(nodes, i, i + 1);
    SwappedAt(nodes, i + 1, i);
    assert MovedTo(nodes, i, i + 1) == Swapped(nodes, i, i + 1);
    assert Swapped(nodes, i, i + 1) == Swapped(nodes, i + 1, i);
  }

  /** Moving the node at `j` next to the one at `i`, and that one to where the first was, exchanges them. */
  lemma TwoMovesSwap(nodes: seq<Node>, i: nat, j: nat, k: nat, at: nat)
    requires i < |nodes| && j < |nodes| && i != j && i + 1 != j && j + 1 != i
    requires k == (if i == 0 then 1 else if i < j then i else i - 1) && at == (if i < j && i > 0 then i + 1 else i)
    ensures MovedTo(MovedTo(nodes, j, k), at, j) == Swapped(nodes, i, j)
  {
    hide MovedTo, Swapped;
    var once := MovedTo(nodes, j, k);
    MovedAt(nodes, j, k);
    MovedAt(once, at, j);
    SwappedAt(nodes, i, j);
    var twice, s := MovedTo(once, at, j), Swapped(nodes, i, j);
    forall m | 0 <= m < |nodes|
      ensures twice[m] == s[m]
    {
      assert twice[m] == once[Before(at, j, m)] == nodes[Before(j, k, Before(at, j, m))];
    }
    assert twice == s;
  }

  /** Two positions hold the same node exactly if they are the same. */
  lemma Same(nodes: seq<Node>, p: Pointers, i: nat, j: int)
    requires Shape(nodes, p) && i < |nodes|
    ensures At(nodes, j) == nodes[i] <==> i == j
  {
  }

  lemma RemovedAt(nodes: seq<Node>, i: nat)
    requires i < |nodes| && Distinct(nodes)
    ensures Distinct(Removed(nodes, i)) && |Removed(nodes, i)| == |nodes| - 1
    ensures forall k :: 0 <= k < |nodes| - 1 ==> Removed(nodes, i)[k] == nodes[if k < i then k else k + 1]
    ensures nodes[i] !in Removed(nodes, i)
  {
  }

  lemma InsertedAt(nodes: seq<Node>, i: nat, n: Node)
    requires i <= |nodes| && Distinct(nodes) && n !in nodes
    ensures Distinct(Inserted(nodes, i, n)) && |Inserted(nodes, i, n)| == |nodes| + 1
    ensures forall k :: 0 <= k < |nodes| + 1 ==> Inserted(nodes, i, n)[k] == if k < i then nodes[k] else if k == i then n else nodes[k - 1]
  {
  }

  lemma UnlinkedShape(nodes: seq<Node>, p: Pointers, i: nat)
    requires Shape(nodes, p) && i < |nodes|
    ensures nodes[i] in p && Shape(Removed(nodes, i), Unlinked(p, nodes[i])) && Unlinked(p, nodes[i]).Keys == p.Keys
  {
    RemovedAt(nodes, i);
    var r := Removed(nodes, i);
    assert InPlace(nodes, p, i);
    var q := Unlinked(p, nodes[i]);
    forall k | 0 <= k < |r|
      ensures InPlace(r, q, k)
    {
      assert InPlace(nodes, p, if k < i then k else k + 1);
    }
  }

  lemma LinkedBeforeShape(nodes: seq<Node>, p: Pointers, i: nat, n: Node)
    requires Shape(nodes, p) && i < |nodes| && n !in nodes && n in p
    ensures nodes[i] in p && Shape(Inserted(nodes, i, n), LinkedBefore(p, n, nodes[i]))
  {
    InsertedAt(nodes, i, n);
    assert InPlace(nodes, p, i);
    var s, q := Inserted(nodes, i, n), LinkedBefore(p, n, nodes[i]);
    forall k | 0 <= k < |s|
      ensures InPlace(s, q, k)
    {
      if k != i {
        assert InPlace(nodes, p, if k < i then k else k - 1);
      }
    }
  }

  lemma LinkedAfterShape(nodes: seq<Node>, p: Pointers, i: nat, n: Node)
    requires Shape(nodes, p) && i < |nodes| && n !in nodes && n in p
    ensures nodes[i] in p && Shape(Inserted(nodes, i + 1, n), LinkedAfter(p, n, nodes[i]))
  {
    InsertedAt(nodes, i + 1, n);
    assert InPlace(nodes, p, i);
    var s, q := Inserted(nodes, i + 1, n), LinkedAfter(p, n, nodes[i]);
    forall k | 0 <= k < |s|
      ensures InPlace(s, q, k)
    {
      if k != i + 1 {
        assert InPlace(nodes, p, if k <= i then k else k - 1);
      }
    }
  }

  // ---- nodes and lists ----

  ghost function Snapshot(all: set<Node>): Pointers
    reads all
  {
    map n | n in all :: Ptr(n.prev, n.next)
  }

  lemma ReadPtr(all: set<Node>, n: Node?)
    requires n != null ==> n in all
    ensures n != null ==> n in Snapshot(all) && Snapshot(all)[n] == Ptr(n.prev, n.next)
  {
  }

  class Node {
    var parent: List?
    var prev: Node?
    var next: Node?

    constructor ()
      ensures parent == null && prev == null && next == null
    {
      parent, prev, next := null, null, null;
    }

    /** This node, at position `i` of its list, goes before the node at position `j`. */
    method MoveBefore(node: Node, ghost i: nat, ghost j: nat)
      requires parent != null && parent.Valid() && i < |parent.contents| && j < |parent.contents|
      requires parent.contents[i] == this && parent.contents[j] == node
      modifies parent, parent.Nodes()
      ensures parent == old(parent) && parent.Valid()
      ensures parent.contents == MovedTo(old(parent.contents), i, if i == j then i else if i < j then j - 1 else j)
    {
      hide Shape, Distinct, At, Removed, Inserted;
      ghost var c := parent.contents;
      Neighbours(c, Snapshot(parent.Nodes()), j);
      Same(c, Snapshot(parent.Nodes()), i, j - 1);
      Same(c, Snapshot(parent.Nodes()), i, j + 1);
      Same(c, Snapshot(parent.Nodes()), i, j);
      MovedNowhere(c, i);
      if this == node || node.prev == this {
        return;
      }
      if node.next == this {
        MoveToPrev(i);
        return;
      }
      parent.Relocate(this, node, true, i, j);
    }

    method MoveAfter(node: Node, ghost i: nat, ghost j: nat)
      requires parent != null && parent.Valid() && i < |parent.contents| && j < |parent.contents|
      requires parent.contents[i] == this && parent.contents[j] == node
      modifies parent, parent.Nodes()
      ensures parent == old(parent) && parent.Valid()
      ensures parent.contents == MovedTo(old(parent.contents), i, if i == j then i else if i < j then j else j + 1)
    {
      hide Shape, Distinct, At, Removed, Inserted;
      ghost var c := parent.contents;
      Neighbours(c, Snapshot(parent.Nodes()), j);
      Same(c, Snapshot(parent.Nodes()), i, j - 1);
      Same(c, Snapshot(parent.Nodes()), i, j + 1);
      Same(c, Snapshot(parent.Nodes()), i, j);
      MovedNowhere(c, i);
      if this == node || node.next == this {
        return;
      }
      if node.prev == this {
        MoveToNext(i);
        return;
      }
      parent.Relocate(this, node, false, i, j);
    }

    method MoveToPrev(ghost i: nat)
      requires parent != null && parent.Valid() && i < |parent.contents| && parent.contents[i] == this
      modifies parent, parent.Nodes()
      ensures parent == old(parent) && parent.Valid()
      ensures parent.contents == MovedTo(old(parent.contents), i, if i == 0 then 0 else i - 1)
    {
      parent.StepBack(this, i);
    }

    method MoveToNext(ghost i: nat)
      requires parent != null && parent.Valid() && i < |parent.contents| && parent.contents[i] == this
      modifies parent, parent.Nodes()
      ensures parent == old(parent) && parent.Valid()
      ensures parent.contents == MovedTo(old(parent.contents), i, if i == |old(parent.contents)| - 1 then i else i + 1)
    {
      parent.StepForward(this, i);
    }
  }

  class List {
    var head: Node?
    var tail: Node?
    var size: nat
    ghost var contents: seq<Node>

    /** The nodes of the list. */
    ghost function Nodes(): set<Node>
      reads this
    {
      set n | n in contents
    }

    ghost predicate Valid()
      reads this, Nodes()
    {
      && head == At(contents, 0) && tail == At(contents, |contents| - 1) && size == |contents|
      && Shape(contents, Snapshot(Nodes()))
      && forall n :: n in contents ==> n.parent == this
    }

    constructor ()
      ensures Valid() && contents == []
    {
      head, tail, size, contents := null, null, 0, [];
    }

    method InsertBefore(loc: Node, node: Node, ghost i: nat)
      requires Valid() && i < |contents| && contents[i] == loc && node.parent == null
      modifies this, Nodes(), node
      ensures Valid() && contents == Inserted(old(contents), i, node)
    {
      hide Shape, Distinct, Inserted, At;
      ghost var all, s := Nodes() + {node}, Inserted(contents, i, node);
      ghost var p := Snapshot(all);
      Neighbours(contents, Snapshot(Nodes()), i);
      Wider(contents, Nodes(), all);
      LinkedBeforeShape(contents, p, i, node);
      NodesInserted(contents, i, node);
      LinkBefore(all, node, loc);
      if node.prev == null {
        head := node;
      }
      size := size + 1;
      contents := s;
      Settled(all);
    }

    lemma Settled(all: set<Node>)
      requires Nodes() == all && Shape(contents, Snapshot(all)) && forall n :: n in all ==> n.parent == this
      requires head == At(contents, 0) && tail == At(contents, |contents| - 1) && size == |contents|
      ensures Valid()
    {
    }

    method InsertAfter(loc: Node, node: Node, ghost i: nat)
      requires Valid() && i < |contents| && contents[i] == loc && node.parent == null
      modifies this, Nodes(), node
      ensures Valid() && contents == Inserted(old(contents), i + 1, node)
    {
      hide Shape, Distinct, Inserted, At;
      ghost var all, s := Nodes() + {node}, Inserted(contents, i + 1, node);
      ghost var p := Snapshot(all);
      Neighbours(contents, Snapshot(Nodes()), i);
      Wider(contents, Nodes(), all);
      LinkedAfterShape(contents, p, i, node);
      NodesInserted(contents, i + 1, node);
      LinkAfter(all, node, loc);
      if node.next == null {
        tail := node;
      }
      size := size + 1;
      contents := s;
      Settled(all);
    }

    /**
     A node that comes from a cleared list may still point to its old neighbours. It is only
     asserted that it has no predecessor, and the other pointer is overwritten unless the list is empty.
     */
    method InsertToHead(node: Node)
      requires Valid() && node.parent == null && node.prev == null
      modifies this, Nodes(), node
      ensures contents == [node] + old(contents)
      ensures Valid() <==> old(size) != 0 || old(node.next) == null
    {
      if size != 0 {
        FirstPosition(contents, node);
        InsertBefore(head, node, 0);
      } else {
        head, tail := node, node;
        node.parent := this;
        size := size + 1;
        contents := [node] + contents;
        assert InPlace(contents, Snapshot(Nodes()), 0) <==> node.next == null;
      }
    }

    method InsertToTail(node: Node)
      requires Valid() && node.parent == null && node.next == null
      modifies this, Nodes(), node
      ensures contents == old(contents) + [node]
      ensures Valid() <==> old(size) != 0 || old(node.prev) == null
    {
      if size != 0 {
        LastPosition(contents, node);
        InsertAfter(tail, node, |contents| - 1);
      } else {
        head, tail := node, node;
        node.parent := this;
        size := size + 1;
        contents := contents + [node];
        assert InPlace(contents, Snapshot(Nodes()), 0) <==> node.prev == null;
      }
    }

    method Remove(node: Node, ghost i: nat)
      requires Valid() && i < |contents| && contents[i] == node
      modifies this, Nodes()
      ensures Valid() && contents == Removed(old(contents), i)
      ensures node.parent == null && node.prev == null && node.next == null
    {
      hide Shape, Distinct, Removed, At, Snapshot, Unlinked;
      ghost var all, s := Nodes(), Removed(contents, i);
      ghost var p := Snapshot(all);
      ReadPtr(all, node);
      Neighbours(contents, p, i);
      UnlinkedShape(contents, p, i);
      NodesRemoved(contents, p, i);
      Detach(all, node);
      if node.prev == null {
        head := node.next;
      }
      if node.next == null {
        tail := node.prev;
      }
      Narrower(s, all, all - {node});
      node.prev := null;
      node.next := null;
      node.parent := null;
      size := size - 1;
      contents := s;
      Settled(all - {node});
    }

    /** The list forgets its nodes, and they forget the list, but not their neighbours. */
    method Clear() returns (first: Node?)
      requires Valid()
      modifies this, Nodes()
      ensures Valid() && contents == [] && first == old(head)
      ensures forall n :: n in old(contents) ==> n.parent == null && n.prev == old(n.prev) && n.next == old(n.next)
    {
      first := null;
      if size > 0 {
        first := head;
        var node := first;
        ghost var k := 0;
        ghost var all := Nodes();
        while node != null
          invariant contents == old(contents) && k <= |contents| && node == At(contents, k)
          invariant forall n :: n in all ==> n.prev == old(n.prev) && n.next == old(n.next)
          invariant forall i :: 0 <= i < k ==> contents[i].parent == null
          decreases |contents| - k
          modifies all
        {
          Neighbours(old(contents), old(Snapshot(Nodes())), k);
          node.parent := null;
          node := node.next;
          k := k + 1;
        }
        head, tail, size := null, null, 0;
        contents := [];
      }
    }

    /** The list has the nodes `r` linked up, while `all` also has one that is on the move. */
    ghost predicate Waiting(r: seq<Node>, all: set<Node>)
      reads this, all
    {
      Shape(r, Snapshot(all)) && head == At(r, 0) && tail == At(r, |r| - 1) && forall n :: n in all ==> n.parent == this
    }

    /** Exchange two nodes. Neighbours take one step; otherwise each goes next to a neighbour of the other. */
    method Swap(lhs: Node, rhs: Node, ghost i: nat, ghost j: nat)
      requires Valid() && i < |contents| && j < |contents| && contents[i] == lhs && contents[j] == rhs
      modifies this, Nodes()
      ensures Valid() && contents == Swapped(old(contents), i, j)
    {
      hide Shape, Distinct, At, MovedTo, Snapshot, Swapped;
      ghost var c, p := contents, Snapshot(Nodes());
      Neighbours(c, p, i);
      Neighbours(c, p, j);
      ReadPtr(Nodes(), lhs);
      ReadPtr(Nodes(), rhs);
      Same(c, p, i, j);
      Same(c, p, j, i + 1);
      Same(c, p, i, j + 1);
      SwappedSelf(c, i);
      if lhs == rhs {
        return;
      }
      if lhs.next == rhs {
        OneMoveSwaps(c, i);
        lhs.MoveToNext(i);
        return;
      } else if rhs.next == lhs {
        OneMoveSwaps(c, j);
        rhs.MoveToNext(j);
        return;
      }
      SwapApart(lhs, rhs, i, j);
    }

    method SwapApart(lhs: Node, rhs: Node, ghost i: nat, ghost j: nat)
      requires Valid() && i < |contents| && j < |contents| && contents[i] == lhs && contents[j] == rhs
      requires i != j && i + 1 != j && j + 1 != i
      modifies this, Nodes()
      ensures Valid() && contents == Swapped(old(contents), i, j)
    {
      hide Shape, Distinct, MovedTo, Snapshot, Swapped, At;
      ghost var c, p := contents, Snapshot(Nodes());
      ghost var k := if i == 0 then 1 else if i < j then i else i - 1;
      ghost var at := if i < j && i > 0 then i + 1 else i;
      Neighbours(c, p, i);
      Neighbours(c, p, j);
      AtInside(c);
      ReadPtr(Nodes(), lhs);
      ReadPtr(Nodes(), rhs);
      TwoMovesSwap(c, i, j, k, at);
      MovedAt(c, j, k);
      MovedNodes(c, j, k);
      var ll := lhs.prev;
      var lr := lhs.next;
      var rl := rhs.prev;
      var rr := rhs.next;
      if ll != null {
        rhs.MoveAfter(ll, j, i - 1);
      } else {
        rhs.MoveBefore(lr, j, 1);
      }
      if rl != null {
        lhs.MoveAfter(rl, at, if i < j then j else j - 1);
      } else {
        lhs.MoveBefore(rr, at, 0);
      }
    }

    /** Take `node` from position `i`; the first or the last node may change. */
    method TakeOut(node: Node, ghost i: nat)
      requires Valid() && i < |contents| && contents[i] == node && |contents| > 1
      modifies this`head, this`tail, Nodes()
      ensures Waiting(Removed(contents, i), Nodes())
      ensures contents == old(contents) && size == old(size)
    {
      hide Shape, Distinct, Removed, At;
      ghost var all, p := Nodes(), Snapshot(Nodes());
      Neighbours(contents, p, i);
      UnlinkedShape(contents, p, i);
      NodesRemoved(contents, p, i);
      if node.prev == null {
        head := node.next;
      } else if node.next == null {
        tail := node.prev;
      }
      Detach(all, node);
    }

    /** Link `node` before `loc`, or after it. */
    method PutBack(node: Node, loc: Node, before: bool, ghost r: seq<Node>, ghost j: nat, ghost all: set<Node>)
      requires Waiting(r, all) && j < |r| && r[j] == loc && node !in r && all == (set n | n in r) + {node} && size == |r| + 1
      modifies this, all
      ensures Valid() && node.parent == this && contents == Inserted(r, if before then j else j + 1, node)
    {
      hide Shape, Distinct, Inserted, At;
      ghost var q := Snapshot(all);
      Neighbours(r, q, j);
      if before {
        LinkedBeforeShape(r, q, j, node);
        NodesInserted(r, j, node);
        LinkBefore(all, node, loc);
        if node.prev == null {
          head := node;
        }
        contents := Inserted(r, j, node);
      } else {
        LinkedAfterShape(r, q, j, node);
        NodesInserted(r, j + 1, node);
        LinkAfter(all, node, loc);
        if node.next == null {
          tail := node;
        }
        contents := Inserted(r, j + 1, node);
      }
      Settled(all);
    }

    /** Take `node` from position `i`, and link it before or after `loc`, which is not next to it. */
    method Relocate(node: Node, loc: Node, before: bool, ghost i: nat, ghost j: nat)
      requires Valid() && i < |contents| && j < |contents| && contents[i] == node && contents[j] == loc && i != j
      modifies this, Nodes()
      ensures Valid() && node.parent == this
      ensures contents == MovedTo(old(contents), i, if before then (if i < j then j - 1 else j) else (if i < j then j else j + 1))
    {
      hide Shape, Distinct, Removed, Inserted, At, Waiting;
      ghost var all, c := Nodes(), contents;
      NodesRemoved(c, Snapshot(all), i);
      RemovedKeeps(c, Snapshot(all), i, j);
      TakeOut(node, i);
      PutBack(node, loc, before, Removed(c, i), if i < j then j - 1 else j, all);
    }

    /** Exchange `node` with its predecessor. */
    method StepBack(node: Node, ghost i: nat)
      requires Valid() && i < |contents| && contents[i] == node
      modifies this, Nodes()
      ensures Valid() && node.parent == this
      ensures contents == MovedTo(old(contents), i, if i == 0 then 0 else i - 1)
    {
      hide Shape, Distinct, Removed, Inserted, At, Snapshot, Unlinked, LinkedBefore;
      ghost var all, c := Nodes(), contents;
      ghost var p, r := Snapshot(all), Removed(c, i);
      MovedNowhere(c, i);
      Same(c, p, i, 0);
      if head == node {
        return;
      }
      ghost var k := i - 1;
      Around(c, p, k);
      Neighbours(c, p, i);
      Neighbours(c, p, k);
      ReadPtr(all, node);
      ReadPtr(all, node.prev);
      ReadPtr(all, node.next);
      UnlinkedShape(c, p, i);
      NodesRemoved(c, p, i);
      RemovedKeeps(c, p, i, k);
      LinkedBeforeShape(r, Unlinked(p, node), k, node);
      NodesInserted(r, k, node);
      ExchangeBack(all, node);
      if node.prev == null {
        head := node;
      }
      if node.next.next == null {
        tail := node.next;
      }
      contents := Inserted(r, k, node);
      Settled(all);
    }

    method ExchangeBack(ghost all: set<Node>, node: Node)
      requires node in all && node.prev != null && node.prev in all && node.prev != node && node.next != node
      requires (node.next != null ==> node.next in all) && (node.prev.prev != null ==> node.prev.prev in all)
      requires node.next != node.prev && node.prev.prev != node.prev && node.prev.prev != node && (node.next != null ==> node.prev.prev != node.next)
      requires node.prev.next == node && (node.next != null ==> node.next.prev == node)
      modifies all
      ensures var p := old(Snapshot(all)); Snapshot(all) == LinkedBefore(Unlinked(p, node), node, p[node].prev)
      ensures node.prev == old(node.prev.prev) && node.next == old(node.prev) && node.next.next == old(node.next)
      ensures forall n :: n in all ==> n.parent == old(n.parent)
    {
      var before := node.prev.prev;
      node.prev.prev := node;
      node.prev.next := node.next;
      node.next := node.prev;
      node.prev := before;
      if node.prev != null {
        node.prev.next := node;
      }
      if node.next.next != null {
        node.next.next.prev := node.next;
      }
    }

    /** Exchange `node` with its successor. */
    method StepForward(node: Node, ghost i: nat)
      requires Valid() && i < |contents| && contents[i] == node
      modifies this, Nodes()
      ensures Valid() && node.parent == this
      ensures contents == MovedTo(old(contents), i, if i == |old(contents)| - 1 then i else i + 1)
    {
      hide Shape, Distinct, Removed, Inserted, At, Snapshot, Unlinked, LinkedAfter;
      ghost var all, c := Nodes(), contents;
      ghost var p, r := Snapshot(all), Removed(c, i);
      MovedNowhere(c, i);
      Same(c, p, i, |c| - 1);
      if tail == node {
        return;
      }
      ghost var k := i + 1;
      Around(c, p, i);
      Neighbours(c, p, i);
      Neighbours(c, p, k);
      ReadPtr(all, node);
      ReadPtr(all, node.prev);
      ReadPtr(all, node.next);
      UnlinkedShape(c, p, i);
      NodesRemoved(c, p, i);
      RemovedKeeps(c, p, i, k);
      LinkedAfterShape(r, Unlinked(p, node), i, node);
      NodesInserted(r, k, node);
      ExchangeForward(all, node);
      if node.prev.prev == null {
        head := node.prev;
      }
      if node.next == null {
        tail := node;
      }
      contents := Inserted(r, k, node);
      Settled(all);
    }

    method ExchangeForward(ghost all: set<Node>, node: Node)
      requires node in all && node.next != null && node.next in all && node.next != node && node.prev != node
      requires (node.prev != null ==> node.prev in all) && (node.next.next != null ==> node.next.next in all)
      requires node.next != node.prev && node.next.next != node.next && node.next.next != node && (node.prev != null ==> node.next.next != node.prev)
      requires node.next.prev == node && (node.prev != null ==> node.prev.next == node)
      modifies all
      ensures var p := old(Snapshot(all)); Snapshot(all) == LinkedAfter(Unlinked(p, node), node, p[node].next)
      ensures node.next == old(node.next.next) && node.prev == old(node.next) && node.prev.prev == old(node.prev)
      ensures forall n :: n in all ==> n.parent == old(n.parent)
    {
      var after := node.next.next;
      node.next.prev := node.prev;
      node.next.next := node;
      node.prev := node.next;
      node.next := after;
      if node.prev.prev != null {
        node.prev.prev.next := node.prev;
      }
      if node.next != null {
        node.next.prev := node;
      }
    }

    /** The neighbours of `node` are joined. */
    method Detach(ghost all: set<Node>, node: Node)
      requires node in all && (node.prev != null ==> node.prev in all) && (node.next != null ==> node.next in all)
      requires node.prev != node && node.next != node && (node.prev != null ==> node.prev != node.next)
      modifies all
      ensures Snapshot(all) == Unlinked(old(Snapshot(all)), node)
      ensures node.prev == old(node.prev) && node.next == old(node.next) && forall n :: n in all ==> n.parent == old(n.parent)
    {
      if node.prev != null {
        node.prev.next := node.next;
      }
      if node.next != null {
        node.next.prev := node.prev;
      }
    }

    /** The pointers that change when `node` goes after `loc`. */
    method LinkAfter(ghost all: set<Node>, node: Node, loc: Node)
      requires node in all && loc in all && (loc.next != null ==> loc.next in all) && node != loc && loc.next != loc && loc.next != node
      modifies all
      ensures Snapshot(all) == LinkedAfter(old(Snapshot(all)), node, loc)
      ensures forall n :: n in all ==> n.parent == if n == node then this else old(n.parent)
    {
      node.prev := loc;
      node.next := loc.next;
      loc.next := node;
      if node.next != null {
        node.next.prev := node;
      }
      node.parent := this;
    }

    /** The pointers that change when `node` goes before `loc`. */
    method LinkBefore(ghost all: set<Node>, node: Node, loc: Node)
      requires node in all && loc in all && (loc.prev != null ==> loc.prev in all) && node != loc && loc.prev != loc && loc.prev != node
      modifies all
      ensures Snapshot(all) == LinkedBefore(old(Snapshot(all)), node, loc)
      ensures forall n :: n in all ==> n.parent == if n == node then this else old(n.parent)
    {
      node.prev := loc.prev;
      node.next := loc;
      loc.prev := node;
      if node.prev != null {
        node.prev.next := node;
      }
      node.parent := this;
    }
  }

  lemma Neighbours(nodes: seq<Node>, p: Pointers, i: nat)
    requires Shape(nodes, p) && i < |nodes|
    ensures At(nodes, i) == nodes[i] && nodes[i] in p && p[nodes[i]] == Ptr(At(nodes, i - 1), At(nodes, i + 1))
    ensures nodes[i] != At(nodes, i - 1) && nodes[i] != At(nodes, i + 1)
    ensures At(nodes, i - 1) != null ==> At(nodes, i - 1) != At(nodes, i + 1)
    ensures (At(nodes, i - 1) == null <==> i == 0) && (At(nodes, i + 1) == null <==> i == |nodes| - 1)
    ensures At(nodes, i - 1) != null ==> At(nodes, i - 1) in nodes
    ensures At(nodes, i + 1) != null ==> At(nodes, i + 1) in nodes
  {
    assert InPlace(nodes, p, i);
  }

  /** Two neighbours, and the nodes around them. */
  lemma Around(nodes: seq<Node>, p: Pointers, a: nat)
    requires Shape(nodes, p) && a + 1 < |nodes|
    ensures var w, x, y, z := At(nodes, a - 1), nodes[a], nodes[a + 1], At(nodes, a + 2);
            && x in p && p[x] == Ptr(w, y) && y in p && p[y] == Ptr(x, z)
            && x != y && w != x && w != y && z != x && z != y
            && (w != null ==> w in nodes && w in p && p[w].next == x && w != z)
            && (z != null ==> z in nodes && z in p && p[z].prev == y)
  {
    assert InPlace(nodes, p, a) && InPlace(nodes, p, a + 1);
    assert a > 0 ==> InPlace(nodes, p, a - 1);
    assert a + 2 < |nodes| ==> InPlace(nodes, p, a + 2);
  }

  /** Where the other nodes are after one has been taken out. */
  lemma RemovedKeeps(nodes: seq<Node>, p: Pointers, i: nat, j: nat)
    requires i < |nodes| && j < |nodes| && i != j && Shape(nodes, p)
    ensures var k := if i < j then j - 1 else j; k < |Removed(nodes, i)| && Removed(nodes, i)[k] == nodes[j]
  {
    RemovedAt(nodes, i);
  }

  lemma AtInside(nodes: seq<Node>)
    ensures forall k :: 0 <= k < |nodes| ==> At(nodes, k) == nodes[k]
  {
  }

  lemma SwappedSelf(nodes: seq<Node>, i: nat)
    requires i < |nodes|
    ensures Swapped(nodes, i, i) == nodes
  {
  }

  lemma FirstPosition(nodes: seq<Node>, n: Node)
    ensures Inserted(nodes, 0, n) == [n] + nodes
  {
  }

  lemma LastPosition(nodes: seq<Node>, n: Node)
    ensures Inserted(nodes, |nodes|, n) == nodes + [n]
  {
  }

  lemma NodesRemoved(nodes: seq<Node>, p: Pointers, i: nat)
    requires i < |nodes| && Shape(nodes, p)
    ensures (set x | x in Removed(nodes, i)) == (set x | x in nodes) - {nodes[i]}
    ensures |Removed(nodes, i)| == |nodes| - 1
    ensures At(Removed(nodes, i), 0) == if i == 0 then At(nodes, 1) else At(nodes, 0)
    ensures At(Removed(nodes, i), |nodes| - 2) == if i == |nodes| - 1 then At(nodes, |nodes| - 2) else At(nodes, |nodes| - 1)
    ensures nodes[i] !in Removed(nodes, i)
  {
    var s := Removed(nodes, i);
    RemovedAt(nodes, i);
    forall x
      ensures x in s <==> x in nodes && x != nodes[i]
    {
      assert nodes == nodes[..i] + [nodes[i]] + nodes[i + 1..];
    }
  }

  /** Nodes outside the list do not matter. */
  lemma Narrower(nodes: seq<Node>, all: set<Node>, fewer: set<Node>)
    requires Shape(nodes, Snapshot(all)) && (set x | x in nodes) <= fewer <= all
    ensures Shape(nodes, Snapshot(fewer))
  {
    var p, q := Snapshot(all), Snapshot(fewer);
    forall k | 0 <= k < |nodes|
      ensures InPlace(nodes, q, k)
    {
      assert InPlace(nodes, p, k);
      assert nodes[k] in fewer;
    }
  }

  lemma NodesInserted(nodes: seq<Node>, i: nat, n: Node)
    requires i <= |nodes|
    ensures (set x | x in Inserted(nodes, i, n)) == (set x | x in nodes) + {n}
    ensures |Inserted(nodes, i, n)| == |nodes| + 1
    ensures At(Inserted(nodes, i, n), |nodes|) == if i == |nodes| then n else At(nodes, |nodes| - 1)
    ensures At(Inserted(nodes, i, n), 0) == if i == 0 then n else At(nodes, 0)
  {
    var s := Inserted(nodes, i, n);
    forall x
      ensures x in s <==> x in nodes || x == n
    {
      assert nodes == nodes[..i] + nodes[i..];
    }
  }

  lemma Wider(nodes: seq<Node>, all: set<Node>, more: set<Node>)
    requires Shape(nodes, Snapshot(all)) && all <= more
    ensures Shape(nodes, Snapshot(more))
  {
    var p, q := Snapshot(all), Snapshot(more);
    forall k | 0 <= k < |nodes|
      ensures InPlace(nodes, q, k)
    {
      assert InPlace(nodes, p, k);
    }
  }

  /** The head of a cleared list still points to its old neighbour; back in the empty list it makes the list inconsistent. */
  method StaleHead() returns (list: List, node: Node)
    ensures list.contents == [node] && !list.Valid()
  {
    list := new List();
    node := new Node();
    var other := new Node();
    list.InsertToTail(node);
    list.InsertToTail(other);
    assert list.contents == [node, other];
    Neighbours(list.contents, Snapshot(list.Nodes()), 0);
    ReadPtr(list.Nodes(), node);
    var first := list.Clear();
    list.InsertToHead(node);
  }
}
