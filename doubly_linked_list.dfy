/**
 * The generic doubly linked list: a chain of heap nodes reached from head,
 * with back links, and a tail reference to the last node. The ghost field
 * nodes lists the chain from head to tail and elems the values it holds;
 * every operation states its effect on elems in terms of the functions of
 * ListSpec.
 */
module DoublyLinked {
  import opened ListSpec

  /** One node of the chain. Its value is fixed once it is built. */
  class DLLNode<T> {
    const data: T
    var next: DLLNode?<T>
    var prev: DLLNode?<T>

    constructor (theData: T, prevNode: DLLNode?<T>, nextNode: DLLNode?<T>)
      ensures data == theData && prev == prevNode && next == nextNode
    {
      data := theData;
      prev := prevNode;
      next := nextNode;
    }
  }

  /**
   * ns is a well-formed chain from first to last: no node occurs twice,
   * consecutive nodes link to each other in both directions, and the chain
   * ends in null at both sides; an empty chain has no first or last node.
   */
  ghost predicate Linked<T>(ns: seq<DLLNode<T>>, first: DLLNode?<T>, last: DLLNode?<T>)
    reads ns
  {
    (forall i, j :: 0 <= i < j < |ns| ==> ns[i] != ns[j]) &&
    (forall i {:trigger ns[i].next} :: 0 <= i < |ns| - 1 ==> ns[i].next == ns[i + 1]) &&
    (forall i {:trigger ns[i].prev} :: 0 < i < |ns| ==> ns[i].prev == ns[i - 1]) &&
    if ns == [] then first == null && last == null
    else first == ns[0] && last == ns[|ns| - 1] && first.prev == null && last.next == null
  }

  /**
   * A chain whose links have all been flipped (each node's prev is its old
   * successor and its next its old predecessor) is the reversed chain.
   */
  lemma FlippedChain<T>(N: seq<DLLNode<T>>, E: seq<T>)
    requires |N| == |E| > 0
    requires forall i, j :: 0 <= i < j < |N| ==> N[i] != N[j]
    requires forall m {:trigger N[m].prev} :: 0 <= m < |N| - 1 ==> N[m].prev == N[m + 1]
    requires forall m {:trigger N[m].next} :: 0 < m < |N| ==> N[m].next == N[m - 1]
    requires N[|N| - 1].prev == null && N[0].next == null
    requires forall i :: 0 <= i < |N| ==> N[i].data == E[i]
    ensures Linked(Reversed(N), N[|N| - 1], N[0])
    ensures forall i :: 0 <= i < |N| ==> Reversed(N)[i].data == Reversed(E)[i]
  {
    FlippedLinks(N);
    forall i | 0 <= i < |N| ensures Reversed(N)[i].data == Reversed(E)[i] {
      ReversedAt(N, i);
      ReversedAt(E, i);
    }
  }

  /** The link part of FlippedChain. */
  lemma FlippedLinks<T>(N: seq<DLLNode<T>>)
    requires |N| > 0
    requires forall i, j :: 0 <= i < j < |N| ==> N[i] != N[j]
    requires forall m {:trigger N[m].prev} :: 0 <= m < |N| - 1 ==> N[m].prev == N[m + 1]
    requires forall m {:trigger N[m].next} :: 0 < m < |N| ==> N[m].next == N[m - 1]
    requires N[|N| - 1].prev == null && N[0].next == null
    ensures Linked(Reversed(N), N[|N| - 1], N[0])
  {
    var n, R := |N|, Reversed(N);
    forall i | 0 <= i < n ensures R[i] == N[n - 1 - i] {
      ReversedAt(N, i);
    }
    assert forall i, j :: 0 <= i < j < n ==> R[i] != R[j] by {
      forall i, j | 0 <= i < j < n ensures R[i] != R[j] {
        assert R[i] == N[n - 1 - i] && R[j] == N[n - 1 - j];
      }
    }
    assert forall i {:trigger R[i].next} :: 0 <= i < n - 1 ==> R[i].next == R[i + 1] by {
      forall i | 0 <= i < n - 1 ensures R[i].next == R[i + 1] {
        assert R[i] == N[n - 1 - i] && R[i + 1] == N[n - 1 - i - 1];
      }
    }
    assert forall i {:trigger R[i].prev} :: 0 < i < n ==> R[i].prev == R[i - 1] by {
      forall i | 0 < i < n ensures R[i].prev == R[i - 1] {
        assert R[i] == N[n - 1 - i] && R[i - 1] == N[n - 1 - i + 1];
      }
    }
    assert R[0] == N[n - 1] && R[n - 1] == N[0];
  }

  /**
   * The relinking loop of DoublyLinkedList.Reverse: walks the chain N from
   * its first node and swaps the prev and next links of every node.
   */
  method FlipLinks<T>(ghost N: seq<DLLNode<T>>, first: DLLNode<T>)
    requires |N| > 0 && first == N[0]
    requires forall i, j :: 0 <= i < j < |N| ==> N[i] != N[j]
    requires forall m {:trigger N[m].next} :: 0 <= m < |N| - 1 ==> N[m].next == N[m + 1]
    requires forall m {:trigger N[m].prev} :: 0 < m < |N| ==> N[m].prev == N[m - 1]
    requires N[0].prev == null && N[|N| - 1].next == null
    modifies N
    ensures forall m {:trigger N[m].prev} :: 0 <= m < |N| - 1 ==> N[m].prev == N[m + 1]
    ensures forall m {:trigger N[m].next} :: 0 < m < |N| ==> N[m].next == N[m - 1]
    ensures N[|N| - 1].prev == null && N[0].next == null
  {
    ghost var n := |N|;
    // Nx[m] and Pv[m] track the next and prev links of node m as they are flipped.
    ghost var Nx: seq<DLLNode?<T>> := N[1..] + [null];
    ghost var Pv: seq<DLLNode?<T>> := [null] + N[..n - 1];
    var currNode := first;
    var nextNode := first.next;
    var prevNode := first.prev;
    ghost var k := 0;
    while nextNode != null
      invariant 0 <= k < n && currNode == N[k] && |Nx| == n && |Pv| == n
      invariant forall m {:trigger N[m].next} :: 0 <= m < n ==> N[m].next == Nx[m]
      invariant forall m {:trigger N[m].prev} :: 0 <= m < n ==> N[m].prev == Pv[m]
      invariant nextNode == Nx[k] && prevNode == Pv[k]
      invariant forall m :: 0 <= m < k ==> Pv[m] == N[m + 1]
      invariant forall m :: 0 < m < k ==> Nx[m] == N[m - 1]
      invariant k > 0 ==> Nx[0] == null
      invariant forall m :: k <= m < n - 1 ==> Nx[m] == N[m + 1]
      invariant forall m :: 0 < m && k <= m < n ==> Pv[m] == N[m - 1]
      invariant Nx[n - 1] == null && (k == 0 ==> Pv[0] == null)
      decreases n - k
    {
      currNode.prev := nextNode;
      currNode.next := prevNode;
      Nx, Pv := Nx[k := prevNode], Pv[k := nextNode];
      currNode := nextNode;
      nextNode := currNode.next;
      prevNode := currNode.prev;
      k := k + 1;
    }
    currNode.prev := nextNode;
    currNode.next := prevNode;
    Nx, Pv := Nx[k := prevNode], Pv[k := nextNode];
  }

  class DoublyLinkedList<T(==)> {
    var head: DLLNode?<T>
    var tail: DLLNode?<T>

    /** The values from head to tail: the list as its users see it. */
    ghost var elems: seq<T>
    /** The nodes from head to tail. */
    ghost var nodes: seq<DLLNode<T>>

    /**
     * The list invariant: the nodes form a chain from head to tail (so head
     * and tail are both null exactly when the list is empty), and node i
     * holds value i.
     */
    ghost predicate Valid()
      reads this, nodes
    {
      |nodes| == |elems| &&
      Linked(nodes, head, tail) &&
      forall i {:trigger nodes[i].data} :: 0 <= i < |nodes| ==> nodes[i].data == elems[i]
    }

    /**
     * Splicing a node x into a well-formed chain N at index k, with x linked to
     * its new neighbours and every other link as before, gives a well-formed
     * chain whose values are those of E with d inserted at k: when nodes, elems,
     * head and tail describe that chain, the list is valid.
     */
    lemma SplicedChain(N: seq<DLLNode<T>>, E: seq<T>, k: nat, x: DLLNode<T>, d: T)
      requires |N| == |E| && k <= |N| && x.data == d
      requires nodes == InsertAt(N, k, x) && elems == InsertAt(E, k, d)
      requires head == (if k > 0 then N[0] else x) && tail == (if k < |N| then N[|N| - 1] else x)
      requires forall i, j :: 0 <= i < j < |N| ==> N[i] != N[j]
      requires forall i :: 0 <= i < |N| ==> N[i] != x
      requires forall m {:trigger N[m].next} :: 0 <= m < |N| - 1 && m != k - 1 ==> N[m].next == N[m + 1]
      requires forall m {:trigger N[m].prev} :: 0 < m < |N| && m != k ==> N[m].prev == N[m - 1]
      requires x.prev == (if k > 0 then N[k - 1] else null)
      requires x.next == (if k < |N| then N[k] else null)
      requires k > 0 ==> N[k - 1].next == x && N[0].prev == null
      requires k < |N| ==> N[k].prev == x && N[|N| - 1].next == null
      requires forall i :: 0 <= i < |N| ==> N[i].data == E[i]
      ensures Valid()
    {
    }

    /**
     * Unlinking the node at index k of a well-formed chain N, with its two
     * neighbours linked to each other and every other link as before, gives a
     * well-formed chain whose values are those of E without index k: when nodes,
     * elems, head and tail describe that chain, the list is valid.
     */
    lemma UnsplicedChain(N: seq<DLLNode<T>>, E: seq<T>, k: nat)
      requires |N| == |E| && k < |N|
      requires nodes == RemoveAt(N, k) && elems == RemoveAt(E, k)
      requires head == (if k > 0 then N[0] else if k + 1 < |N| then N[1] else null)
      requires tail == (if k + 1 < |N| then N[|N| - 1] else if k > 0 then N[k - 1] else null)
      requires forall i, j :: 0 <= i < j < |N| ==> N[i] != N[j]
      requires forall m {:trigger N[m].next} :: 0 <= m < |N| - 1 && m != k - 1 && m != k ==> N[m].next == N[m + 1]
      requires forall m {:trigger N[m].prev} :: 0 < m < |N| && m != k && m != k + 1 ==> N[m].prev == N[m - 1]
      requires k > 0 ==> N[k - 1].next == (if k + 1 < |N| then N[k + 1] else null) && N[0].prev == null
      requires k + 1 < |N| ==> N[k + 1].prev == (if k > 0 then N[k - 1] else null) && N[|N| - 1].next == null
      requires forall i :: 0 <= i < |N| ==> N[i].data == E[i]
      ensures Valid()
    {
    }

    /** The links of node i, read off the chain invariant. */
    lemma NextLink(i: int)
      requires Valid() && 0 <= i < |nodes|
      ensures nodes[i].next == if i + 1 < |nodes| then nodes[i + 1] else null
      ensures nodes[i].prev == if i > 0 then nodes[i - 1] else null
    {
    }

    /** An empty list. */
    constructor ()
      ensures Valid() && elems == [] && nodes == []
    {
      head := null;
      tail := null;
      elems := [];
      nodes := [];
    }

    method IsEmpty() returns (empty: bool)
      requires Valid()
      ensures Valid()
      ensures empty <==> elems == []
      ensures empty <==> head == null
    {
      empty := head == null;
    }

    /**
     * The node at position pos, found by walking next links from head, or
     * null when pos is negative or not below the length.
     */
    method GetNode(pos: int) returns (node: DLLNode?<T>)
      requires Valid()
      ensures Valid()
      ensures 0 <= pos < |elems| ==> node == nodes[pos]
      ensures !(0 <= pos < |elems|) ==> node == null
    {
      var empty := IsEmpty();
      if pos < 0 || empty {
        return null;
      }
      var currNode := head;
      for i := 0 to pos
        invariant i < |nodes| && currNode == nodes[i]
      {
        NextLink(i);
        if currNode.next == null {
          return null;
        }
        currNode := currNode.next;
      }
      return currNode;
    }

    /** The number of nodes, counted by walking next links from head. */
    method GetLength() returns (length: int)
      requires Valid()
      ensures Valid()
      ensures length == |elems|
    {
      var currNode := head;
      length := 0;
      while currNode != null
        invariant 0 <= length <= |nodes|
        invariant currNode == if length < |nodes| then nodes[length] else null
        decreases |nodes| - length
      {
        NextLink(length);
        currNode := currNode.next;
        length := length + 1;
      }
    }

    /**
     * The value at position pos, or None when pos is out of range. The source
     * dereferences the null node in that case instead of returning null.
     */
    method Get(pos: int) returns (value: Option<T>)
      requires Valid()
      ensures Valid()
      ensures 0 <= pos < |elems| ==> value == Some(elems[pos])
      ensures !(0 <= pos < |elems|) ==> value == None
    {
      var currNode := GetNode(pos);
      if currNode == null {
        return None;
      }
      return Some(currNode.data);
    }

    /**
     * Inserts data so that it ends up at position pos: at the head when the
     * list is empty or pos <= 0, at the tail when pos is at or past the end,
     * and otherwise just before the node now at pos.
     */
    method InsertBefore(pos: int, data: T)
      requires Valid()
      modifies this, nodes
      ensures Valid()
      ensures elems == InsertAt(old(elems), Clamp(pos, |old(elems)|), data)
      ensures old(elems) == [] ==> elems == [data]
      ensures pos <= 0 ==> elems == [data] + old(elems)
      ensures pos >= |old(elems)| ==> elems == old(elems) + [data]
      ensures |nodes| == |old(nodes)| + 1
      ensures nodes == InsertAt(old(nodes), Clamp(pos, |old(nodes)|), nodes[Clamp(pos, |old(nodes)|)])
      ensures fresh(nodes[Clamp(pos, |old(nodes)|)])
    {
      var empty := IsEmpty();
      if empty {
        head := new DLLNode(data, null, null);
        tail := head;
        nodes, elems := [head], [data];
        SplicedChain([], [], 0, head, data);
        return;
      }
      var currNode := GetNode(pos);
      InsertAtEnds(elems, data);
      if pos <= 0 {
        PushFront(data);
      } else if currNode == null {
        PushBack(data);
      } else {
        LinkBefore(currNode, pos, data);
      }
    }

    /** The pos <= 0 case of InsertBefore: a new node becomes the head. */
    method PushFront(data: T)
      requires Valid() && head != null
      modifies this, nodes
      ensures Valid()
      ensures elems == InsertAt(old(elems), 0, data)
      ensures nodes == InsertAt(old(nodes), 0, nodes[0]) && fresh(nodes[0])
    {
      ghost var N, E := nodes, elems;
      var newNode := new DLLNode(data, null, head);
      head.prev := newNode;
      head := newNode;
      nodes, elems := InsertAt(N, 0, newNode), InsertAt(E, 0, data);
      SplicedChain(N, E, 0, newNode, data);
    }

    /** The case of InsertBefore where pos is past the last node: a new node becomes the tail. */
    method PushBack(data: T)
      requires Valid() && tail != null
      modifies this, nodes
      ensures Valid()
      ensures elems == InsertAt(old(elems), |old(elems)|, data)
      ensures nodes == InsertAt(old(nodes), |old(nodes)|, nodes[|old(nodes)|]) && fresh(nodes[|old(nodes)|])
    {
      ghost var N, E := nodes, elems;
      var newNode := new DLLNode(data, tail, null);
      tail.next := newNode;
      tail := newNode;
      nodes, elems := InsertAt(N, |N|, newNode), InsertAt(E, |N|, data);
      SplicedChain(N, E, |N|, newNode, data);
    }

    /** The remaining case of InsertBefore: a new node goes between currNode, at pos, and its predecessor. */
    method LinkBefore(currNode: DLLNode<T>, pos: int, data: T)
      requires Valid() && 0 < pos < |nodes| && currNode == nodes[pos]
      modifies this, nodes
      ensures Valid()
      ensures elems == InsertAt(old(elems), pos, data)
      ensures nodes == InsertAt(old(nodes), pos, nodes[pos]) && fresh(nodes[pos])
    {
      ghost var N, E := nodes, elems;
      NextLink(pos);
      var prevNode := currNode.prev;
      var newNode := new DLLNode(data, prevNode, currNode);
      prevNode.next := newNode;
      currNode.prev := newNode;
      nodes, elems := InsertAt(N, pos, newNode), InsertAt(E, pos, data);
      SplicedChain(N, E, pos, newNode, data);
    }

    /**
     * Deletes the node at position pos and answers true, or answers false and
     * changes nothing when pos is out of range. Unlike the source, head and
     * tail are moved when the first or the last node is deleted.
     */
    method DeleteAt(pos: int) returns (deleted: bool)
      requires Valid()
      modifies this, nodes
      ensures Valid()
      ensures deleted <==> 0 <= pos < |old(elems)|
      ensures deleted ==> elems == RemoveAt(old(elems), pos) && nodes == RemoveAt(old(nodes), pos)
      ensures !deleted ==> unchanged(this) && unchanged(nodes)
    {
      var delNode := GetNode(pos);
      if delNode == null {
        return false;
      }
      var prevNode := GetNode(pos - 1);
      var nextNode := GetNode(pos + 1);
      Unlink(pos, prevNode, nextNode);
      return true;
    }

    /**
     * The relinking step of DeleteAt: prevNode and nextNode, the neighbours
     * of the node at pos (null at either end), are linked to each other, and
     * head or tail moves when there is no neighbour on that side.
     */
    method Unlink(pos: int, prevNode: DLLNode?<T>, nextNode: DLLNode?<T>)
      requires Valid() && 0 <= pos < |nodes|
      requires prevNode == (if pos > 0 then nodes[pos - 1] else null)
      requires nextNode == (if pos + 1 < |nodes| then nodes[pos + 1] else null)
      modifies this, nodes
      ensures Valid()
      ensures elems == RemoveAt(old(elems), pos) && nodes == RemoveAt(old(nodes), pos)
    {
      ghost var N, E := nodes, elems;
      if prevNode == null {
        head := nextNode;
      } else {
        prevNode.next := nextNode;
      }
      if nextNode == null {
        tail := prevNode;
      } else {
        nextNode.prev := prevNode;
      }
      nodes, elems := RemoveAt(N, pos), RemoveAt(E, pos);
      UnsplicedChain(N, E, pos);
    }

    /**
     * Reverses the list in place by swapping head and tail and flipping the
     * links of every node. Unlike the source, an empty list is left alone
     * instead of dereferencing the null head.
     */
    method Reverse()
      requires Valid()
      modifies this, nodes
      ensures Valid()
      ensures elems == Reversed(old(elems))
      ensures nodes == Reversed(old(nodes))
      ensures head == old(tail) && tail == old(head)
    {
      if head == null {
        return;
      }
      ghost var N := nodes;
      var currNode := head;
      head := tail;
      tail := currNode;
      assert head == N[|N| - 1] && tail == N[0];
      FlipLinks(N, currNode);
      FlippedChain(N, elems);
      nodes, elems := Reversed(N), Reversed(elems);
    }

    /**
     * Removes every element equal to an earlier one, keeping the first
     * occurrence of each value in order: for each position i in turn, the
     * later copies of the element at i are deleted. Elements are compared by
     * value rather than by reference.
     */
    method MakeUnique()
      requires Valid()
      modifies this, nodes
      ensures Valid()
      ensures elems == Dedup(old(elems))
      ensures Distinct(elems) && IsSubsequence(elems, old(elems))
      ensures elems == FirstOccurrences(old(elems), {})
      ensures Elements(elems) == Elements(old(elems))
      ensures forall k :: 0 <= k < |nodes| ==> nodes[k] in old(nodes)
    {
      var length := GetLength();
      var i := 0;
      while i < length
        invariant Valid() && length == |elems| && 0 <= i <= length
        invariant elems[..i] + Dedup(elems[i..]) == Dedup(old(elems))
        invariant forall k :: 0 <= k < |nodes| ==> nodes[k] in old(nodes)
        decreases length - i
      {
        ghost var pre := elems;
        length := DeleteCopiesAfter(i, length);
        DedupStep(pre, i);
        i := i + 1;
      }
      assert elems[..i] == elems;
      DedupDistinct(old(elems));
      DedupSubsequence(old(elems));
      DedupIsFirstOccurrences(old(elems));
      DedupElements(old(elems));
    }

    /**
     * The inner loop of MakeUnique: scans the positions after i and deletes
     * every element equal to the one at i, keeping length equal to the number
     * of elements. Unlike the source, j is not advanced after a deletion,
     * since the next element has moved into position j.
     */
    method DeleteCopiesAfter(i: int, length0: int) returns (length: int)
      requires Valid() && 0 <= i < |elems| && length0 == |elems|
      modifies this, nodes
      ensures Valid() && length == |elems|
      ensures elems == old(elems)[..i + 1] + RemoveAll(old(elems)[i + 1..], {old(elems)[i]})
      ensures forall k :: 0 <= k < |nodes| ==> nodes[k] in old(nodes)
    {
      ghost var pre, p := elems, i + 1;
      ScanStart(pre, i);
      length := length0;
      var j := i + 1;
      while j < length
        invariant Valid() && length == |elems|
        invariant i < p <= |pre| && elems == Scanned(pre, i, p) && j == ScanIndex(pre, i, p)
        invariant forall k :: 0 <= k < |nodes| ==> nodes[k] in old(nodes)
        decreases |pre| - p
      {
        j, length := DeleteCopyOrSkip(i, j, pre, p);
        p := p + 1;
      }
      assert p == |pre|;
      ScanFinish(pre, i);
    }

    /**
     * One step of the inner loop of MakeUnique: compares the element at j
     * with the one at i and deletes it when the two are equal, otherwise
     * moves j on by one. In terms of the scan over the original elements
     * pre, the step looks at pre[p].
     */
    method DeleteCopyOrSkip(i: int, j0: int, ghost pre: seq<T>, ghost p: nat) returns (j: int, length: int)
      requires Valid() && 0 <= i < p < |pre|
      requires elems == Scanned(pre, i, p) && j0 == ScanIndex(pre, i, p)
      modifies this, nodes
      ensures Valid() && length == |elems|
      ensures elems == Scanned(pre, i, p + 1) && j == ScanIndex(pre, i, p + 1)
      ensures forall k :: 0 <= k < |nodes| ==> nodes[k] in old(nodes)
    {
      ScanAt(pre, i, p);
      var a := Get(i);
      var b := Get(j0);
      if a == b {
        ghost var before := nodes;
        var deleted := DeleteAt(j0);
        ScanDrop(pre, i, p);
        RemoveAtWithin(before, j0, before);
        j := j0;
        length := GetLength();
      } else {
        ScanKeep(pre, i, p);
        j := j0 + 1;
        length := GetLength();
      }
    }
  }
}
