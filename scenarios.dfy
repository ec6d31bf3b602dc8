/**
 * The scenarios of the list's unit tests, replayed against the verified
 * class: each method builds a new list with the same calls and states the
 * contents the test expects.
 */
module Scenarios {
  import opened ListSpec
  import opened DoublyLinked

  /**
   * A proof helper, not a model of the source: the list facts the
   * scenarios below need, proved once here on literals.
   */
  lemma TestContents()
    ensures [1] + [2] == [1, 2] && [1, 2] + [3] == [1, 2, 3]
    ensures InsertAt([1, 2, 3], 0, 4) == [4, 1, 2, 3]
    ensures InsertAt([4, 1, 2, 3], 1, 5) == [4, 5, 1, 2, 3]
    ensures InsertAt([4, 5, 1, 2, 3], 2, 6) == [4, 5, 6, 1, 2, 3]
    ensures InsertAt([4, 1, 2, 3], 2, 5) == [4, 1, 5, 2, 3]
    ensures InsertAt([4, 1, 2, 3], 2, 4) == [4, 1, 4, 2, 3]
    ensures [7] + [4, 5, 6, 1, 2, 3] == [7, 4, 5, 6, 1, 2, 3]
    ensures [7, 4, 5, 6, 1, 2, 3] + [8] == [7, 4, 5, 6, 1, 2, 3, 8]
    ensures [7, 4, 5, 6, 1, 2, 3, 8] + [9] == [7, 4, 5, 6, 1, 2, 3, 8, 9]
    ensures [3] + [4, 1, 4, 2, 3] == [3, 4, 1, 4, 2, 3]
  {
  }

  /** The list 4, 1, 2, 3 with which the tests start: three appends and an insertion at the head. */
  method FourOneTwoThree() returns (l: DoublyLinkedList<int>)
    ensures fresh(l) && l.Valid() && l.elems == [4, 1, 2, 3]
    ensures fresh(l.nodes)
  {
    TestContents();
    l := new DoublyLinkedList();
    l.InsertBefore(0, 1);
    assert l.elems == [1] && fresh(l.nodes);
    l.InsertBefore(1, 2);
    assert l.elems == [1, 2] && fresh(l.nodes);
    l.InsertBefore(2, 3);
    assert l.elems == [1, 2, 3] && fresh(l.nodes);
    l.InsertBefore(0, 4);
  }

  /** Inserting in the middle, before the start and past the end. */
  method InsertBeforeScenario() returns (l: DoublyLinkedList<int>)
    ensures l.Valid() && l.elems == [7, 4, 5, 6, 1, 2, 3, 8, 9]
  {
    TestContents();
    l := FourOneTwoThree();
    l.InsertBefore(1, 5);
    assert l.elems == [4, 5, 1, 2, 3] && fresh(l.nodes);
    l.InsertBefore(2, 6);
    assert l.elems == [4, 5, 6, 1, 2, 3] && fresh(l.nodes);
    l.InsertBefore(-1, 7);
    assert l.elems == [7, 4, 5, 6, 1, 2, 3] && fresh(l.nodes);
    l.InsertBefore(7, 8);
    assert l.elems == [7, 4, 5, 6, 1, 2, 3, 8] && fresh(l.nodes);
    l.InsertBefore(700, 9);
  }

  /** Inserting into an empty list puts the value at the head whatever the position. */
  method InsertIntoEmptyScenario(pos: int) returns (l: DoublyLinkedList<int>)
    ensures l.Valid() && l.elems == [1]
  {
    l := new DoublyLinkedList();
    l.InsertBefore(pos, 1);
  }

  /** Deleting out of range changes nothing; deleting position 2 removes the third value. */
  method DeleteAtScenario() returns (l: DoublyLinkedList<int>, d1: bool, d2: bool, d3: bool)
    ensures l.Valid() && l.elems == [4, 1, 3]
    ensures !d1 && !d2 && d3
  {
    l := FourOneTwoThree();
    d1 := l.DeleteAt(-4);
    d2 := l.DeleteAt(97);
    d3 := l.DeleteAt(2);
    assert l.elems == [4, 1] + [3];
  }

  /** Reversing 4, 1, 5, 2, 3. */
  method ReverseScenario() returns (l: DoublyLinkedList<int>)
    ensures l.Valid() && l.elems == [3, 2, 5, 1, 4]
  {
    TestContents();
    l := FourOneTwoThree();
    l.InsertBefore(2, 5);
    assert l.elems == [4, 1, 5, 2, 3] && fresh(l.nodes);
    l.Reverse();
    forall i | 0 <= i < 5 ensures l.elems[i] == [3, 2, 5, 1, 4][i] {
      ReversedAt([4, 1, 5, 2, 3], i);
    }
  }

  /** Removing the duplicates of 3, 4, 1, 4, 2, 3. */
  method MakeUniqueScenario() returns (l: DoublyLinkedList<int>)
    ensures l.Valid() && l.elems == [3, 4, 1, 2]
  {
    TestContents();
    l := FourOneTwoThree();
    l.InsertBefore(2, 4);
    assert l.elems == [4, 1, 4, 2, 3] && fresh(l.nodes);
    l.InsertBefore(0, 3);
    assert l.elems == [3, 4, 1, 4, 2, 3] && fresh(l.nodes);
    l.MakeUnique();
    DedupExample();
  }

  /** Reversing any list twice restores its values and its head and tail. */
  method ReverseTwice<T(==)>(l: DoublyLinkedList<T>)
    requires l.Valid()
    modifies l, l.nodes
    ensures l.Valid() && l.elems == old(l.elems) && l.head == old(l.head) && l.tail == old(l.tail)
  {
    l.Reverse();
    forall k | 0 <= k < |l.nodes| ensures l.nodes[k] in old(l.nodes) {
      ReversedAt(old(l.nodes), k);
    }
    l.Reverse();
    ReversedInvolution(old(l.elems));
  }

  /** A new list is empty and has no node at position 0. */
  method EmptyListScenario() returns (empty: bool, node: DLLNode?<int>)
    ensures empty && node == null
  {
    var l := new DoublyLinkedList<int>();
    empty := l.IsEmpty();
    node := l.GetNode(0);
  }
}
