/**
 * The list operations exactly as the Java class writes them, including the
 * paths on which it dereferences null, over a value model of its heap: an
 * arena in which node k holds data[k] and the links next[k] and prev[k], and
 * Nil stands for null. The lemmas here exhibit where this code departs from
 * what its comments promise; DoublyLinked holds the corrected operations.
 */
module AsWritten {
  import opened ListSpec

  /** What a call does: returns a value, or fails by dereferencing null. */
  datatype Outcome<R> = Returns(value: R) | NullDereference

  const Nil: int := -1

  /** The heap of one list: its nodes, their links, and the head and tail fields. */
  datatype Arena<T> = Arena(data: seq<T>, next: seq<int>, prev: seq<int>, head: int, tail: int)

  /** r is null or one of the nodes of a. */
  predicate IsRef<T>(a: Arena<T>, r: int) {
    Nil <= r < |a.data|
  }

  /** Every link and both fields of a refer to a node of a or are null. */
  predicate WellFormed<T>(a: Arena<T>) {
    |a.next| == |a.data| && |a.prev| == |a.data| && IsRef(a, a.head) && IsRef(a, a.tail) &&
    forall k :: 0 <= k < |a.data| ==> IsRef(a, a.next[k]) && IsRef(a, a.prev[k])
  }

  /** The arena the list builds for the values s: node k holds s[k] and links to k - 1 and k + 1. */
  function FromSeq<T>(s: seq<T>): (a: Arena<T>)
    ensures WellFormed(a) && a.data == s
  {
    Arena(s, seq(|s|, k => if k + 1 < |s| then k + 1 else Nil), seq(|s|, k => k - 1),
          if |s| > 0 then 0 else Nil, |s| - 1)
  }

  /** The values met when following next links from r, for at most fuel nodes. */
  function Walk<T>(a: Arena<T>, r: int, fuel: nat): (vs: seq<T>)
    requires WellFormed(a) && IsRef(a, r)
    ensures |vs| <= fuel
    decreases fuel
  {
    if r == Nil || fuel == 0 then [] else [a.data[r]] + Walk(a, a.next[r], fuel - 1)
  }

  /** The values a user of the list sees: those reachable from head, as toString lists them. */
  function Forward<T>(a: Arena<T>): (vs: seq<T>)
    requires WellFormed(a)
    ensures |vs| <= |a.data|
  {
    Walk(a, a.head, |a.data|)
  }

  /** Walking the arena built for s from node k gives the values from k on. */
  lemma {:induction false} WalkFromSeq<T>(s: seq<T>, k: nat, fuel: nat)
    requires k <= |s| && fuel >= |s| - k
    ensures Walk(FromSeq(s), if k < |s| then k else Nil, fuel) == s[k..]
    decreases |s| - k
  {
    if k < |s| {
      WalkFromSeq(s, k + 1, fuel - 1);
    }
  }

  /**
   * Walking a run of nodes lo .. hi - 1, each linked to the next, reads
   * their values and then goes on from wherever node hi - 1 links to.
   */
  lemma {:induction false} WalkRun<T>(a: Arena<T>, lo: nat, hi: nat, fuel: nat)
    requires WellFormed(a) && lo < hi <= |a.data| && fuel >= hi - lo
    requires forall m :: lo <= m < hi - 1 ==> a.next[m] == m + 1
    ensures Walk(a, lo, fuel) == a.data[lo..hi] + Walk(a, a.next[hi - 1], fuel - (hi - lo))
    decreases hi - lo
  {
    if lo + 1 < hi {
      WalkRun(a, lo + 1, hi, fuel - 1);
      assert a.data[lo..hi] == [a.data[lo]] + a.data[lo + 1..hi];
    } else {
      assert a.data[lo..hi] == [a.data[lo]];
    }
  }

  /** The list built for s shows exactly s. */
  lemma ForwardFromSeq<T>(s: seq<T>)
    ensures Forward(FromSeq(s)) == s
  {
    WalkFromSeq(s, 0, |s|);
  }

  /** getNode's loop: steps next links from r, giving null when the chain ends first. */
  function GetNodeFrom<T>(a: Arena<T>, r: int, steps: nat): (n: int)
    requires WellFormed(a) && 0 <= r < |a.data|
    ensures IsRef(a, n)
    decreases steps
  {
    if steps == 0 then r
    else if a.next[r] == Nil then Nil
    else GetNodeFrom(a, a.next[r], steps - 1)
  }

  /** getNode: null for a negative position or an empty list, else the walk from head. */
  function GetNode<T>(a: Arena<T>, pos: int): (n: int)
    requires WellFormed(a)
    ensures IsRef(a, n)
  {
    if pos < 0 || a.head == Nil then Nil else GetNodeFrom(a, a.head, pos)
  }

  /** In the arena built for s, walking from node r lands steps nodes further on, or on null. */
  lemma {:induction false} GetNodeFromOfSeq<T>(s: seq<T>, r: nat, steps: nat)
    requires r < |s|
    ensures GetNodeFrom(FromSeq(s), r, steps) == if r + steps < |s| then r + steps else Nil
    decreases steps
  {
    if steps > 0 && r + 1 < |s| {
      GetNodeFromOfSeq(s, r + 1, steps - 1);
    }
  }

  /** In the arena built for s, getNode finds node pos exactly when pos is in range. */
  lemma GetNodeOfSeq<T>(s: seq<T>, pos: int)
    ensures GetNode(FromSeq(s), pos) == if 0 <= pos < |s| then pos else Nil
  {
    if 0 <= pos && |s| > 0 {
      GetNodeFromOfSeq(s, 0, pos);
    }
  }

  /** get as written: reads the data of whatever getNode returns, even null. */
  function GetAsWritten<T>(a: Arena<T>, pos: int): (r: Outcome<T>)
    requires WellFormed(a)
    ensures pos < 0 || a.head == Nil ==> r == NullDereference
    ensures r.Returns? ==> r.value in a.data
  {
    var n := GetNode(a, pos);
    if n == Nil then NullDereference else Returns(a.data[n])
  }

  /**
   * get returns the value at an in-range position and dereferences null at
   * every other position, where its comment promises null.
   */
  lemma GetOutOfRangeCrashes<T>(s: seq<T>, pos: int)
    ensures GetAsWritten(FromSeq(s), pos) == if 0 <= pos < |s| then Returns(s[pos]) else NullDereference
  {
    GetNodeOfSeq(s, pos);
  }

  /**
   * deleteAt as written: unlinks the node at pos by relinking its neighbours,
   * dereferencing the missing predecessor at position 0, and never moving
   * head or tail.
   */
  function DeleteAtAsWritten<T>(a: Arena<T>, pos: int): (r: Outcome<(Arena<T>, bool)>)
    requires WellFormed(a)
    ensures r.Returns? ==> WellFormed(r.value.0)
  {
    var delNode := GetNode(a, pos);
    if delNode == Nil then Returns((a, false))
    else
      var prevNode, nextNode := GetNode(a, pos - 1), GetNode(a, pos + 1);
      if prevNode == Nil then NullDereference
      else
        var a1 := a.(next := a.next[prevNode := nextNode]);
        var a2 := if nextNode != Nil then a1.(prev := a1.prev[nextNode := prevNode]) else a1;
        Returns((a2, true))
  }

  /** Deleting position 0 of any non-empty list dereferences null. */
  lemma DeleteAtHeadCrashes<T>(s: seq<T>)
    requires |s| > 0
    ensures DeleteAtAsWritten(FromSeq(s), 0) == NullDereference
  {
  }

  /**
   * Deleting the last position of a list of two or more values unlinks it
   * from its predecessor but leaves tail on the deleted node.
   */
  lemma DeleteAtLastKeepsTail<T>(s: seq<T>)
    requires |s| >= 2
    ensures DeleteAtAsWritten(FromSeq(s), |s| - 1).Returns?
    ensures DeleteAtAsWritten(FromSeq(s), |s| - 1).value.1
    ensures DeleteAtAsWritten(FromSeq(s), |s| - 1).value.0.tail == |s| - 1
    ensures DeleteAtAsWritten(FromSeq(s), |s| - 1).value.0.next[|s| - 2] == Nil
  {
    GetNodeOfSeq(s, |s| - 1);
    GetNodeOfSeq(s, |s| - 2);
    GetNodeOfSeq(s, |s|);
  }

  /**
   * On a list built from s, deleteAt as written answers false and changes
   * nothing out of range, and at every in-range position but 0 it removes
   * exactly the value there, as far as a walk from head can tell.
   */
  lemma DeleteAtOfSeq<T>(s: seq<T>, pos: int)
    ensures !(0 <= pos < |s|) ==> DeleteAtAsWritten(FromSeq(s), pos) == Returns((FromSeq(s), false))
    ensures 0 < pos < |s| ==> DeleteAtAsWritten(FromSeq(s), pos).Returns? && DeleteAtAsWritten(FromSeq(s), pos).value.1
    ensures 0 < pos < |s| ==> Forward(DeleteAtAsWritten(FromSeq(s), pos).value.0) == RemoveAt(s, pos)
  {
    GetNodeOfSeq(s, pos);
    if 0 < pos < |s| {
      DeleteInsideOfSeq(s, pos);
    }
  }

  /** The in-range case of DeleteAtOfSeq, past position 0. */
  lemma DeleteInsideOfSeq<T>(s: seq<T>, pos: int)
    requires 0 < pos < |s|
    ensures DeleteAtAsWritten(FromSeq(s), pos).Returns? && DeleteAtAsWritten(FromSeq(s), pos).value.1
    ensures Forward(DeleteAtAsWritten(FromSeq(s), pos).value.0) == s[..pos] + s[pos + 1..]
  {
    GetNodeOfSeq(s, pos);
    GetNodeOfSeq(s, pos - 1);
    GetNodeOfSeq(s, pos + 1);
    var a := DeleteAtAsWritten(FromSeq(s), pos).value.0;
    assert a.data == s && a.head == 0 && a.next[pos - 1] == (if pos + 1 < |s| then pos + 1 else Nil);
    assert BuiltLinks(a, s, pos - 1);
    ForwardSkip(a, s, pos);
  }

  /** A walk over the nodes of s with node pos - 1 linked past node pos misses exactly s[pos]. */
  lemma ForwardSkip<T>(a: Arena<T>, s: seq<T>, pos: int)
    requires WellFormed(a) && 0 < pos < |s| && a.data == s && a.head == 0
    requires BuiltLinks(a, s, pos - 1) && a.next[pos - 1] == (if pos + 1 < |s| then pos + 1 else Nil)
    ensures Forward(a) == s[..pos] + s[pos + 1..]
  {
    var n := |s|;
    if pos + 1 < n {
      WalkRun(a, pos + 1, n, n - pos);
      assert s[pos + 1..n] == s[pos + 1..];
    } else {
      assert s[pos + 1..] == [];
    }
    WalkRun(a, 0, pos, n);
    assert s[0..pos] == s[..pos];
  }

  /**
   * insertBefore as written, allocating the new node as node |a.data|: it
   * goes first when the list is empty or pos <= 0, after tail when getNode
   * finds no node at pos, and otherwise between the node at pos and the
   * node its prev link names.
   */
  function InsertBeforeAsWritten<T>(a: Arena<T>, pos: int, x: T): (r: Outcome<Arena<T>>)
    requires WellFormed(a)
    ensures r.Returns? ==> WellFormed(r.value) && |r.value.data| == |a.data| + 1
  {
    var n := |a.data|;
    var b := a.(data := a.data + [x], next := a.next + [Nil], prev := a.prev + [Nil]);
    if a.head == Nil then Returns(b.(head := n, tail := n))
    else
      var currNode := GetNode(a, pos);
      if pos <= 0 then
        Returns(b.(next := b.next[n := a.head], prev := b.prev[a.head := n], head := n))
      else if currNode == Nil then
        if a.tail == Nil then NullDereference
        else Returns(b.(prev := b.prev[n := a.tail], next := b.next[a.tail := n], tail := n))
      else
        var prevNode := a.prev[currNode];
        if prevNode == Nil then NullDereference
        else Returns(b.(prev := b.prev[n := prevNode][currNode := n], next := b.next[n := currNode][prevNode := n]))
  }

  /**
   * On a list built from s, insertBefore as written puts x at pos clamped
   * to the list, as its comment promises.
   */
  lemma InsertBeforeOfSeq<T>(s: seq<T>, pos: int, x: T)
    ensures InsertBeforeAsWritten(FromSeq(s), pos, x).Returns?
    ensures Forward(InsertBeforeAsWritten(FromSeq(s), pos, x).value) == InsertAt(s, Clamp(pos, |s|), x)
  {
    InsertAtEnds(s, x);
    if s == [] {
      var b := InsertBeforeAsWritten(FromSeq(s), pos, x).value;
      assert Forward(b) == [x] + Walk(b, Nil, 0);
    } else if pos <= 0 {
      InsertFrontOfSeq(s, pos, x);
    } else if pos >= |s| {
      InsertBackOfSeq(s, pos, x);
    } else {
      InsertMiddleOfSeq(s, pos, x);
    }
  }

  /**
   * Node k of s, as built, links to k + 1 (null for the last node), except
   * at index except, which the caller relinks.
   */
  ghost predicate BuiltLinks<T>(a: Arena<T>, s: seq<T>, except: int)
    requires |a.next| >= |s|
  {
    forall m :: 0 <= m < |s| && m != except ==> a.next[m] == if m + 1 < |s| then m + 1 else Nil
  }

  /** The pos <= 0 case of InsertBeforeOfSeq. */
  lemma InsertFrontOfSeq<T>(s: seq<T>, pos: int, x: T)
    requires |s| > 0 && pos <= 0
    ensures InsertBeforeAsWritten(FromSeq(s), pos, x).Returns?
    ensures Forward(InsertBeforeAsWritten(FromSeq(s), pos, x).value) == [x] + s
  {
    var b := InsertBeforeAsWritten(FromSeq(s), pos, x).value;
    assert b.data == s + [x] && b.head == |s| && b.next[|s|] == 0 && BuiltLinks(b, s, -1);
    ForwardFront(b, s, x);
  }

  lemma ForwardFront<T>(b: Arena<T>, s: seq<T>, x: T)
    requires WellFormed(b) && |s| > 0 && b.data == s + [x] && b.head == |s| && b.next[|s|] == 0
    requires BuiltLinks(b, s, -1)
    ensures Forward(b) == [x] + s
  {
    var n := |s|;
    WalkRun(b, 0, n, n);
    assert Walk(b, 0, n) == s by {
      assert b.data[0..n] == s;
    }
    WalkRun(b, n, n + 1, n + 1);
    assert b.data[n..n + 1] == [x];
  }

  /** The case of InsertBeforeOfSeq where pos is at or past the end. */
  lemma InsertBackOfSeq<T>(s: seq<T>, pos: int, x: T)
    requires 0 < |s| <= pos
    ensures InsertBeforeAsWritten(FromSeq(s), pos, x).Returns?
    ensures Forward(InsertBeforeAsWritten(FromSeq(s), pos, x).value) == s + [x]
  {
    GetNodeOfSeq(s, pos);
    var b := InsertBeforeAsWritten(FromSeq(s), pos, x).value;
    assert b.data == s + [x] && b.head == 0 && b.next[|s| - 1] == |s| && b.next[|s|] == Nil;
    assert BuiltLinks(b, s, |s| - 1);
    ForwardBack(b, s, x);
  }

  lemma ForwardBack<T>(b: Arena<T>, s: seq<T>, x: T)
    requires WellFormed(b) && |s| > 0 && b.data == s + [x] && b.head == 0
    requires BuiltLinks(b, s, |s| - 1) && b.next[|s| - 1] == |s| && b.next[|s|] == Nil
    ensures Forward(b) == s + [x]
  {
    var n := |s|;
    WalkRun(b, 0, n + 1, n + 1);
    assert b.data[0..n + 1] == s + [x];
  }

  /** The case of InsertBeforeOfSeq where pos is inside the list. */
  lemma InsertMiddleOfSeq<T>(s: seq<T>, pos: int, x: T)
    requires 0 < pos < |s|
    ensures InsertBeforeAsWritten(FromSeq(s), pos, x).Returns?
    ensures Forward(InsertBeforeAsWritten(FromSeq(s), pos, x).value) == s[..pos] + [x] + s[pos..]
  {
    GetNodeOfSeq(s, pos);
    var b := InsertBeforeAsWritten(FromSeq(s), pos, x).value;
    assert b.data == s + [x] && b.head == 0 && b.next[pos - 1] == |s| && b.next[|s|] == pos;
    assert BuiltLinks(b, s, pos - 1);
    ForwardMiddle(b, s, pos, x);
  }

  lemma ForwardMiddle<T>(b: Arena<T>, s: seq<T>, pos: int, x: T)
    requires WellFormed(b) && 0 < pos < |s| && b.data == s + [x] && b.head == 0
    requires BuiltLinks(b, s, pos - 1) && b.next[pos - 1] == |s| && b.next[|s|] == pos
    ensures Forward(b) == s[..pos] + [x] + s[pos..]
  {
    var n := |s|;
    WalkFromNew(b, s, pos, x);
    WalkRun(b, 0, pos, n + 1);
    assert b.data[0..pos] == s[..pos];
  }

  /** In ForwardMiddle's heap, the walk from the new node reads x and then s[pos..]. */
  lemma WalkFromNew<T>(b: Arena<T>, s: seq<T>, pos: int, x: T)
    requires WellFormed(b) && 0 < pos < |s| && b.data == s + [x]
    requires BuiltLinks(b, s, pos - 1) && b.next[|s|] == pos
    ensures Walk(b, |s|, |s| + 1 - pos) == [x] + s[pos..]
  {
    var n := |s|;
    WalkRun(b, pos, n, n - pos);
    assert b.data[pos..n] == s[pos..];
    WalkRun(b, n, n + 1, n + 1 - pos);
    assert b.data[n..n + 1] == [x];
  }

  /**
   * After deleting the last of [1, 2], appending 3 links the new node after
   * the stale tail, where it cannot be reached: the list still shows [1]
   * instead of [1, 3].
   */
  lemma StaleTailLosesAppend()
    ensures DeleteAtAsWritten(FromSeq([1, 2]), 1).Returns?
    ensures var a := DeleteAtAsWritten(FromSeq([1, 2]), 1).value.0;
            Forward(a) == [1] &&
            InsertBeforeAsWritten(a, 1, 3).Returns? && Forward(InsertBeforeAsWritten(a, 1, 3).value) == [1] &&
            InsertAt(Forward(a), 1, 3) == [1, 3]
  {
  }

  /**
   * reverse's loop: swaps the links of node curr and moves on to the node
   * that was its successor, stopping after the node whose successor is
   * null; fuel bounds the walk on a cyclic arena.
   */
  function FlipFrom<T>(a: Arena<T>, curr: int, nextNode: int, prevNode: int, fuel: nat): (r: Arena<T>)
    requires WellFormed(a) && 0 <= curr < |a.data| && IsRef(a, nextNode) && IsRef(a, prevNode)
    ensures WellFormed(r) && r.data == a.data && r.head == a.head && r.tail == a.tail
    decreases fuel
  {
    var a1 := a.(prev := a.prev[curr := nextNode], next := a.next[curr := prevNode]);
    if nextNode == Nil || fuel == 0 then a1
    else FlipFrom(a1, nextNode, a1.next[nextNode], a1.prev[nextNode], fuel - 1)
  }

  /** reverse as written: reads head.next before checking that head is not null. */
  function ReverseAsWritten<T>(a: Arena<T>): (r: Outcome<Arena<T>>)
    requires WellFormed(a)
    ensures r.NullDereference? <==> a.head == Nil
  {
    if a.head == Nil then NullDereference
    else
      var currNode := a.head;
      Returns(FlipFrom(a.(head := a.tail, tail := currNode), currNode, a.next[currNode], a.prev[currNode], |a.data|))
  }

  /** Reversing the empty list dereferences null. */
  lemma ReverseEmptyCrashes<T>()
    ensures ReverseAsWritten(FromSeq<T>([])) == NullDereference
  {
  }

  /**
   * The heap of a non-empty list built from s while reverse runs, once the
   * links of nodes 0 .. k - 1 have been swapped: head and tail already trade
   * places, and node k onwards are as built.
   */
  function Partial<T>(s: seq<T>, k: nat): (a: Arena<T>)
    requires |s| > 0
    ensures WellFormed(a) && a.data == s && a.head == |s| - 1 && a.tail == 0
  {
    Arena(s,
          seq(|s|, m => if m < k then m - 1 else if m + 1 < |s| then m + 1 else Nil),
          seq(|s|, m => if m < k then (if m + 1 < |s| then m + 1 else Nil) else m - 1),
          |s| - 1, 0)
  }

  /** From the state after k swaps, reverse's loop swaps the links of every remaining node. */
  lemma {:induction false} FlipFromPartial<T>(s: seq<T>, k: nat, fuel: nat)
    requires k < |s| && fuel >= |s| - 1 - k
    ensures FlipFrom(Partial(s, k), k, if k + 1 < |s| then k + 1 else Nil, k - 1, fuel) == Partial(s, |s|)
    decreases |s| - k
  {
    var a, nextNode := Partial(s, k), if k + 1 < |s| then k + 1 else Nil;
    var a1 := a.(prev := a.prev[k := nextNode], next := a.next[k := k - 1]);
    assert a1.next == Partial(s, k + 1).next && a1.prev == Partial(s, k + 1).prev;
    if k + 1 < |s| {
      FlipFromPartial(s, k + 1, fuel - 1);
    } else {
      assert Partial(s, k + 1) == Partial(s, |s|);
    }
  }

  /** Walking the fully swapped heap from node m reads s[..m + 1] backwards. */
  lemma {:induction false} WalkBackward<T>(s: seq<T>, m: int, fuel: nat)
    requires |s| > 0 && -1 <= m < |s| && fuel >= m + 1
    ensures Walk(Partial(s, |s|), m, fuel) == Reversed(s[..m + 1])
    decreases m + 1
  {
    if m >= 0 {
      WalkBackward(s, m - 1, fuel - 1);
      assert s[..m + 1][..m] == s[..m];
    } else {
      assert s[..m + 1] == [];
    }
  }

  /**
   * On every list built from s, reverse as written dereferences null when
   * s is empty and otherwise leaves the list reading s backwards.
   */
  lemma ReverseOfSeq<T>(s: seq<T>)
    ensures s == [] <==> ReverseAsWritten(FromSeq(s)).NullDereference?
    ensures s != [] ==> Forward(ReverseAsWritten(FromSeq(s)).value) == Reversed(s)
  {
    if s != [] {
      var a := FromSeq(s);
      assert a.(head := a.tail, tail := a.head) == Partial(s, 0);
      FlipFromPartial(s, 0, |s|);
      WalkBackward(s, |s| - 1, |s|);
      assert s[..|s|] == s;
    }
  }

  /** On the values 4, 1, 5, 2, 3 the code as written does reverse the list. */
  lemma ReverseExample()
    ensures ReverseAsWritten(FromSeq([4, 1, 5, 2, 3])).Returns?
    ensures Forward(ReverseAsWritten(FromSeq([4, 1, 5, 2, 3])).value) == [3, 2, 5, 1, 4]
  {
    ReverseOfSeq([4, 1, 5, 2, 3]);
    var s := [4, 1, 5, 2, 3];
    forall i | 0 <= i < 5 ensures Reversed(s)[i] == s[4 - i] {
      ReversedAt(s, i);
    }
  }

  /**
   * After deleting the last of [1, 2], reverse starts from the stale tail,
   * so the deleted value comes back: the list reads [2] instead of [1].
   */
  lemma StaleTailRevivesDeleted()
    ensures DeleteAtAsWritten(FromSeq([1, 2]), 1).Returns?
    ensures var a := DeleteAtAsWritten(FromSeq([1, 2]), 1).value.0;
            Forward(a) == [1] &&
            ReverseAsWritten(a).Returns? && Forward(ReverseAsWritten(a).value) == [2]
  {
  }

  /**
   * The inner loop of makeUnique as written, on the values the list holds:
   * after deleting the copy at j it still advances j, so the element that
   * moved into position j is never compared.
   */
  function DeleteCopiesAsWritten<T(==)>(s: seq<T>, i: nat, j: nat): (r: seq<T>)
    requires i < |s|
    ensures i < |r| <= |s| && r[..i + 1] == s[..i + 1]
    decreases |s| - j
  {
    if j >= |s| then s
    else if s[i] == s[j] && i < j then DeleteCopiesAsWritten(RemoveAt(s, j), i, j + 1)
    else DeleteCopiesAsWritten(s, i, j + 1)
  }

  /** The outer loop of makeUnique as written, from position i on. */
  function MakeUniqueFrom<T(==)>(s: seq<T>, i: nat): (r: seq<T>)
    ensures |r| <= |s|
    decreases |s| - i
  {
    if i >= |s| then s else MakeUniqueFrom(DeleteCopiesAsWritten(s, i, i + 1), i + 1)
  }

  /** makeUnique as written, comparing values (see README for reference equality). */
  function MakeUniqueAsWritten<T(==)>(s: seq<T>): (r: seq<T>)
    ensures |r| <= |s|
  {
    MakeUniqueFrom(s, 0)
  }

  /**
   * On 1, 1, 1 makeUnique as written leaves 1, 1: it removes fewer elements
   * than duplicate removal does and the result still has a repeat.
   */
  lemma MakeUniqueSkipsCopies()
    ensures MakeUniqueAsWritten([1, 1, 1]) == [1, 1]
    ensures !Distinct(MakeUniqueAsWritten([1, 1, 1]))
    ensures Dedup([1, 1, 1]) == [1]
  {
  }

  /** On 3, 4, 1, 4, 2, 3, where no value occurs three times, the code as written removes every repeat. */
  lemma MakeUniqueExample()
    ensures MakeUniqueAsWritten([3, 4, 1, 4, 2, 3]) == [3, 4, 1, 2]
  {
  }

  /**
   * An element as the Java list holds it: a reference to an object, told
   * apart by its identity, carrying a value.
   */
  datatype Boxed = Boxed(id: nat, value: int)

  /**
   * makeUnique compares elements with ==, which compares references: two
   * distinct objects that carry the same value 1000 are both kept, while
   * comparing the values keeps one.
   */
  lemma IdentityKeepsEqualValues()
    ensures MakeUniqueAsWritten([Boxed(0, 1000), Boxed(1, 1000)]) == [Boxed(0, 1000), Boxed(1, 1000)]
    ensures Dedup([Boxed(0, 1000).value, Boxed(1, 1000).value]) == [1000]
  {
  }
}
