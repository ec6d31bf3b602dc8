/**
 * The abstract view of a doubly linked list: the sequence of element values
 * read from head to tail. Every operation of the list is specified here as a
 * function on that sequence, and the properties the list promises are proved
 * about those functions.
 */
module ListSpec {

  /** The "not found" answer of a positional lookup (the source's null). */
  datatype Option<T> = None | Some(value: T)

  /**
   * The index at which insertBefore(pos, x) places x in a list of length n:
   * positions below zero go to the head, positions at or past the end go to
   * the tail.
   */
  function Clamp(pos: int, n: nat): (k: nat)
    ensures k <= n
    ensures 0 <= pos <= n ==> k == pos
    ensures pos <= 0 ==> k == 0
    ensures n <= pos ==> k == n
  {
    if pos <= 0 then 0 else if pos >= n then n else pos
  }

  /** s with x inserted so that it occupies index k. */
  function InsertAt<T>(s: seq<T>, k: nat, x: T): (r: seq<T>)
    requires k <= |s|
    ensures |r| == |s| + 1
    ensures r[k] == x
    ensures forall i :: 0 <= i < k ==> r[i] == s[i]
    ensures forall i :: k < i < |r| ==> r[i] == s[i - 1]
  {
    s[..k] + [x] + s[k..]
  }

  /** Inserting at index 0 prepends and inserting at the length appends. */
  lemma InsertAtEnds<T>(s: seq<T>, x: T)
    ensures InsertAt(s, 0, x) == [x] + s
    ensures InsertAt(s, |s|, x) == s + [x]
  {
  }

  /** s without the element at index k. */
  function RemoveAt<T>(s: seq<T>, k: nat): (r: seq<T>)
    requires k < |s|
    ensures |r| == |s| - 1
    ensures forall i :: 0 <= i < k ==> r[i] == s[i]
    ensures forall i :: k <= i < |r| ==> r[i] == s[i + 1]
  {
    s[..k] + s[k + 1..]
  }

  /** Removing what was just inserted gives back the original sequence. */
  lemma {:induction false} RemoveInsertRoundTrip<T>(s: seq<T>, k: nat, x: T)
    requires k <= |s|
    ensures RemoveAt(InsertAt(s, k, x), k) == s
  {
  }

  /** Re-inserting the removed element at its index gives back the original. */
  lemma {:induction false} InsertRemoveRoundTrip<T>(s: seq<T>, k: nat)
    requires k < |s|
    ensures InsertAt(RemoveAt(s, k), k, s[k]) == s
  {
  }

  /** The sequence read backwards. */
  function Reversed<T>(s: seq<T>): (r: seq<T>)
    ensures |r| == |s|
    decreases |s|
  {
    if s == [] then [] else [s[|s| - 1]] + Reversed(s[..|s| - 1])
  }

  /** Index i of the reversal is index |s| - 1 - i of the original. */
  lemma {:induction false} ReversedAt<T>(s: seq<T>, i: int)
    requires 0 <= i < |s|
    ensures Reversed(s)[i] == s[|s| - 1 - i]
    decreases |s|
  {
    if i > 0 {
      ReversedAt(s[..|s| - 1], i - 1);
    }
  }

  /** Reversing twice restores the original order. */
  lemma {:induction false} ReversedInvolution<T>(s: seq<T>)
    ensures Reversed(Reversed(s)) == s
  {
    var r := Reversed(s);
    forall i | 0 <= i < |s| ensures Reversed(r)[i] == s[i] {
      ReversedAt(r, i);
      ReversedAt(s, |s| - 1 - i);
    }
  }

  /** No value occurs twice. */
  predicate Distinct<T(==)>(s: seq<T>) {
    forall i, j :: 0 <= i < j < |s| ==> s[i] != s[j]
  }

  /** The set of values that occur in s. */
  function Elements<T>(s: seq<T>): set<T> {
    set y | y in s
  }

  lemma ElementsConcat<T>(a: seq<T>, b: seq<T>)
    ensures Elements(a + b) == Elements(a) + Elements(b)
  {
  }

  /** The values of a non-empty sequence are its first value and those of its tail. */
  lemma ElementsCons<T>(s: seq<T>)
    requires s != []
    ensures Elements(s) == {s[0]} + Elements(s[1..])
  {
  }

  /** a can be obtained from b by deleting elements, keeping the order. */
  predicate IsSubsequence<T(==)>(a: seq<T>, b: seq<T>)
    decreases |b|
  {
    a == [] ||
    (b != [] && ((a[0] == b[0] && IsSubsequence(a[1..], b[1..])) || IsSubsequence(a, b[1..])))
  }

  /** s without every occurrence of the values in A, the rest in order. */
  function RemoveAll<T(==)>(s: seq<T>, A: set<T>): (r: seq<T>)
    ensures |r| <= |s|
    decreases |s|
  {
    if s == [] then []
    else (if s[0] in A then [] else [s[0]]) + RemoveAll(s[1..], A)
  }

  /** RemoveAll keeps exactly the values outside A. */
  lemma {:induction false} RemoveAllElements<T>(s: seq<T>, A: set<T>)
    ensures Elements(RemoveAll(s, A)) == Elements(s) - A
    decreases |s|
  {
    if s != [] {
      RemoveAllElements(s[1..], A);
      ElementsCons(s);
      ElementsConcat(if s[0] in A then [] else [s[0]], RemoveAll(s[1..], A));
    }
  }

  lemma {:induction false} RemoveAllAppend<T>(a: seq<T>, b: seq<T>, A: set<T>)
    ensures RemoveAll(a + b, A) == RemoveAll(a, A) + RemoveAll(b, A)
    decreases |a|
  {
    if a == [] {
      assert a + b == b;
    } else {
      assert (a + b)[0] == a[0] && (a + b)[1..] == a[1..] + b;
      RemoveAllAppend(a[1..], b, A);
    }
  }

  /** Removing values that do not occur changes nothing. */
  lemma {:induction false} RemoveAllAbsent<T>(s: seq<T>, A: set<T>)
    requires forall i :: 0 <= i < |s| ==> s[i] !in A
    ensures RemoveAll(s, A) == s
    decreases |s|
  {
    if s != [] {
      RemoveAllAbsent(s[1..], A);
    }
  }

  /** Two removals in a row are one removal of the union. */
  lemma {:induction false} RemoveAllTwice<T>(s: seq<T>, A: set<T>, B: set<T>)
    ensures RemoveAll(RemoveAll(s, A), B) == RemoveAll(s, A + B)
    decreases |s|
  {
    if s != [] {
      RemoveAllTwice(s[1..], A, B);
      var t := RemoveAll(s, A);
      if s[0] in A {
        assert t == RemoveAll(s[1..], A);
        assert RemoveAll(s, A + B) == RemoveAll(s[1..], A + B);
      } else {
        assert t == [s[0]] + RemoveAll(s[1..], A);
        assert t[0] == s[0] && t[1..] == RemoveAll(s[1..], A);
      }
    }
  }

  /**
   * The inner scan of duplicate removal after it has looked at s[i + 1..p]:
   * the copies of s[i] found there are gone and the rest is untouched.
   */
  function Scanned<T(==)>(s: seq<T>, i: nat, p: nat): (r: seq<T>)
    requires i < p <= |s|
    ensures |r| == ScanIndex(s, i, p) + |s| - p
  {
    s[..i + 1] + RemoveAll(s[i + 1..p], {s[i]}) + s[p..]
  }

  /** The position in Scanned(s, i, p) of the element s[p] the scan looks at next. */
  function ScanIndex<T(==)>(s: seq<T>, i: nat, p: nat): (j: nat)
    requires i < p <= |s|
    ensures i < j <= i + 1 + (p - (i + 1))
  {
    i + 1 + |RemoveAll(s[i + 1..p], {s[i]})|
  }

  /** Before the scan nothing has been removed. */
  lemma ScanStart<T>(s: seq<T>, i: nat)
    requires i < |s|
    ensures Scanned(s, i, i + 1) == s && ScanIndex(s, i, i + 1) == i + 1
  {
  }

  /** A scan that has looked at every element has removed every copy of s[i]. */
  lemma ScanFinish<T>(s: seq<T>, i: nat)
    requires i < |s|
    ensures Scanned(s, i, |s|) == s[..i + 1] + RemoveAll(s[i + 1..], {s[i]})
  {
    assert s[|s|..] == [] && s[i + 1..|s|] == s[i + 1..];
  }

  /** During the scan, position i still holds s[i] and ScanIndex holds s[p]. */
  lemma ScanAt<T>(s: seq<T>, i: nat, p: nat)
    requires i < p < |s|
    ensures Scanned(s, i, p)[i] == s[i]
    ensures Scanned(s, i, p)[ScanIndex(s, i, p)] == s[p]
  {
  }

  /** Deleting the copy of s[i] at the scan position advances the scan. */
  lemma {:induction false} ScanDrop<T>(s: seq<T>, i: nat, p: nat)
    requires i < p < |s| && s[p] == s[i]
    ensures RemoveAt(Scanned(s, i, p), ScanIndex(s, i, p)) == Scanned(s, i, p + 1)
    ensures ScanIndex(s, i, p + 1) == ScanIndex(s, i, p)
  {
    var X, kept := {s[i]}, RemoveAll(s[i + 1..p], {s[i]});
    assert s[i + 1..p + 1] == s[i + 1..p] + [s[p]];
    RemoveAllAppend(s[i + 1..p], [s[p]], X);
    assert RemoveAll([s[p]], X) == [];
    assert RemoveAll(s[i + 1..p + 1], X) == kept;
    var r := Scanned(s, i, p);
    assert r[..ScanIndex(s, i, p)] == s[..i + 1] + kept;
    assert r[ScanIndex(s, i, p) + 1..] == s[p + 1..];
  }

  /** Passing over an element that differs from s[i] advances the scan. */
  lemma {:induction false} ScanKeep<T>(s: seq<T>, i: nat, p: nat)
    requires i < p < |s| && s[p] != s[i]
    ensures Scanned(s, i, p + 1) == Scanned(s, i, p)
    ensures ScanIndex(s, i, p + 1) == ScanIndex(s, i, p) + 1
  {
    var X, kept := {s[i]}, RemoveAll(s[i + 1..p], {s[i]});
    assert s[i + 1..p + 1] == s[i + 1..p] + [s[p]];
    RemoveAllAppend(s[i + 1..p], [s[p]], X);
    assert RemoveAll([s[p]], X) == [s[p]];
    assert s[p..] == [s[p]] + s[p + 1..];
  }

  /** Removing an element keeps every remaining element inside a bound. */
  lemma RemoveAtWithin<T>(s: seq<T>, j: nat, b: seq<T>)
    requires j < |s|
    requires forall k :: 0 <= k < |s| ==> s[k] in b
    ensures forall k :: 0 <= k < |RemoveAt(s, j)| ==> RemoveAt(s, j)[k] in b
  {
  }

  /**
   * Duplicate removal in the shape of the list's own nested scan: keep the
   * first element and drop every later element equal to it, then continue
   * with what remains.
   */
  function Dedup<T(==)>(s: seq<T>): (r: seq<T>)
    ensures |r| <= |s|
    decreases |s|
  {
    if s == [] then [] else [s[0]] + Dedup(RemoveAll(s[1..], {s[0]}))
  }

  /**
   * Duplicate removal on the pattern a, b, c, b, d, a of four distinct
   * values keeps a, b, c, d.
   */
  lemma DedupPattern<T>(a: T, b: T, c: T, d: T)
    requires a != b && a != c && a != d && b != c && b != d && c != d
    ensures Dedup([a, b, c, b, d, a]) == [a, b, c, d]
  {
    assert RemoveAll([d], {c}) == [d] by {
      assert RemoveAll([d], {c}) == [d] + RemoveAll([], {c});
    }
    assert Dedup([d]) == [d] by {
      assert Dedup([d]) == [d] + Dedup(RemoveAll([], {d}));
    }
    assert Dedup([c, d]) == [c, d] by {
      assert [c, d][1..] == [d];
    }
    assert RemoveAll([c, b, d], {b}) == [c, d] by {
      assert [c, b, d][1..] == [b, d] && [b, d][1..] == [d];
      assert RemoveAll([d], {b}) == [d] + RemoveAll([], {b});
    }
    assert Dedup([b, c, b, d]) == [b, c, d] by {
      assert [b, c, b, d][1..] == [c, b, d];
    }
    assert RemoveAll([b, c, b, d, a], {a}) == [b, c, b, d] by {
      assert [b, c, b, d, a] == [b, c, b, d] + [a];
      RemoveAllAppend([b, c, b, d], [a], {a});
      RemoveAllAbsent([b, c, b, d], {a});
      assert RemoveAll([a], {a}) == RemoveAll([], {a});
    }
    assert [a, b, c, b, d, a][1..] == [b, c, b, d, a];
  }

  /** Duplicate removal turns 3, 4, 1, 4, 2, 3 into 3, 4, 1, 2. */
  lemma DedupExample()
    ensures Dedup([3, 4, 1, 4, 2, 3]) == [3, 4, 1, 2]
  {
    DedupPattern(3, 4, 1, 2);
  }

  /** Duplicate removal keeps every value. */
  lemma {:induction false} DedupElements<T>(s: seq<T>)
    ensures Elements(Dedup(s)) == Elements(s)
    decreases |s|
  {
    if s != [] {
      var t := RemoveAll(s[1..], {s[0]});
      DedupElements(t);
      RemoveAllElements(s[1..], {s[0]});
      ElementsCons(s);
      ElementsConcat([s[0]], Dedup(t));
    }
  }

  /**
   * One round of the outer scan: once the copies of s[i] after i are
   * removed, the prefix up to i + 1 followed by Dedup of the rest is what
   * s[..i] followed by Dedup of s[i..] was.
   */
  lemma DedupStep<T>(s: seq<T>, i: nat)
    requires i < |s|
    ensures var t := s[..i + 1] + RemoveAll(s[i + 1..], {s[i]});
            t[..i + 1] + Dedup(t[i + 1..]) == s[..i] + Dedup(s[i..])
  {
  }

  /**
   * The reference definition: one pass over s with a set of values already
   * seen, keeping exactly the elements that occur for the first time.
   */
  function FirstOccurrences<T(==)>(s: seq<T>, seen: set<T>): (r: seq<T>)
    ensures Elements(r) == Elements(s) - seen
    decreases |s|
  {
    if s == [] then []
    else if s[0] in seen then ElementsCons(s); FirstOccurrences(s[1..], seen)
    else
      var rest := FirstOccurrences(s[1..], seen + {s[0]});
      ElementsCons(s);
      ElementsConcat([s[0]], rest);
      [s[0]] + rest
  }

  lemma {:induction false} FirstOccurrencesAsDedup<T>(s: seq<T>, seen: set<T>)
    ensures FirstOccurrences(s, seen) == Dedup(RemoveAll(s, seen))
    decreases |s|
  {
    if s != [] {
      if s[0] in seen {
        FirstOccurrencesAsDedup(s[1..], seen);
        assert RemoveAll(s, seen) == RemoveAll(s[1..], seen);
      } else {
        FirstOccurrencesAsDedup(s[1..], seen + {s[0]});
        var t := RemoveAll(s, seen);
        assert t == [s[0]] + RemoveAll(s[1..], seen);
        assert t[1..] == RemoveAll(s[1..], seen);
        RemoveAllTwice(s[1..], seen, {s[0]});
      }
    }
  }

  /**
   * The nested-scan de-duplication keeps exactly the first occurrence of
   * each value, in the original order.
   */
  lemma DedupIsFirstOccurrences<T>(s: seq<T>)
    ensures Dedup(s) == FirstOccurrences(s, {})
  {
    FirstOccurrencesAsDedup(s, {});
    RemoveAllAbsent(s, {});
  }

  lemma {:induction false} FirstOccurrencesDistinct<T>(s: seq<T>, seen: set<T>)
    ensures Distinct(FirstOccurrences(s, seen))
    decreases |s|
  {
    if s != [] {
      FirstOccurrencesDistinct(s[1..], seen + {s[0]});
      FirstOccurrencesDistinct(s[1..], seen);
    }
  }

  lemma {:induction false} FirstOccurrencesSubsequence<T>(s: seq<T>, seen: set<T>)
    ensures IsSubsequence(FirstOccurrences(s, seen), s)
    decreases |s|
  {
    if s != [] {
      if s[0] in seen {
        FirstOccurrencesSubsequence(s[1..], seen);
      } else {
        FirstOccurrencesSubsequence(s[1..], seen + {s[0]});
        var r := FirstOccurrences(s, seen);
        assert r[0] == s[0] && r[1..] == FirstOccurrences(s[1..], seen + {s[0]});
      }
    }
  }

  /** After duplicate removal no value occurs twice. */
  lemma DedupDistinct<T>(s: seq<T>)
    ensures Distinct(Dedup(s))
  {
    DedupIsFirstOccurrences(s);
    FirstOccurrencesDistinct(s, {});
  }

  /** Duplicate removal only deletes elements; the survivors keep their order. */
  lemma DedupSubsequence<T>(s: seq<T>)
    ensures IsSubsequence(Dedup(s), s)
  {
    DedupIsFirstOccurrences(s);
    FirstOccurrencesSubsequence(s, {});
  }

  /** A list without duplicates is left as it is. */
  lemma {:induction false} DedupOfDistinct<T>(s: seq<T>)
    requires Distinct(s)
    ensures Dedup(s) == s
    decreases |s|
  {
    if s != [] {
      forall i | 0 <= i < |s[1..]| ensures s[1..][i] !in {s[0]} {
        assert s[1..][i] == s[i + 1];
      }
      RemoveAllAbsent(s[1..], {s[0]});
      DedupOfDistinct(s[1..]);
    }
  }

  /** Removing duplicates twice is the same as removing them once. */
  lemma DedupIdempotent<T>(s: seq<T>)
    ensures Dedup(Dedup(s)) == Dedup(s)
  {
    DedupDistinct(s);
    DedupOfDistinct(Dedup(s));
  }

  lemma {:induction false} SubsequenceElements<T>(a: seq<T>, b: seq<T>)
    requires IsSubsequence(a, b)
    ensures Elements(a) <= Elements(b)
    decreases |b|
  {
    if a != [] {
      ElementsCons(b);
      if a[0] == b[0] && IsSubsequence(a[1..], b[1..]) {
        SubsequenceElements(a[1..], b[1..]);
        ElementsCons(a);
      } else {
        SubsequenceElements(a, b[1..]);
      }
    }
  }

  /** A sequence without duplicates has as many elements as values. */
  lemma {:induction false} DistinctCardinality<T>(s: seq<T>)
    requires Distinct(s)
    ensures |Elements(s)| == |s|
    decreases |s|
  {
    if s != [] {
      DistinctCardinality(s[1..]);
      assert s == [s[0]] + s[1..];
      assert Elements(s) == {s[0]} + Elements(s[1..]);
      forall j | 0 <= j < |s[1..]| ensures s[1..][j] != s[0] {
        assert s[1..][j] == s[j + 1];
      }
    }
  }

  lemma {:induction false} SubsetCardinality<T>(A: set<T>, B: set<T>)
    requires A <= B
    ensures |A| <= |B|
    decreases |A|
  {
    if A != {} {
      var x :| x in A;
      SubsetCardinality(A - {x}, B - {x});
    }
  }

  /**
   * Duplicate removal deletes the least number of elements: every
   * subsequence of s without duplicates is at most as long as Dedup(s).
   */
  lemma DedupLeastRemovals<T>(s: seq<T>, r: seq<T>)
    requires IsSubsequence(r, s) && Distinct(r)
    ensures |s| - |Dedup(s)| <= |s| - |r|
  {
    DedupDistinct(s);
    DistinctCardinality(Dedup(s));
    DistinctCardinality(r);
    SubsequenceElements(r, s);
    DedupElements(s);
    SubsetCardinality(Elements(r), Elements(s));
  }
}
