# Doubly linked list, modelled and verified in Dafny

This project models the generic `DoublyLinkedList<T>` of `DoublyLinkedList.java`. The list is a chain of `DLLNode`s. Each node holds a value that never changes and two links, `next` and `prev`. The list keeps `head` and `tail` references to the ends of the chain. Its operations are:
- `isEmpty`, `getLength` and `getNode`/`get` (positional lookup);
- `insertBefore(pos, data)`, which clamps `pos` to the list, so a negative position inserts at the head and a position past the end appends;
- `deleteAt(pos)`, which answers whether anything was deleted;
- `reverse`, which flips every link in place;
- `makeUnique`, which deletes later duplicates and keeps the first occurrence of each value.

The project has four modules:

- `ListSpec` (`list_spec.dfy`) is the abstract view: the sequence of values from head to tail. It defines each operation as a function on that sequence: `InsertAt`, `RemoveAt`, `Reversed`, `RemoveAll` and `Dedup`. It also defines an independent reference for `makeUnique` (`FirstOccurrences`) and proves the promised properties about these functions.
- `DoublyLinked` (`doubly_linked_list.dfy`) is the corrected class, written imperatively over heap nodes.
  - `DLLNode` is a class with a constant `data` field and mutable links.
  - `DoublyLinkedList` has `head` and `tail` fields and two ghost fields, `nodes` (the chain) and `elems` (its values).
  - The invariant `Valid()` says the nodes form a doubly linked chain from `head` to `tail` and that node `i` holds `elems[i]`.
  - Every method keeps `Valid()` and states its effect on `elems` through a function of `ListSpec`.
- `AsWritten` (`as_written.dfy`) models the Java methods as written, including their null dereferences. It works over a value model of the heap: an arena of nodes indexed by number, with `-1` for null. Its lemmas show each place where the code breaks what its comments promise. Three things are modelled differently from the code:
  - `makeUnique` is modelled on the sequence of values, and it compares them with `==` on `T`. Reference identity is only simulated, by the `Boxed` values of `IdentityKeepsEqualValues`.
  - `getLength` has no as-written model, because its loop only counts the values that `Forward` reads.
  - The walks along `next` links take a fuel bound of the number of nodes.
- `Scenarios` (`scenarios.dfy`) replays the unit tests of `DoublyLinkedListTest.java` against the verified class, with the contents those tests expect.

The Java class compares elements with `==`, and its tests compare the results of `toString()`. The corrected model compares values and states contents as sequences instead.

## Model

| member | source | states |
|---|---|---|
| DoublyLinked.DLLNode.constructor | DoublyLinkedList.java:56-61 | a new node holds the given value and the given previous and next nodes |
| DoublyLinked.DoublyLinkedList.constructor | DoublyLinkedList.java:71-75 | a new list is valid and holds no values and no nodes |
| DoublyLinked.DoublyLinkedList.IsEmpty | DoublyLinkedList.java:82-86 | the answer is true exactly when the list holds no values, and exactly when head is null |
| DoublyLinked.DoublyLinkedList.GetNode | DoublyLinkedList.java:212-222 | walking from head finds the node at index pos when 0 <= pos < length, and null for every other pos, including on an empty list |
| DoublyLinked.DoublyLinkedList.GetLength | DoublyLinkedList.java:224-234 | counting the nodes from head gives the number of values |
| DoublyLinked.DoublyLinkedList.Get | DoublyLinkedList.java:129-140 | gives Some(the value at pos) in range and None (the documented null) out of range |
| DoublyLinked.DoublyLinkedList.InsertBefore | DoublyLinkedList.java:88-127 | the values become those before with data inserted at pos clamped to 0..length: an empty list becomes [data], pos <= 0 prepends, pos >= length appends; exactly one fresh node joins the chain at that index and the chain stays valid |
| DoublyLinked.DoublyLinkedList.PushFront | DoublyLinkedList.java:108-113 | a fresh node holding data becomes index 0 and the head, and every old node follows in order |
| DoublyLinked.DoublyLinkedList.PushBack | DoublyLinkedList.java:114-119 | a fresh node holding data becomes the last index and the tail, after every old node |
| DoublyLinked.DoublyLinkedList.LinkBefore | DoublyLinkedList.java:120-126 | a fresh node holding data takes index pos, between the old node at pos and its predecessor |
| DoublyLinked.DoublyLinkedList.SplicedChain | DoublyLinkedList.java:120-126 | relinking a new node between two neighbours, with every other link unchanged, yields a valid chain holding the values with data inserted at that index |
| DoublyLinked.DoublyLinkedList.DeleteAt | DoublyLinkedList.java:142-159 | answers true exactly when 0 <= pos < length; then the value and node at pos are removed and the rest keep their order; otherwise nothing changes |
| DoublyLinked.DoublyLinkedList.Unlink | DoublyLinkedList.java:152-158 | linking the two neighbours of the node at pos to each other (head or tail moves when one is missing) removes exactly that value and node |
| DoublyLinked.DoublyLinkedList.UnsplicedChain | DoublyLinkedList.java:154-157 | bypassing one node of a valid chain yields a valid chain holding the values without that index |
| DoublyLinked.DoublyLinkedList.Reverse | DoublyLinkedList.java:161-184 | the values and the nodes end up in reverse order, head and tail trade places, and the chain stays valid, for the empty list as well |
| DoublyLinked.FlipLinks | DoublyLinkedList.java:174-183 | after the loop every node's prev names its old successor and its next its old predecessor, and the ends point to null |
| DoublyLinked.FlippedLinks | DoublyLinkedList.java:172-183 | a chain with every link flipped is a well-formed chain read backwards, from the old tail to the old head |
| DoublyLinked.FlippedChain | DoublyLinkedList.java:172-183 | the flipped chain holds the values reversed |
| DoublyLinked.DoublyLinkedList.MakeUnique | DoublyLinkedList.java:186-210 | the new values are duplicate removal of the old: no value occurs twice, the survivors keep their order, each is the first occurrence of its value, every old value is still present, and no node is added |
| DoublyLinked.DoublyLinkedList.DeleteCopiesAfter | DoublyLinkedList.java:199-208 | the inner loop keeps the values up to i and deletes every later element equal to the value at i, leaving the others in order |
| DoublyLinked.DoublyLinkedList.DeleteCopyOrSkip | DoublyLinkedList.java:201-206 | one step of the inner loop deletes the element at j when it equals the one at i and otherwise moves j on, which advances the scan over the old values by one |
| ListSpec.Clamp | DoublyLinkedList.java:90-94 | a position below zero means index 0, a position at or past the end means the length, and any other position is itself |
| ListSpec.InsertAt | DoublyLinkedList.java:88-98 | the result is one longer, holds x at k, and holds the old values before k and shifted by one after k |
| ListSpec.InsertAtEnds | DoublyLinkedList.java:92-94 | inserting at index 0 prepends and inserting at the length appends |
| ListSpec.RemoveAt | DoublyLinkedList.java:143-145 | the result is one shorter, with the values before k unchanged and those after k shifted down by one |
| ListSpec.RemoveInsertRoundTrip | DoublyLinkedList.java:142-147 | deleting at k what was just inserted at k gives back the list |
| ListSpec.InsertRemoveRoundTrip | DoublyLinkedList.java:142-147 | putting the deleted value back at its index gives back the list |
| ListSpec.ReversedAt | DoublyLinkedList.java:161-166 | index i of the reversal is index length - 1 - i of the original |
| ListSpec.ReversedInvolution | DoublyLinkedList.java:161-166 | reversing twice gives back the original order |
| ListSpec.RemoveAll | DoublyLinkedList.java:199-207 | removing every copy of some values never lengthens the list |
| ListSpec.RemoveAllElements | DoublyLinkedList.java:199-207 | the values left are exactly the old values outside the removed set |
| ListSpec.RemoveAllAppend | DoublyLinkedList.java:199-207 | the removal distributes over concatenation |
| ListSpec.RemoveAllAbsent | DoublyLinkedList.java:199-207 | removing values that do not occur changes nothing |
| ListSpec.RemoveAllTwice | DoublyLinkedList.java:197-209 | two removals in a row are one removal of the union |
| ListSpec.Scanned | DoublyLinkedList.java:199-207 | the state of the inner loop after looking at the positions before p: its length is the scan index plus the unscanned elements |
| ListSpec.ScanIndex | DoublyLinkedList.java:199-207 | the index j of the inner loop lies past i and advances at most once per element looked at |
| ListSpec.ScanStart | DoublyLinkedList.java:199 | before the inner loop nothing is removed and j is i + 1 |
| ListSpec.ScanAt | DoublyLinkedList.java:201-202 | during the inner loop get(i) still reads the value at i and get(j) the next element to examine |
| ListSpec.ScanDrop | DoublyLinkedList.java:203-207 | deleting the copy at j advances the scan, with j left in place |
| ListSpec.ScanKeep | DoublyLinkedList.java:199-203 | passing over a different value advances the scan and j by one |
| ListSpec.ScanFinish | DoublyLinkedList.java:199 | once every element has been examined, all later copies of the value at i are gone |
| ListSpec.RemoveAtWithin | DoublyLinkedList.java:205 | a deletion only drops nodes, so every remaining node was already in the list |
| ListSpec.Dedup | DoublyLinkedList.java:186-191 | duplicate removal never lengthens the list |
| ListSpec.DedupPattern | DoublyLinkedList.java:189-190 | for any four distinct values, the documented example A, B, C, B, D, A becomes A, B, C, D |
| ListSpec.DedupExample | DoublyLinkedListTest.java:113-116 | 3, 4, 1, 4, 2, 3 becomes 3, 4, 1, 2 |
| ListSpec.DedupElements | DoublyLinkedList.java:186-188 | duplicate removal keeps every value that occurs |
| ListSpec.DedupStep | DoublyLinkedList.java:197-209 | one round of the outer loop keeps the invariant: the prefix up to i followed by the de-duplicated rest is unchanged |
| ListSpec.FirstOccurrences | DoublyLinkedList.java:186-191 | a single pass that keeps unseen values holds exactly the values of s that are not already seen |
| ListSpec.FirstOccurrencesAsDedup | DoublyLinkedList.java:186-191 | the single pass equals the nested-scan removal applied after removing the values already seen |
| ListSpec.DedupIsFirstOccurrences | DoublyLinkedList.java:186-191 | duplicate removal keeps exactly the first occurrence of each value, in order |
| ListSpec.FirstOccurrencesDistinct | DoublyLinkedList.java:188 | the first occurrences hold no value twice |
| ListSpec.FirstOccurrencesSubsequence | DoublyLinkedList.java:191 | the first occurrences are a subsequence of the list |
| ListSpec.DedupDistinct | DoublyLinkedList.java:188 | after duplicate removal all values are unique |
| ListSpec.DedupSubsequence | DoublyLinkedList.java:191 | duplicate removal only deletes, and the survivors keep their relative order |
| ListSpec.DedupOfDistinct | DoublyLinkedList.java:188 | a list that is already unique is left unchanged |
| ListSpec.DedupIdempotent | DoublyLinkedList.java:186-191 | removing duplicates twice is the same as once |
| ListSpec.DedupLeastRemovals | DoublyLinkedList.java:188 | no subsequence without duplicates is longer than the result, so the fewest elements are removed |
| ListSpec.SubsequenceElements | DoublyLinkedList.java:191 | a subsequence holds no value that the list does not |
| ListSpec.DistinctCardinality | DoublyLinkedList.java:188 | a list without duplicates has as many values as elements |
| ListSpec.SubsetCardinality | DoublyLinkedList.java:188 | a subset of the values is no larger than the whole set |
| ListSpec.ElementsConcat | DoublyLinkedList.java:191 | the values of a concatenation are those of its two parts |
| ListSpec.ElementsCons | DoublyLinkedList.java:191 | the values of a non-empty list are its first value and those of its tail |
| AsWritten.FromSeq | DoublyLinkedList.java:64-65 | the heap that the list builds for a sequence is well-formed and holds that sequence |
| AsWritten.ForwardFromSeq | DoublyLinkedList.java:269-287 | following next links from head in that heap reads back exactly the sequence |
| AsWritten.WalkFromSeq | DoublyLinkedList.java:275 | walking from node k reads the values from k on |
| AsWritten.Walk | DoublyLinkedList.java:275 | following next links reads at most one value for each step of the bound |
| AsWritten.Forward | DoublyLinkedList.java:269-287 | the walk from head that toString makes reads no more values than the heap has nodes |
| AsWritten.WalkRun | DoublyLinkedList.java:275 | walking a run of nodes that each link to the next reads their values in order, then goes on from wherever the last one links |
| AsWritten.GetNodeFrom | DoublyLinkedList.java:215-221 | the loop of getNode ends on a node of the heap or on null |
| AsWritten.GetNode | DoublyLinkedList.java:212-222 | getNode returns a node of the heap or null |
| AsWritten.GetNodeFromOfSeq | DoublyLinkedList.java:216-220 | on a built list the loop lands steps nodes further on, or on null past the end |
| AsWritten.GetNodeOfSeq | DoublyLinkedList.java:212-222 | getNode finds node pos exactly when pos is in range and returns null otherwise |
| AsWritten.GetAsWritten | DoublyLinkedList.java:136-140 | get at a negative position or on an empty list dereferences null, and a get that returns gives a value the heap holds |
| AsWritten.GetOutOfRangeCrashes | DoublyLinkedList.java:132-139 | get returns the value in range but dereferences null at every position out of range, where its comment promises null |
| AsWritten.DeleteAtAsWritten | DoublyLinkedList.java:150-159 | a deletion that returns leaves a well-formed heap |
| AsWritten.DeleteAtHeadCrashes | DoublyLinkedList.java:154-156 | deleteAt(0) on any non-empty list dereferences the null predecessor |
| AsWritten.DeleteAtLastKeepsTail | DoublyLinkedList.java:154-157 | deleting the last of two or more values unlinks it but leaves tail on the deleted node |
| AsWritten.DeleteAtOfSeq | DoublyLinkedList.java:150-159 | on a built list, deleteAt out of range answers false and leaves the heap as it was, and at every position in range but 0 it answers true and the list then reads the old values without the one at pos |
| AsWritten.DeleteInsideOfSeq | DoublyLinkedList.java:152-158 | deleteAt at a position past 0 and in range answers true, and the list reads the values before pos followed by those after it |
| AsWritten.ForwardSkip | DoublyLinkedList.java:155 | once node pos - 1 links past node pos, the walk from head reads every value except the one at pos |
| AsWritten.InsertBeforeAsWritten | DoublyLinkedList.java:99-127 | an insertion that returns leaves a well-formed heap with one more node |
| AsWritten.InsertBeforeOfSeq | DoublyLinkedList.java:99-127 | on a built list insertBefore never dereferences null, and the list then reads the value inserted at the position clamped to the list |
| AsWritten.InsertFrontOfSeq | DoublyLinkedList.java:108-113 | on a non-empty list, a position of 0 or less puts the value in front of all the others |
| AsWritten.ForwardFront | DoublyLinkedList.java:110-112 | with the new node as head, linked to the old first node, the walk reads the new value and then the old ones |
| AsWritten.InsertBackOfSeq | DoublyLinkedList.java:114-119 | on a non-empty list, a position at or past the end puts the value after all the others |
| AsWritten.ForwardBack | DoublyLinkedList.java:116-118 | with the old last node linked to the new one, the walk reads the old values and then the new one |
| AsWritten.InsertMiddleOfSeq | DoublyLinkedList.java:120-126 | a position strictly inside the list puts the value just before the value that was at that position |
| AsWritten.ForwardMiddle | DoublyLinkedList.java:122-125 | with node pos - 1 linked to the new node and the new node linked to node pos, the walk reads the values before pos, the new value, then the rest |
| AsWritten.WalkFromNew | DoublyLinkedList.java:123-125 | the walk from the new middle node reads the new value and then the values from pos on |
| AsWritten.StaleTailLosesAppend | DoublyLinkedList.java:114-119 | after [1, 2] loses its last value, insertBefore(1, 3) appends after the stale tail, so the list still reads [1] instead of [1, 3] |
| AsWritten.StaleTailRevivesDeleted | DoublyLinkedList.java:154-157 | after [1, 2] loses its last value it reads [1], but reversing it starts from the stale tail and reads [2], which brings back the deleted value |
| AsWritten.FlipFrom | DoublyLinkedList.java:174-183 | the loop of reverse changes only links and keeps the heap well-formed |
| AsWritten.Partial | DoublyLinkedList.java:174-181 | the heap that the loop of reverse has made from a built list after k nodes is well-formed, with head and tail already swapped |
| AsWritten.FlipFromPartial | DoublyLinkedList.java:174-183 | from the state after k nodes, the loop of reverse ends with every node's links flipped |
| AsWritten.WalkBackward | DoublyLinkedList.java:169-183 | in the fully flipped heap, walking from node m reads the values up to m in reverse order |
| AsWritten.ReverseAsWritten | DoublyLinkedList.java:167-184 | reverse dereferences null exactly when the list is empty |
| AsWritten.ReverseOfSeq | DoublyLinkedList.java:167-184 | on a built list, reverse dereferences null exactly when the list is empty, and otherwise the list then reads the values in reverse order |
| AsWritten.ReverseEmptyCrashes | DoublyLinkedList.java:169-170 | reversing the empty list dereferences the null head |
| AsWritten.ReverseExample | DoublyLinkedListTest.java:96-100 | on 4, 1, 5, 2, 3 the code as written returns and the list reads 3, 2, 5, 1, 4 |
| AsWritten.DeleteCopiesAsWritten | DoublyLinkedList.java:199-208 | the inner loop as written keeps the prefix up to i and never lengthens the list |
| AsWritten.MakeUniqueFrom | DoublyLinkedList.java:197-209 | the outer loop as written never lengthens the list |
| AsWritten.MakeUniqueAsWritten | DoublyLinkedList.java:194-210 | makeUnique as written never lengthens the list |
| AsWritten.MakeUniqueSkipsCopies | DoublyLinkedList.java:199-206 | on 1, 1, 1 the code as written leaves 1, 1, which still has a repeat, where duplicate removal gives 1 |
| AsWritten.MakeUniqueExample | DoublyLinkedListTest.java:113-116 | on the test's 3, 4, 1, 4, 2, 3, with no value three times, the code as written gives 3, 4, 1, 2 |
| AsWritten.IdentityKeepsEqualValues | DoublyLinkedList.java:203 | comparing references keeps two distinct objects that carry the same value, where comparing values keeps one |
| Scenarios.EmptyListScenario | DoublyLinkedListTest.java:119-124 | a new list is empty and getNode(0) on it is null |
| Scenarios.FourOneTwoThree | DoublyLinkedListTest.java:40-46 | inserting 1, 2, 3 at positions 0, 1, 2 and then 4 at 0 gives 4, 1, 2, 3 |
| Scenarios.InsertBeforeScenario | DoublyLinkedListTest.java:36-56 | the test's insertions in the middle, at -1, at 7 and at 700 give 7, 4, 5, 6, 1, 2, 3, 8, 9 |
| Scenarios.InsertIntoEmptyScenario | DoublyLinkedListTest.java:58-67 | inserting into an empty list at any position gives 1 |
| Scenarios.DeleteAtScenario | DoublyLinkedListTest.java:70-86 | deleting at -4 and 97 answers false and changes nothing; deleting at 2 answers true and gives 4, 1, 3 |
| Scenarios.ReverseScenario | DoublyLinkedListTest.java:88-101 | reversing 4, 1, 5, 2, 3 gives 3, 2, 5, 1, 4 |
| Scenarios.MakeUniqueScenario | DoublyLinkedListTest.java:103-117 | makeUnique on 3, 4, 1, 4, 2, 3 gives 3, 4, 1, 2 |
| Scenarios.ReverseTwice | DoublyLinkedList.java:161-166 | reversing any list twice restores its values, its head and its tail |

## Left out

- `toString` (lines 237-287) produces text. The model states list contents as sequences, and `AsWritten.Forward` reads a heap the way `toString` walks it.
- The unused imports of `Iterator`, `ListIterator` and `NoSuchElementException`, and the `Comparable` bound on `T`, play no part in any operation.
- `DoublyLinked.DoublyLinkedList.Get` returns `Option` instead of a nullable `T`. `None` is the null that the comment at line 132 promises.
- `DoublyLinked.DoublyLinkedList.MakeUnique` compares elements by value. The Java `==` compares references (see Findings). With value comparison, the corrected method follows the documented intent at lines 186-191.
- Positions are unbounded integers. Java `int` arithmetic (`pos - 1`, `pos + 1`) could only overflow for lists of more than 2^31 nodes, which the model does not consider.
- `AsWritten.Walk` and `AsWritten.FlipFrom` take a fuel bound of the number of nodes. The source loops forever on a cyclic heap, which the model does not capture. Such a heap cannot arise from the corrected operations.
- `AsWritten` models `makeUnique` on the sequence of values, not on the arena. The stale tail left by its deletions does not affect the values that `get` and `getLength` read.
- AsWritten.DeleteAtAsWritten, AsWritten.InsertBeforeAsWritten, AsWritten.FlipFrom, AsWritten.ReverseAsWritten, AsWritten.GetNodeFrom: their own contracts state only that the heap stays well-formed, and for ReverseAsWritten when it dereferences null. On every heap that `FromSeq` builds, what they compute is proved by DeleteAtOfSeq, InsertBeforeOfSeq, ReverseOfSeq and GetNodeFromOfSeq. deleteAt(0) is the exception: DeleteAtHeadCrashes shows it dereferences null. On heaps left behind by earlier as-written calls, such as a stale tail, their results are shown only on the inputs that StaleTailLosesAppend and StaleTailRevivesDeleted name.
- AsWritten.DeleteCopiesAsWritten, AsWritten.MakeUniqueFrom, AsWritten.MakeUniqueAsWritten: their own contracts give only length bounds, because the code as written does not remove all duplicates. Its behaviour is shown on concrete inputs by MakeUniqueSkipsCopies and MakeUniqueExample.
- `DoublyLinked.DoublyLinkedList.PushFront`, `PushBack`, `LinkBefore`, `Unlink` and `DeleteCopiesAfter` are the branches and inner loop of the Java methods, split out as methods of their own. The Java code has them inline.

## Findings

| source | as written | input that shows it | evidently intended | confidence | as-written member | corrected member |
|---|---|---|---|---|---|---|
| DoublyLinkedList.java:136-140 | `get` dereferences the node that `getNode` returns, even when it is null | `get(5)` on a list of 2 values, or `get(-1)` | return null out of range, as the comment at line 132 says | not executed | AsWritten.GetOutOfRangeCrashes | DoublyLinked.DoublyLinkedList.Get |
| DoublyLinkedList.java:150-159 | `deleteAt(0)` sets `prevNode.next` on the null predecessor, and `head` is never moved | `deleteAt(0)` on [4, 1, 2, 3] | remove the first value and move `head` to its successor | not executed | AsWritten.DeleteAtHeadCrashes | DoublyLinked.DoublyLinkedList.DeleteAt |
| DoublyLinkedList.java:154-157 | deleting the last node never moves `tail`, so a later append is linked after the removed node and lost, and a later reverse starts from the removed node and brings its value back | [1, 2]: `deleteAt(1)` then `insertBefore(1, 3)` reads [1], not [1, 3] | move `tail` to the predecessor | not executed | AsWritten.StaleTailLosesAppend | DoublyLinked.DoublyLinkedList.DeleteAt |
| DoublyLinkedList.java:167-171 | `reverse` reads `head.next` before checking for an empty list | `reverse()` on a new list | an empty list stays empty | not executed | AsWritten.ReverseEmptyCrashes | DoublyLinked.DoublyLinkedList.Reverse |
| DoublyLinkedList.java:199-207 | after `deleteAt(j)` the loop still advances `j`, so the element that moved into position j is never compared | [1, 1, 1] becomes [1, 1] | [1], with all values unique as the comment at line 188 says | not executed | AsWritten.MakeUniqueSkipsCopies | DoublyLinked.DoublyLinkedList.MakeUnique |
| DoublyLinkedList.java:203 | `a == b` compares references, not values | two distinct `Integer` objects holding 1000 | compare with `equals` (or `compareTo`), as the `Comparable` bound suggests | not executed | AsWritten.IdentityKeepsEqualValues | DoublyLinked.DoublyLinkedList.MakeUnique |
