# DSA-2025 data structures in Dafny

This project models the textbook data structures of the DSA-2025 exercises and notes.
The modelled structures are:

- hash tables (separate chaining, linear probing and the append-only course table);
- singly and doubly linked lists;
- array and linked stacks; array, object-indexed and linked queues;
- a circular queue, a sorted priority queue and a deque;
- the monotonic-stack and deque algorithms;
- array binary heaps, heapify and heap sort;
- binary search trees and the recursive tree measures;
- a trie;
- adjacency-list graphs with their traversals, cycle tests and topological sort.

Each source component is one Dafny module. Code that mutates objects is modelled as a `class` whose methods change its fields. Node chains are real `Node` objects, described by a ghost sequence of nodes, a ghost `Contents` sequence of values and a `Repr` footprint. Growable JS arrays are `seq` fields that the methods reassign, and JS objects used as dictionaries are `map`s. Every method is proved against a specification function or predicate, and lemmas prove what the source promises about that specification.

Modules and files:

- `Wrappers` (wrappers.dfy): `Option`, standing for `null`/`undefined`.
- `Nodes` (nodes.dfy): the singly linked `Node` class and the chain predicates.
- `Orders` (orders.dfy): `Ascending`.
- `StringHash` (string_hash.dfy): `simpleHash` and `_hash`.
- `HashTableNotes` (hash_table_notes.dfy): the chaining table, the probing table, `twoSum` and `firstUniqueChar`.
- `CourseHashTable` (course_hash_table.dfy): the course table from `01_constructor.js`, `02_set.js` and `03_get.js`.
- `NotesLinkedList`, `NotesDoublyLinkedList` and `CourseLinkedList` (linked_list_notes.dfy, doubly_linked_list.dfy, linked_list_course.dfy).
  - The course list files `06_get.js`, `07_set.js` and `08_insert.js` are successive copies of `10_reverse.js` with fewer methods. They are modelled once, with one example per file.
- `NotesStacks`, `Parentheses`, `StackProblems` and `CourseStack` (stacks.dfy, parentheses.dfy, stack_problems.dfy, course_stack.dfy).
- `NotesQueues`, `SlidingWindow` and `CourseQueue` (queues.dfy, sliding_window.dfy, course_queue.dfy).
- `Heaps` (heaps.dfy) and `TreeHeap` (tree_heap.dfy).
- `TreeShapes` (tree_shapes.dfy): the tree node class, a ghost `Shape` that mirrors a linked tree, and the insertion walk shared by both search trees.
- `NotesBST`, `CourseBST`, `TreeAlgorithms` and `Tries` (bst_notes.dfy, bst_course.dfy, tree_algorithms.dfy, trie.dfy).
- `GraphPaths` (graph_paths.dfy): walks, reachability and cycles over `map<string, seq<string>>`.
- `GraphNotes`, `GraphCycles`, `UndirectedCycles` and `CourseGraph` (graph_notes.dfy, graph_cycles.dfy, graph_undirected.dfy, course_graph.dfy).

The modelling choices below follow the code:

- **Vertex order in `for..in`.** The outer loops of the graph searches go over `for..in` vertex order, which is a property of the JS engine. They pick the next unvisited vertex with `:|`, so every result is proved for any order.
- **Probing delete.** The probing table's `delete` nulls the slot, with no tombstone. The model keeps the code as written, proves that this can hide a stored key, and proves the tombstone version correct (see "Findings").

## Model

| member | source | states |
|---|---|---|
| StringHash.HashOf | 00_DSA-Notes/05_hashTable.js:82-88 | the hash of any key is an index of the table: `0 <= h < size` |
| StringHash.SimpleHash | 00_DSA-Notes/05_hashTable.js:82-88 | the accumulator loop returns `HashOf(key, size)`, which lies in `[0, size)` and is 0 for the empty key |
| StringHash.HashIsScaledCodeSum | 00_DSA-Notes/05_hashTable.js:82-88 | reducing modulo `size` at every step equals `(23 * sum of char codes) % size` |
| StringHash.HashSnoc | 00_DSA-Notes/05_hashTable.js:84-86 | one more character is one accumulator step `(h + code * 23) % size` |
| HashTableNotes.FirstIndex | 00_DSA-Notes/05_hashTable.js:116-121 | the index where the bucket scan stops holds the key and no earlier pair does |
| HashTableNotes.Upsert | 00_DSA-Notes/05_hashTable.js:111-124 | the bucket after `set`: the key is then present; the length stays when the key was there and grows by one otherwise; pairs of other keys keep their places; no pair but `[key, value]` is new |
| HashTableNotes.RemoveFirst | 00_DSA-Notes/05_hashTable.js:143-149 | the bucket after `delete`: one pair shorter when the key was present, the same length otherwise, and no pair is new |
| HashTableNotes.Cyc | 00_DSA-Notes/05_hashTable.js:185 | stepping `(index + 1) % size` from a slot always stays inside the table |
| HashTableNotes.UpsertFinds | 00_DSA-Notes/05_hashTable.js:107-136 | after `set(k, v)` the bucket answers `v` for `k` |
| HashTableNotes.UpsertKeepsOthers | 00_DSA-Notes/05_hashTable.js:107-136 | `set(k, v)` changes the answer for no other key |
| HashTableNotes.UpsertShape | 00_DSA-Notes/05_hashTable.js:111-124 | `set` on a present key overwrites in place, same length; on a new key appends `[k, v]` at the end; keys stay distinct |
| HashTableNotes.RemoveFirstDrops | 00_DSA-Notes/05_hashTable.js:139-151 | after `delete(k)` no pair for `k` remains, the bucket loses exactly one pair iff `k` was there, and hashing of the rest is kept |
| HashTableNotes.RemoveFirstKeepsOthers | 00_DSA-Notes/05_hashTable.js:139-151 | `delete(k)` changes the answer for no other key |
| HashTableNotes.ChainingTable.constructor | 00_DSA-Notes/05_hashTable.js:96-99 | `size` empty buckets, so every key is absent |
| HashTableNotes.UpsertTable | 00_DSA-Notes/05_hashTable.js:107-125 | after `set(k, v)` every bucket still holds distinct keys hashing to it, `k` finds `v`, every other key keeps its answer |
| HashTableNotes.ChainingTable.Set | 00_DSA-Notes/05_hashTable.js:107-125 | only bucket `hash(k)` changes, to `Upsert`; `get(k)` is then `v` and every other key keeps its answer |
| HashTableNotes.ChainingTable.Get | 00_DSA-Notes/05_hashTable.js:128-136 | the value of the first pair holding the key in its bucket, or none |
| HashTableNotes.ChainingTable.Delete | 00_DSA-Notes/05_hashTable.js:139-151 | true iff the key was present; only its bucket changes; the key is then absent and other keys keep their answers |
| HashTableNotes.Offset | 00_DSA-Notes/05_hashTable.js:185 | the number of `(index + 1) % size` steps leading from one slot to another |
| HashTableNotes.NextSlot | 00_DSA-Notes/05_hashTable.js:185 | one probing step moves one slot further along the cycle from the hash |
| HashTableNotes.ProbeSlot | 00_DSA-Notes/05_hashTable.js:180-213 | the three probing loops stop at the first slot, cyclically from the hash, that is `null` or holds the key |
| HashTableNotes.ProbeGet | 00_DSA-Notes/05_hashTable.js:191-199 | a found value is stored in some slot under the key |
| HashTableNotes.ProbeGetFindsStored | 00_DSA-Notes/05_hashTable.js:191-199 | with intact probe chains `get` finds every stored pair at the slot where it is stored |
| HashTableNotes.ChainsUniqueKeys | 00_DSA-Notes/05_hashTable.js:180-189 | with intact probe chains a key is stored in at most one slot |
| HashTableNotes.ProbeSetKeepsChains | 00_DSA-Notes/05_hashTable.js:180-189 | `set` keeps every probe chain intact |
| HashTableNotes.ProbeSetThenGet | 00_DSA-Notes/05_hashTable.js:180-199 | after `set(k, v)`, `get(k)` answers `v` |
| HashTableNotes.ProbeDeleteAsWrittenLosesKey | 00_DSA-Notes/05_hashTable.js:201-213 | a two-slot table where `delete("a")` hides the still-stored "c" from `get` |
| HashTableNotes.ProbeDeleteKeepsChains | 00_DSA-Notes/05_hashTable.js:201-213 | the tombstone delete keeps every chain intact, removes the key, and reports true iff it was stored |
| HashTableNotes.ProbingTable.constructor | 00_DSA-Notes/05_hashTable.js:171-174 | `size` null slots, chains trivially intact |
| HashTableNotes.ProbingTable.Probe | 00_DSA-Notes/05_hashTable.js:184-186 | the probing loop returns `ProbeSlot` |
| HashTableNotes.ProbingTable.Set | 00_DSA-Notes/05_hashTable.js:180-189 | the slots become `ProbeSet` of the old slots: the pair written at the stop slot, nothing else changed |
| HashTableNotes.ProbeSet | 00_DSA-Notes/05_hashTable.js:180-189 | the slots after `set`: the pair lands in the slot where the probe stops, and every other slot keeps its content |
| HashTableNotes.ProbingTable.Get | 00_DSA-Notes/05_hashTable.js:191-199 | the answer is `ProbeGet` of the slots |
| HashTableNotes.ProbingTable.Delete | 00_DSA-Notes/05_hashTable.js:201-213 | slots and result are the delete as written: the matching stop slot becomes `null` and true, else unchanged and false |
| HashTableNotes.ProbeDeleteAsWritten | 00_DSA-Notes/05_hashTable.js:201-213 | `delete` as written: true iff `get` would find the key; then the stop slot becomes `null` and no other slot changes; otherwise nothing changes |
| HashTableNotes.ProbeDelete | 00_DSA-Notes/05_hashTable.js:201-213 | the corrected `delete`: true iff `get` would find the key; then the stop slot becomes a tombstone and no other slot changes; otherwise nothing changes |
| HashTableNotes.TwoSum | 00_DSA-Notes/05_hashTable.js:256-264 | a result `[i, j]` has `i < j` and sums to target, `j` is the least such `j`, and `i` is the last index before `j` holding its value; none only when no pair sums to target |
| HashTableNotes.FirstUniqueChar | 00_DSA-Notes/05_hashTable.js:271-281 | the first index whose character occurs once, or -1 when there is none |
| CourseHashTable.HashTable.constructor | DSA-Basics/06_HashTable/01_constructor.js:12-14 | `size` buckets (7 by default), all undefined, so every key is absent |
| CourseHashTable.HashTable.Hash | DSA-Basics/06_HashTable/01_constructor.js:16-22 | `_hash` lies in `[0, dataMap.length)` and equals `(23 * sum of char codes) % length` |
| CourseHashTable.ConstructorExample | DSA-Basics/06_HashTable/01_constructor.js:34-48 | a default table has 7 undefined buckets |
| CourseHashTable.HashTable.Set | 01_DSA-Basics/06_HashTable/02_set.js:27-34 | the pair is pushed at the end of bucket `_hash(key)`, created if undefined; nothing else changes; returns the table |
| CourseHashTable.AppendKeepsFirstMatch | 01_DSA-Basics/06_HashTable/02_set.js:32 | appending a pair changes the answer only for a key not yet in the bucket |
| CourseHashTable.SetThenGet | 01_DSA-Basics/06_HashTable/03_get.js:27-45 | after `set(k, v)`, `get(k)` is `v` for a new key and the earlier value otherwise; other keys keep their answers |
| CourseHashTable.HashTable.Get | 01_DSA-Basics/06_HashTable/03_get.js:36-45 | the value of the first pair holding the key, or undefined; the table is not modified |
| CourseHashTable.ExampleKeyHashes | 01_DSA-Basics/06_HashTable/02_set.js:40-45 | at size 7: nails, tile and lumber hash to 6, bolts to 4, screws to 3 |
| CourseHashTable.SetSameBucket | 01_DSA-Basics/06_HashTable/02_set.js:40-43 | the first three keys land in bucket 6 in order |
| CourseHashTable.SetExample | 01_DSA-Basics/06_HashTable/02_set.js:40-61 | the five sets give exactly the expected table |
| CourseHashTable.GetExample | 01_DSA-Basics/06_HashTable/03_get.js:51-72 | `get("lumber")` is 80 and `get("bolts")` is undefined |
| Nodes.Node.constructor | 00_Notes/01_linkedList.js:41-44 | the node holds the value and links to `null` |
| NotesLinkedList.LinkedList.constructor | 00_Notes/01_linkedList.js:62-65 | an empty list |
| NotesLinkedList.LinkedList.Prepend | 00_Notes/01_linkedList.js:70-75 | the value becomes first; length grows by one |
| NotesLinkedList.LinkedList.Append | 00_Notes/01_linkedList.js:78-89 | the value becomes last; length grows by one; old nodes kept |
| NotesLinkedList.LinkedList.InsertAt | 00_Notes/01_linkedList.js:92-107 | outside `[0, length]` nothing changes; otherwise contents become `s[..index] + [v] + s[index..]` |
| NotesLinkedList.LinkedList.InsertAfter | 00_Notes/01_linkedList.js:96-106 | the walk to `index - 1` and the relinking put `v` at `index` |
| NotesLinkedList.Splice | 00_Notes/01_linkedList.js:104-105 | the two link writes of `insertAt`: the chain gains the node at `index`, and every value stays at its place before or after it |
| NotesLinkedList.LinkedList.RemoveHead | 00_Notes/01_linkedList.js:112-119 | none on an empty list; otherwise the first value, dropped |
| NotesLinkedList.LinkedList.RemoveTail | 00_Notes/01_linkedList.js:122-142 | none on an empty list; otherwise the last value, dropped |
| NotesLinkedList.LinkedList.RemoveAt | 00_Notes/01_linkedList.js:145-156 | none out of range; otherwise `s[index]`, and the list loses exactly that position |
| NotesLinkedList.LinkedList.Find | 00_Notes/01_linkedList.js:161-168 | `null` iff the value is absent; otherwise the node of its first occurrence |
| NotesLinkedList.LinkedList.Get | 00_Notes/01_linkedList.js:171-176 | the node at `index`, or `null` out of range |
| NotesLinkedList.LinkedList.Reverse | 00_Notes/01_linkedList.js:192-204 | contents and nodes are reversed, the same nodes relinked |
| NotesLinkedList.ReverseList | 00_Notes/01_linkedList.js:332-344 | the chain is relinked in reverse order, values untouched, and the old last node is returned |
| NotesLinkedList.MergeLists | 00_Notes/01_linkedList.js:390-407 | the returned chain holds `Merge(a, b)` of the two input value sequences |
| NotesLinkedList.MergeStep | 00_Notes/01_linkedList.js:393-401 | one loop iteration moves one node over and keeps the merge invariant |
| NotesLinkedList.TakeFirst | 00_Notes/01_linkedList.js:395-397 | when the first list's head is smaller, its node moves over and the merge invariant is kept |
| NotesLinkedList.Attach | 00_Notes/01_linkedList.js:396-402 | one move of `mergeLists`: the front node of one input is linked behind `curr` and becomes the new last node of the output, its value appended to the output's values |
| NotesLinkedList.TakeSecond | 00_Notes/01_linkedList.js:398-400 | otherwise (ties included) the second list's head moves over and the merge invariant is kept |
| NotesLinkedList.MergeFinish | 00_Notes/01_linkedList.js:403-405 | attaching the leftover list completes a chain holding `Merge(a, b)` |
| NotesLinkedList.AttachRest | 00_Notes/01_linkedList.js:405 | the final link write of `mergeLists`: the rest of whichever input remains follows `curr`, and the output chain holds the output's values followed by that rest |
| NotesLinkedList.MergePermutes | 00_Notes/01_linkedList.js:390-407 | the merge is a permutation of the two inputs |
| NotesLinkedList.MergeAscending | 00_Notes/01_linkedList.js:390-407 | merging two ascending lists gives an ascending list |
| NotesDoublyLinkedList.DoublyNode.constructor | 00_Notes/01_linkedList.js:49-53 | the node holds the value with `prev` and `next` null |
| NotesDoublyLinkedList.DoublyLinkedList.EmptyEnds | 00_Notes/01_linkedList.js:214-282 | `head == null` iff `tail == null` iff `length == 0` iff no contents |
| NotesDoublyLinkedList.DoublyLinkedList.constructor | 00_Notes/01_linkedList.js:215-219 | an empty list |
| NotesDoublyLinkedList.DoublyLinkedList.Prepend | 00_Notes/01_linkedList.js:222-234 | the value becomes first, with consistent `prev`/`next` links |
| NotesDoublyLinkedList.DoublyLinkedList.Append | 00_Notes/01_linkedList.js:237-249 | the value becomes last, with consistent `prev`/`next` links |
| NotesDoublyLinkedList.DoublyLinkedList.RemoveHead | 00_Notes/01_linkedList.js:252-265 | none when empty; otherwise the first value, dropped |
| NotesDoublyLinkedList.DoublyLinkedList.RemoveTail | 00_Notes/01_linkedList.js:268-281 | none when empty; otherwise the last value, dropped |
| CourseLinkedList.LinkedList.constructor | DSA-Basics/LinkedList/10_reverse.js:17-21 | no nodes: head and tail null, length 0 |
| CourseLinkedList.LinkedList.MakeEmpty | 01_DSA-Basics/01_LinkedList/07_set.js:42-46 | head and tail null, length 0 |
| CourseLinkedList.LinkedList.Push | DSA-Basics/LinkedList/10_reverse.js:57-67 | a new tail node holding the value; length grows by one |
| CourseLinkedList.LinkedList.Pop | DSA-Basics/LinkedList/10_reverse.js:69-85 | `null` when empty; otherwise the detached tail node, the previous node becomes tail, both ends null when emptied |
| CourseLinkedList.LinkedList.Unshift | DSA-Basics/LinkedList/10_reverse.js:87-97 | a new head node holding the value; length grows by one |
| CourseLinkedList.LinkedList.Shift | DSA-Basics/LinkedList/10_reverse.js:99-109 | `null` when empty; otherwise the detached head node (its `next` null), tail null when emptied |
| CourseLinkedList.LinkedList.Get | 01_Basics/01_LinkedList/06_get.js:111-118 | the node holding the value at `index`, or `null` for `index < 0` or `index >= length`; nothing changes |
| CourseLinkedList.LinkedList.Set | 01_DSA-Basics/01_LinkedList/07_set.js:119-126 | true iff `index` is in range; then only that value changes; nodes, ends and length unchanged |
| CourseLinkedList.LinkedList.Insert | 01_Basics/01_LinkedList/08_insert.js:128-144 | false and no change outside `[0, length]`; otherwise the value lands at `index` and length grows by one |
| CourseLinkedList.LinkedList.InsertMiddle | 01_Basics/01_LinkedList/08_insert.js:138-143 | the middle case gives `s[..index] + [v] + s[index..]` |
| CourseLinkedList.LinkedList.Splice | 01_Basics/01_LinkedList/08_insert.js:140-141 | the two link writes of `insert`: the chain gains the new node at `index`, and no value changes |
| CourseLinkedList.LinkedList.Remove | DSA-Basics/LinkedList/10_reverse.js:147-157 | `null` out of range; otherwise the detached node at `index`, the rest kept in order |
| CourseLinkedList.LinkedList.RemoveMiddle | DSA-Basics/LinkedList/10_reverse.js:151-156 | the middle case returns the node at `index`, cut loose, and leaves `s[..index] + s[index + 1..]` |
| CourseLinkedList.LinkedList.Unlink | DSA-Basics/LinkedList/10_reverse.js:153-154 | the two link writes of `remove`: the chain without the node at `index` is a chain, that node's `next` is `null`, and no value changes |
| CourseLinkedList.LinkedList.Reverse | DSA-Basics/LinkedList/10_reverse.js:160-175 | contents reversed, head and tail swapped, length kept; returns the list |
| CourseLinkedList.GetExample | 01_Basics/01_LinkedList/06_get.js:124-136 | `get(2)` on `[1, 2, 3, 4]` is the node holding 3 |
| CourseLinkedList.SetExample | 01_DSA-Basics/01_LinkedList/07_set.js:130-143 | `[10, 20, 30]` becomes `[10, 25, 30]`, and index 5 is refused |
| CourseLinkedList.InsertExample | 01_Basics/01_LinkedList/08_insert.js:147-157 | `insert(2, 3)` on `[1, 2, 4]` gives `[1, 2, 3, 4]` |
| CourseLinkedList.ReverseExample | DSA-Basics/LinkedList/10_reverse.js:179-192 | `[1..5]` becomes `[5..1]` |
| NotesStacks.StackArray.constructor | 00_Notes/02_stack.js:47-49 | an empty stack |
| NotesStacks.StackArray.Push | 00_Notes/02_stack.js:52-54 | the value goes on top |
| NotesStacks.StackArray.Pop | 00_Notes/02_stack.js:57-59 | none when empty; otherwise the top, removed |
| NotesStacks.StackArray.Peek | 00_Notes/02_stack.js:62-64 | none iff empty; otherwise the top |
| NotesStacks.StackArray.IsEmpty | 00_Notes/02_stack.js:66-68 | true iff empty |
| NotesStacks.StackArray.Size | 00_Notes/02_stack.js:70-72 | the number of values |
| NotesStacks.ArrayPushThenPop | 00_Notes/02_stack.js:52-59 | last in, first out: push then pop returns the value and restores the stack |
| NotesStacks.StackLL.constructor | 00_Notes/02_stack.js:88-91 | an empty stack |
| NotesStacks.StackLL.Push | 00_Notes/02_stack.js:93-98 | a new top node; length counts the nodes |
| NotesStacks.StackLL.Pop | 00_Notes/02_stack.js:100-107 | none when empty; otherwise the top value, removed |
| NotesStacks.StackLL.Peek | 00_Notes/02_stack.js:109-111 | none iff empty; otherwise the top value |
| NotesStacks.StackLL.IsEmpty | 00_Notes/02_stack.js:113-115 | true iff empty |
| NotesStacks.StackLL.Size | 00_Notes/02_stack.js:117-119 | the number of nodes |
| NotesStacks.LinkedPushThenPop | 00_Notes/02_stack.js:93-107 | last in, first out for the linked stack |
| NotesStacks.RecordsLastIsMin | 00_Notes/02_stack.js:168-192 | the last recorded minimum of a non-empty stack is a value of it and at most every value |
| NotesStacks.MinStack.constructor | 00_Notes/02_stack.js:163-166 | an empty stack with no minima |
| NotesStacks.MinStack.Push | 00_Notes/02_stack.js:168-176 | the value goes on top; the minima stay the running records |
| NotesStacks.MinStack.Pop | 00_Notes/02_stack.js:178-184 | none on an empty stack; otherwise the top, removed, minima kept consistent |
| NotesStacks.MinStack.Top | 00_Notes/02_stack.js:186-188 | none iff empty; otherwise the top |
| NotesStacks.MinStack.GetMin | 00_Notes/02_stack.js:190-192 | none iff empty; otherwise the least value on the stack |
| NotesStacks.QueueUsingStacks.constructor | 00_Notes/02_stack.js:287-290 | an empty queue |
| NotesStacks.QueueUsingStacks.Enqueue | 00_Notes/02_stack.js:292-294 | the value joins the back |
| NotesStacks.QueueUsingStacks.Dequeue | 00_Notes/02_stack.js:296-303 | removes the oldest value; returns it unless it is the falsy 0 or the queue is empty, which give none |
| NotesStacks.QueueUsingStacks.Refill | 00_Notes/02_stack.js:298-300 | with `s2` empty, moves all of `s1` onto `s2` so that `s2` read from the top is `s1` oldest first, and empties `s1` |
| Parentheses.RunFailed | 00_Notes/02_stack.js:210-212 | once the loop has returned false it stays false |
| Parentheses.BalancedRuns | 00_Notes/02_stack.js:205-217 | a properly nested string leaves any starting stack unchanged |
| Parentheses.RunsBalanced | 00_Notes/02_stack.js:205-217 | a string the loop reads from the empty stack back to empty is properly nested |
| Parentheses.IsValidParentheses | 00_Notes/02_stack.js:205-217 | true iff the string is properly nested |
| StackProblems.NextGreaterIndex | 00_Notes/02_stack.js:224-237 | an index after `i` holding a greater value, or the length |
| StackProblems.BeforeNextGreater | 00_Notes/02_stack.js:224-237 | no position before the next greater index holds more, so it is the least such index |
| StackProblems.PopSmaller | 00_Notes/02_stack.js:229-232 | the inner loop records the answer of each popped index and keeps the scan invariant |
| StackProblems.ScanEnd | 00_Notes/02_stack.js:228-234 | after the last position every position holds its answer |
| StackProblems.NextGreaterElement | 00_Notes/02_stack.js:224-237 | `result[i]` is `arr[j]` for the least `j > i` with a greater value, else -1 |
| StackProblems.DailyTemperatures | 00_Notes/02_stack.js:311-324 | `result[i]` is `j - i` for the least warmer day `j > i`, else 0 |
| StackProblems.CollapseReduced | 00_Notes/02_stack.js:244-253 | the result never has two equal neighbours |
| StackProblems.CollapseFixed | 00_Notes/02_stack.js:244-253 | a string without equal neighbours is returned unchanged, so the function is idempotent |
| StackProblems.CollapseCancelsPair | 00_Notes/02_stack.js:244-253 | deleting two equal neighbours anywhere in the input does not change the result |
| StackProblems.RemoveDuplicates | 00_Notes/02_stack.js:244-253 | the stack loop returns `Collapse(s)`, which has no equal neighbours |
| CourseStack.Stack.constructor | 01_Basics/03_Stacks/02_push.js:17-21 | one fresh node holding the value; length 1 |
| CourseStack.Stack.MakeEmpty | 01_Basics/03_Stacks/02_push.js:43-46 | top null and length 0 |
| CourseStack.Stack.Push | 01_Basics/03_Stacks/02_push.js:49-58 | a fresh top holding the value whose `next` is the old top, including on an empty stack; length grows by one |
| CourseStack.PushExample | 01_Basics/03_Stacks/02_push.js:64-105 | `Stack(2)` then `push(1)` has top 1, length 2, contents `[1, 2]` |
| NotesQueues.QueueArray.constructor | 00_Notes/03_queue.js:34-37 | an empty queue |
| NotesQueues.QueueArray.Enqueue | 00_Notes/03_queue.js:39-41 | the value joins the back |
| NotesQueues.QueueArray.Dequeue | 00_Notes/03_queue.js:43-45 | none when empty; otherwise the oldest value, removed |
| NotesQueues.QueueArray.Peek | 00_Notes/03_queue.js:47-49 | none iff empty; otherwise the oldest value |
| NotesQueues.QueueArray.Size | 00_Notes/03_queue.js:51-53 | the number of values |
| NotesQueues.QueueArray.IsEmpty | 00_Notes/03_queue.js:55-57 | true iff empty |
| NotesQueues.ArrayFifo | 00_Notes/03_queue.js:39-45 | first in, first out |
| NotesQueues.QueueOptimal.Contents | 00_Notes/03_queue.js:90-92 | the queued values number `rear - front` |
| NotesQueues.QueueOptimal.constructor | 00_Notes/03_queue.js:66-70 | an empty queue |
| NotesQueues.QueueOptimal.Enqueue | 00_Notes/03_queue.js:72-75 | the value is stored under `rear` and joins the back |
| NotesQueues.QueueOptimal.Dequeue | 00_Notes/03_queue.js:77-84 | none and no change when empty; otherwise the oldest value, removed |
| NotesQueues.QueueOptimal.Peek | 00_Notes/03_queue.js:86-88 | none iff empty; otherwise the oldest value |
| NotesQueues.QueueOptimal.Size | 00_Notes/03_queue.js:90-92 | `rear - front`, never negative, the number of values |
| NotesQueues.QueueOptimal.IsEmpty | 00_Notes/03_queue.js:94-96 | true iff empty |
| NotesQueues.QueueLL.constructor | 00_Notes/03_queue.js:112-116 | an empty queue |
| NotesQueues.QueueLL.Enqueue | 00_Notes/03_queue.js:119-125 | a new rear node; length grows by one |
| NotesQueues.QueueLL.Dequeue | 00_Notes/03_queue.js:128-138 | none when empty; otherwise the front value; removing the last nulls `front` and `rear` |
| NotesQueues.QueueLL.Peek | 00_Notes/03_queue.js:140-142 | none iff empty; otherwise the front value |
| NotesQueues.QueueLL.Size | 00_Notes/03_queue.js:144-146 | the number of nodes |
| NotesQueues.QueueLL.IsEmpty | 00_Notes/03_queue.js:148-150 | true iff empty |
| NotesQueues.LinkedFifo | 00_Notes/03_queue.js:119-138 | first in, first out for the linked queue |
| NotesQueues.NextSlot | 00_Notes/03_queue.js:197 | `(x + 1) % capacity` wraps to 0 only at the last slot |
| NotesQueues.CircularQueue.constructor | 00_Notes/03_queue.js:179-184 | `capacity` empty slots with `front` and `rear` at -1 |
| NotesQueues.CircularQueue.IsEmpty | 00_Notes/03_queue.js:186-188 | `front == -1` iff empty |
| NotesQueues.CircularQueue.IsFull | 00_Notes/03_queue.js:190-192 | full iff `capacity` values are stored |
| NotesQueues.CircularQueue.Enqueue | 00_Notes/03_queue.js:194-201 | on a full queue reports full and changes nothing; otherwise the value joins the back, never exceeding capacity |
| NotesQueues.CircularQueue.Dequeue | 00_Notes/03_queue.js:203-216 | none when empty; otherwise the oldest value; the sole value resets both indices to -1 |
| NotesQueues.CircularQueue.Peek | 00_Notes/03_queue.js:218-221 | none iff empty; otherwise the oldest value |
| NotesQueues.InsertSorted | 00_Notes/03_queue.js:237-240 | placing the value after every smaller one keeps the array ascending and adds exactly that value |
| NotesQueues.PriorityQueue.constructor | 00_Notes/03_queue.js:232-234 | an empty queue |
| NotesQueues.PriorityQueue.Enqueue | 00_Notes/03_queue.js:237-240 | push then sort: one more value, still ascending |
| NotesQueues.PriorityQueue.Dequeue | 00_Notes/03_queue.js:243-245 | none when empty; otherwise the least value, removed |
| NotesQueues.PriorityQueue.Peek | 00_Notes/03_queue.js:247-249 | none iff empty; otherwise the least value |
| NotesQueues.PriorityQueue.IsEmpty | 00_Notes/03_queue.js:251-253 | true iff empty |
| NotesQueues.Deque.constructor | 00_Notes/03_queue.js:264-266 | an empty deque |
| NotesQueues.Deque.AddFront | 00_Notes/03_queue.js:268-270 | the value goes first |
| NotesQueues.Deque.AddBack | 00_Notes/03_queue.js:272-274 | the value goes last |
| NotesQueues.Deque.RemoveFront | 00_Notes/03_queue.js:276-278 | none when empty; otherwise the first value, removed |
| NotesQueues.Deque.RemoveBack | 00_Notes/03_queue.js:280-282 | none when empty; otherwise the last value, removed |
| NotesQueues.Deque.PeekFront | 00_Notes/03_queue.js:284-286 | none iff empty; otherwise the first value |
| NotesQueues.Deque.PeekBack | 00_Notes/03_queue.js:288-290 | none iff empty; otherwise the last value |
| NotesQueues.DequeBackToFront | 00_Notes/03_queue.js:268-282 | values added at one end leave from the other in order |
| SlidingWindow.MaxOfIsMax | 00_Notes/03_queue.js:384-401 | the window maximum is a value of the window that none exceeds |
| SlidingWindow.ShiftFront | 00_Notes/03_queue.js:389 | dropping the index that left the window keeps the deque invariant |
| SlidingWindow.PopSmaller | 00_Notes/03_queue.js:391-393 | popping smaller back entries leaves entries at least `nums[i]` |
| SlidingWindow.FrontIsMax | 00_Notes/03_queue.js:397 | the deque front holds the maximum of a non-empty window |
| SlidingWindow.Advance | 00_Notes/03_queue.js:389-395 | one iteration keeps the invariant, and the front holds the window maximum |
| SlidingWindow.ReportsMeaning | 00_Notes/03_queue.js:384-401 | the reported windows are the last `k` values for `k >= 1` and the prefixes otherwise |
| SlidingWindow.MaxSlidingWindow | 00_Notes/03_queue.js:384-401 | `n - k + 1` results for `1 <= k <= n`, `result[w]` the maximum of `nums[w..w+k-1]`; `k <= 0` gives prefix maxima |
| CourseQueue.Queue.constructor | 01_DSA-Basics/04_Queue/01_constructor.js:18-23 | one fresh node that is both `first` and `last`, `next` null; length 1 |
| CourseQueue.Queue.MakeEmpty | 01_DSA-Basics/04_Queue/01_constructor.js:53-57 | `first` and `last` null, length 0 |
| CourseQueue.ConstructorExample | 01_DSA-Basics/04_Queue/01_constructor.js:63-82 | `Queue(4)` has first 4, last 4, length 1, contents `[4]` |
| Heaps.ParentOfChildren | 00_DSA-Notes/07_heap.js:70-72 | `parent(left(i)) == i` and `parent(right(i)) == i` |
| Heaps.ChildOfParent | 00_DSA-Notes/07_heap.js:70-72 | every non-root index is a child of its parent, which comes before it |
| Heaps.Swapped | 00_DSA-Notes/07_heap.js:75-77 | swapping exchanges two places and keeps the multiset |
| Heaps.RootFirst | 00_DSA-Notes/07_heap.js:136-138 | the root of a heap comes first in heap order: the least value of a min-heap, the greatest of a max-heap |
| Heaps.PushAlmostHeap | 00_DSA-Notes/07_heap.js:86-89 | appending to a heap leaves only the edge into the new index to repair |
| Heaps.SwapUp | 00_DSA-Notes/07_heap.js:91-96 | one exchange of `bubbleUp` moves the single defect up to the parent |
| Heaps.UpDone | 00_DSA-Notes/07_heap.js:91-96 | `bubbleUp` stopping at the root or at a fitting parent leaves a heap |
| Heaps.SwapDown | 00_DSA-Notes/07_heap.js:117-133 | one exchange of `bubbleDown` moves the defect down to the chosen child |
| Heaps.DownDone | 00_DSA-Notes/07_heap.js:117-133 | `bubbleDown` stopping where both children fit leaves a heap |
| Heaps.LastToRoot | 00_DSA-Notes/07_heap.js:106-115 | moving the last value to the root leaves only the root's edges to repair |
| Heaps.HeapifyStart | 00_DSA-Notes/07_heap.js:215-226 | the indices from `n / 2` on have no children, so the heap property already holds from there |
| Heaps.MinHeap.constructor | 00_DSA-Notes/07_heap.js:65-67 | an empty heap |
| Heaps.MinHeap.Swap | 00_DSA-Notes/07_heap.js:75-77 | the data becomes `Swapped` |
| Heaps.MinHeap.Insert | 00_DSA-Notes/07_heap.js:86-89 | one more value, still a min-heap |
| Heaps.MinHeap.BubbleUp | 00_DSA-Notes/07_heap.js:91-96 | repairs the single defect at `i`, keeping the multiset |
| Heaps.MinHeap.ExtractMin | 00_DSA-Notes/07_heap.js:106-115 | none when empty; otherwise the least value, one occurrence removed, still a heap |
| Heaps.MinHeap.BubbleDown | 00_DSA-Notes/07_heap.js:117-133 | repairs the edges out of `i`, keeping the multiset |
| Heaps.MinHeap.Peek | 00_DSA-Notes/07_heap.js:136-138 | none iff empty; otherwise `data[0]`, the least value |
| Heaps.MaxHeap.constructor | 00_DSA-Notes/07_heap.js:148-150 | an empty heap |
| Heaps.MaxHeap.Swap | 00_DSA-Notes/07_heap.js:156-158 | the data becomes `Swapped` |
| Heaps.MaxHeap.Insert | 00_DSA-Notes/07_heap.js:160-163 | one more value, still a max-heap |
| Heaps.MaxHeap.BubbleUp | 00_DSA-Notes/07_heap.js:165-170 | repairs the single defect at `i`, keeping the multiset |
| Heaps.MaxHeap.ExtractMax | 00_DSA-Notes/07_heap.js:172-181 | none when empty; otherwise the greatest value, one occurrence removed, still a heap |
| Heaps.MaxHeap.BubbleDown | 00_DSA-Notes/07_heap.js:183-199 | repairs the edges out of `i`, keeping the multiset |
| Heaps.MaxHeap.Peek | 00_DSA-Notes/07_heap.js:201-203 | none iff empty; otherwise `data[0]`, the greatest value |
| Heaps.Heapify | 00_DSA-Notes/07_heap.js:215-226 | a fresh, valid min-heap holding exactly the multiset of the input array |
| Heaps.PriorityQueue.constructor | 00_DSA-Notes/07_heap.js:235-237 | an empty queue over a fresh heap |
| Heaps.PriorityQueue.Enqueue | 00_DSA-Notes/07_heap.js:239-241 | one more value in the heap |
| Heaps.PriorityQueue.Dequeue | 00_DSA-Notes/07_heap.js:243-245 | none when empty; otherwise the least value, removed |
| Heaps.PriorityQueue.Peek | 00_DSA-Notes/07_heap.js:247-249 | none iff empty; otherwise the least value |
| Heaps.PriorityQueue.IsEmpty | 00_DSA-Notes/07_heap.js:251-253 | true iff empty |
| Heaps.HeapSortAsc | 00_DSA-Notes/07_heap.js:264-273 | an ascending permutation of the input |
| TreeShapes.TreeNode.constructor | DSA-Basics/BST/01_constructor.js:9-13 | the node stores the value with `left` and `right` null |
| TreeShapes.Walk | 00_Notes/04_tree.js:165-181 | the insertion walk ends on a node whose free link the value leads to; the subtree reached holds the value iff the tree does |
| TreeShapes.Hang | 00_Notes/04_tree.js:169-177 | hanging the fresh node links the whole tree as the walk's tree grown by the value |
| TreeShapes.PlugGrow | 00_Notes/04_tree.js:157-182 | growing the subtree where the walk ends grows the whole tree in the same way |
| TreeShapes.GrowOrdered | 00_Notes/04_tree.js:157-182 | insertion keeps the search-tree order |
| TreeShapes.GrowValues | 00_Notes/04_tree.js:157-182 | insertion adds exactly one occurrence of the value |
| TreeShapes.GrowPresent | DSA-Basics/BST/02_insert.js:34 | strict insertion of a present value changes nothing |
| TreeShapes.Descend | 00_Notes/04_tree.js:187-190 | in an ordered tree a smaller value can only be on the left and a greater one only on the right |
| NotesBST.BST.constructor | 00_Notes/04_tree.js:153-155 | an empty tree |
| NotesBST.BST.Insert | 00_Notes/04_tree.js:157-182 | smaller values go left, others (equal ones too) right: the tree gains exactly one occurrence and stays ordered |
| NotesBST.Grown | 00_Notes/04_tree.js:157-182 | growing an ordered tree by a fresh node keeps it well formed and ordered and adds one value |
| NotesBST.Place | 00_Notes/04_tree.js:160-181 | the fresh node becomes the root of an empty tree or hangs where the walk ends |
| NotesBST.Relink | 00_Notes/04_tree.js:208-210 | one child link write of `deleteNode` (also the one at line 224): the chosen link now points at the given subtree, the other link and the value are kept, and both subtrees stay linked |
| NotesBST.BST.Search | 00_Notes/04_tree.js:184-192 | true iff the value is in the tree |
| NotesBST.LeftmostIsMin | 00_Notes/04_tree.js:220-221 | the leftmost value is the least value of an ordered tree |
| NotesBST.LeftmostValue | 00_Notes/04_tree.js:220-221 | the successor walk reaches the leftmost value |
| NotesBST.DropRoot | 00_Notes/04_tree.js:213-217 | removing the root's value leaves the values of its subtrees |
| NotesBST.SuccessorFits | 00_Notes/04_tree.js:219-224 | the successor value in place of the deleted one keeps the order and removes exactly one occurrence |
| NotesBST.DeleteNode | 00_Notes/04_tree.js:204-228 | the returned tree holds the old values less one occurrence of the key (none if absent), stays ordered, and uses only old nodes |
| NotesBST.DeleteLeft | 00_Notes/04_tree.js:207-208 | deleting a smaller key in the left subtree removes it from the whole tree |
| NotesBST.DeleteRight | 00_Notes/04_tree.js:209-210 | deleting a greater key in the right subtree removes it from the whole tree |
| NotesBST.DeleteBySuccessor | 00_Notes/04_tree.js:219-224 | at a node with two children the successor's value replaces the key and is deleted on the right |
| NotesBST.Revalue | 00_Notes/04_tree.js:223 | `root.value = successor.value`: only the value changes; both links and the subtrees below them are kept |
| CourseBST.BST.constructor | DSA-Basics/BST/01_constructor.js:18-20 | `root` is null |
| CourseBST.BST.Insert | DSA-Basics/BST/02_insert.js:24-51 | inserts iff the value is absent; the value set becomes old plus the value and the order stays strict; a duplicate changes nothing |
| CourseBST.GrownDistinct | DSA-Basics/BST/02_insert.js:24-51 | strict growth keeps values distinct and ordered and adds the value exactly when absent |
| CourseBST.Place | DSA-Basics/BST/02_insert.js:27-49 | an empty tree takes the node as root; a present value links nothing; otherwise the node hangs on the null link reached |
| CourseBST.InsertExample | DSA-Basics/BST/02_insert.js:57-86 | inserting 2, 1, 3 gives root 2, left 1, right 3 |
| CourseBST.BST.Contains | 01_Basics/05_BST/03_contains.js:50-68 | true iff the value is in the tree, false on an empty tree; read-only |
| CourseBST.InsertAll | 01_Basics/05_BST/03_contains.js:76-82 | inserting the values one after another keeps the tree a valid BST whose values are exactly the old ones plus the inserted ones |
| CourseBST.ContainsExample | 01_Basics/05_BST/03_contains.js:74-99 | on the tree of 47, 21, 76, 18, 27, 52, 82, 27 is found and 17 is not |
| TreeAlgorithms.Height | 00_Notes/04_tree.js:236-239 | the height is 0 exactly for the empty tree |
| TreeAlgorithms.HeightIsDeepest | 00_Notes/04_tree.js:236-239 | the height is the node count of a longest downward path |
| TreeAlgorithms.MinDepth | 00_Notes/04_tree.js:242-250 | 0 exactly for the empty tree |
| TreeAlgorithms.MinDepthIsShallowest | 00_Notes/04_tree.js:242-250 | the node count of a shortest root-to-leaf path |
| TreeAlgorithms.Check | 00_Notes/04_tree.js:258-270 | `check` answers -1 or the height of the tree |
| TreeAlgorithms.CheckIsHeight | 00_Notes/04_tree.js:258-270 | `check` returns the height of a balanced tree and -1 otherwise |
| TreeAlgorithms.IsBalanced | 00_Notes/04_tree.js:257-273 | true iff at every node the child heights differ by at most one |
| TreeAlgorithms.SpanIsWidest | 00_Notes/04_tree.js:416-432 | the span is attained by some node's two heights and exceeded by none |
| TreeAlgorithms.Depth | 00_Notes/04_tree.js:419-428 | returns the height and raises the running maximum to the widest node below |
| TreeAlgorithms.Diameter | 00_Notes/04_tree.js:416-432 | the maximum over nodes of left height plus right height |
| TreeHeap.MinHeap.constructor | 00_Notes/04_tree.js:285-287 | an empty heap |
| TreeHeap.MinHeap.Insert | 00_Notes/04_tree.js:289-292 | one more value, still a heap |
| TreeHeap.MinHeap.BubbleUp | 00_Notes/04_tree.js:294-305 | repairs the defect at the last index, keeping the multiset |
| TreeHeap.MinHeap.ExtractMin | 00_Notes/04_tree.js:307-315 | the least value of a non-empty heap, one occurrence removed, still a heap |
| TreeHeap.MinHeap.BubbleDown | 00_Notes/04_tree.js:317-334 | repairs the edges out of the root, keeping the multiset |
| TreeHeap.InsertThenExtract | 00_Notes/04_tree.js:289-315 | insert then extract gives back the least of the old values and the new one |
| Tries.TrieNode.constructor | 00_Notes/04_tree.js:343-346 | no children, not an end |
| Tries.Trie.constructor | 00_Notes/04_tree.js:350-352 | only the root, no word |
| Tries.Trie.Insert | 00_Notes/04_tree.js:354-361 | the word set gains the word and the trie stays well formed |
| Tries.Trie.Step | 00_Notes/04_tree.js:356-359 | one loop pass moves to the child of the next character, creating it if missing |
| Tries.Trie.AddChild | 00_Notes/04_tree.js:357 | a missing child is created fresh under `ch`; it becomes the node of the prefix extended by `ch`, and the trie stays well formed with the same words |
| Tries.Trie.Link | 00_Notes/04_tree.js:357 | `curr.children[ch] = node`: only that child entry of `curr` changes, and the records of prefixes, children and end marks gain exactly the new prefix |
| Tries.Trie.MarkEnd | 00_Notes/04_tree.js:360 | marking the last node adds the word |
| Tries.Trie.SetEnd | 00_Notes/04_tree.js:360 | `curr.isEnd = true`: the node of the word is marked, the word set gains the word, and nothing else changes |
| Tries.Trie.Search | 00_Notes/04_tree.js:363-370 | true iff the word was inserted |
| Tries.Trie.StartsWith | 00_Notes/04_tree.js:372-379 | true iff the prefix is empty or begins some inserted word |
| Tries.Trie.PrefixClosed | 00_Notes/04_tree.js:354-379 | every prefix of a path present in the trie is present too |
| Tries.InsertThenQuery | 00_Notes/04_tree.js:354-379 | after `insert(w)`, `search(w)` and `startsWith(p)` for every prefix `p` of `w` hold |
| GraphPaths.ConnectUndirected | DSA-Basics/00_Notes/06_graph.js:103-109 | listing an edge at both ends keeps the graph undirected and adds no vertex |
| GraphNotes.Graph.constructor | DSA-Basics/00_Notes/06_graph.js:95-97 | no vertices |
| GraphNotes.Graph.AddVertex | DSA-Basics/00_Notes/06_graph.js:99-101 | a new vertex gets an empty list; an existing list is never replaced |
| GraphNotes.Graph.AddEdge | DSA-Basics/00_Notes/06_graph.js:103-109 | both ends become vertices and each is appended to the other's list; a loop is listed twice; other lists unchanged |
| GraphNotes.Bfs | DSA-Basics/00_Notes/06_graph.js:174-189 | visits `start` first and every vertex reachable from it exactly once, nothing else |
| GraphNotes.Discover | DSA-Basics/00_Notes/06_graph.js:182-187 | each unvisited neighbour is marked and queued once, in list order |
| GraphNotes.BfsStep | DSA-Basics/00_Notes/06_graph.js:178-188 | one round of `bfs` keeps its invariant |
| GraphNotes.DfsIterative | DSA-Basics/00_Notes/06_graph.js:151-167 | visits `start` first and every vertex reachable from it exactly once, nothing else |
| GraphNotes.PushAll | DSA-Basics/00_Notes/06_graph.js:162-164 | the neighbours are pushed in list order |
| GraphNotes.DfsStep | DSA-Basics/00_Notes/06_graph.js:156-165 | visiting the popped vertex and pushing its neighbours keeps the invariant |
| GraphNotes.DfsDone | DSA-Basics/00_Notes/06_graph.js:155-166 | with the stack empty the logged vertices are exactly the reachable ones |
| GraphNotes.ShortestPathUnweighted | DSA-Basics/00_Notes/06_graph.js:268-286 | the fewest edges on a walk from `start` to `end` (0 when equal), -1 exactly when unreachable |
| GraphNotes.Expand | DSA-Basics/00_Notes/06_graph.js:277-282 | each unvisited neighbour is queued once, one edge further |
| GraphNotes.SpFound | DSA-Basics/00_Notes/06_graph.js:275 | meeting `end` at the front: its queued distance is the fewest edges |
| GraphNotes.SpDone | DSA-Basics/00_Notes/06_graph.js:285 | with the queue empty, `end` is unreachable |
| GraphNotes.SpStep | DSA-Basics/00_Notes/06_graph.js:272-283 | one round keeps the distances exact and the queue ordered by distance |
| GraphCycles.HasCycleDirected | DSA-Basics/00_Notes/06_graph.js:232-256 | true iff the graph has a cycle along its edge directions |
| GraphCycles.DirectedDfs | DSA-Basics/00_Notes/06_graph.js:236-249 | true only with a cycle in hand; otherwise the vertex and all reachable from it are finished after their neighbours |
| GraphCycles.NeighborsDfs | DSA-Basics/00_Notes/06_graph.js:243-245 | stops at the first search that meets a cycle; otherwise every neighbour is finished |
| GraphCycles.PathCycle | DSA-Basics/00_Notes/06_graph.js:237 | an edge back onto the current path closes a cycle |
| GraphCycles.FinishedAcyclic | DSA-Basics/00_Notes/06_graph.js:251-255 | a graph whose every vertex finished after all its neighbours has no cycle |
| GraphCycles.TopologicalSort | DSA-Basics/00_Notes/06_graph.js:369-388 | every vertex exactly once; without a cycle every edge leads forward |
| GraphCycles.TopoDfs | DSA-Basics/00_Notes/06_graph.js:373-381 | marks the vertex, searches its unvisited neighbours, pushes it after them |
| GraphCycles.TopoNeighbors | DSA-Basics/00_Notes/06_graph.js:376-378 | unless the graph has a cycle, every neighbour ends up pushed |
| GraphCycles.ReversedOrder | DSA-Basics/00_Notes/06_graph.js:387 | read back to front, a finish order puts every vertex before its neighbours |
| UndirectedCycles.HasCycleUndirected | DSA-Basics/00_Notes/06_graph.js:201-225 | false only when no cycle of distinct vertices exists; on a simple graph, true exactly when one does |
| UndirectedCycles.UndirectedDfs | DSA-Basics/00_Notes/06_graph.js:204-216 | true on a simple graph gives a simple cycle; otherwise every edge at the finished vertices is a tree edge |
| UndirectedCycles.UndirectedNeighbors | DSA-Basics/00_Notes/06_graph.js:207-213 | the neighbour loop skips only the parent; a visited other neighbour closes a cycle |
| UndirectedCycles.BackEdge | DSA-Basics/00_Notes/06_graph.js:210-211 | a visited neighbour other than the parent lies on the path two or more places back and closes a simple cycle |
| UndirectedCycles.CloseCycle | DSA-Basics/00_Notes/06_graph.js:210-211 | an edge from the end of a walk of distinct vertices back two or more places closes a simple cycle |
| UndirectedCycles.TreeHasNoCycle | DSA-Basics/00_Notes/06_graph.js:220-224 | when every edge is a tree edge there is no simple cycle |
| CourseGraph.Graph.constructor | 01_Basics/07_Graph/04_removeVertex.js:9-11 | an empty adjacency list |
| CourseGraph.Graph.AddVertex | 01_Basics/07_Graph/01_addVertex.js:27-33 | true and an empty list for a new vertex; false and no change for an existing one; other lists unchanged |
| CourseGraph.AddVertexExample | 01_Basics/07_Graph/01_addVertex.js:39-53 | adding A then B gives `{A: [], B: []}` |
| CourseGraph.Graph.AddEdge | 01_Basics/07_Graph/04_removeVertex.js:33-40 | true and each appended to the other's list iff both are vertices; otherwise false and no change; symmetry kept |
| GraphPaths.Connect | 01_Basics/07_Graph/04_removeVertex.js:35-36 | the two appends of `addEdge`: only the two ends' lists change, each gaining the other at its end, and a self-loop lists the vertex twice in its own list |
| CourseGraph.ConnectEdges | 01_Basics/07_Graph/04_removeVertex.js:35-36 | `addEdge` adds exactly the edge between the two vertices, in both directions |
| CourseGraph.Without | 01_Basics/07_Graph/04_removeVertex.js:44-47 | `filter` keeps exactly the other entries |
| CourseGraph.WithoutAgain | 01_Basics/07_Graph/04_removeVertex.js:44-47 | filtering is idempotent and changes a list iff the vertex is in it |
| CourseGraph.Graph.RemoveEdge | 01_Basics/07_Graph/04_removeVertex.js:42-51 | true and every occurrence removed in both lists iff both are vertices; otherwise false and no change; symmetry kept |
| CourseGraph.Disconnect | 01_Basics/07_Graph/04_removeVertex.js:44-47 | the two filters of `removeEdge`: only the two ends' lists change, neither lists the other afterwards, and neither gains a name |
| CourseGraph.DisconnectEdges | 01_Basics/07_Graph/04_removeVertex.js:42-51 | `removeEdge` removes exactly that edge in both directions and keeps the graph undirected |
| CourseGraph.Removed | 01_Basics/07_Graph/04_removeVertex.js:54-62 | the intended outcome: the vertex gone as a key and from every list, all else kept |
| CourseGraph.RemovedUndirected | 01_Basics/07_Graph/04_removeVertex.js:54-62 | the intended outcome keeps the graph undirected |
| CourseGraph.NeighborsSuffice | 01_Basics/07_Graph/04_removeVertex.js:56-61 | in an undirected graph filtering only the neighbours' lists, then deleting the key, is the intended outcome |
| CourseGraph.Graph.RemoveVertex | 01_Basics/07_Graph/04_removeVertex.js:54-62 | corrected loop: the vertex is removed everywhere and symmetry kept; an absent vertex changes nothing |
| CourseGraph.Graph.RemoveVertexAsWritten | 01_Basics/07_Graph/04_removeVertex.js:54-62 | the code as written, re-reading the shrinking list, computes `AsWritten`; an absent vertex changes nothing |
| CourseGraph.LoopFrom | 01_Basics/07_Graph/04_removeVertex.js:56-59 | the `for` loop as written, from index `i`: no vertex is added or removed, and each list is either left alone or filtered of every occurrence of `v` |
| CourseGraph.AsWritten | 01_Basics/07_Graph/04_removeVertex.js:55-61 | `removeVertex(v)` as written: `v` loses its key, and every other list is either unchanged or filtered of `v`; which lists the loop reaches is what the self-loop counterexample shows |
| CourseGraph.AsWrittenWithoutSelfLoop | 01_Basics/07_Graph/04_removeVertex.js:56-58 | without a self-loop the code as written gives the intended outcome |
| CourseGraph.AsWrittenSelfLoopCounterexample | 01_Basics/07_Graph/04_removeVertex.js:56-58 | with a self-loop listed before B the code as written leaves B pointing at the removed A |
| CourseGraph.RemoveExistingExample | 01_Basics/07_Graph/04_removeVertex.js:68-75 | removing A from A–B gives `{B: []}` |
| CourseGraph.RemoveMissingExample | 01_Basics/07_Graph/04_removeVertex.js:77-81 | removing a missing vertex from an empty graph leaves `{}` |
| CourseGraph.RemoveSelfLoopExample | 01_Basics/07_Graph/04_removeVertex.js:83-89 | a vertex whose only edge is a self-loop leaves `{}`, as written and corrected |
| CourseGraph.SelfLoopOnly | 01_Basics/07_Graph/04_removeVertex.js:83-89 | the lists of test 3: removing A from `{A: [A, A]}` leaves `{}` both ways |
| CourseGraph.RemoveTwiceExample | 01_Basics/07_Graph/04_removeVertex.js:91-101 | from the path A–B–C, removing A then C gives `{B: []}` |
| CourseGraph.PathABC | 01_Basics/07_Graph/04_removeVertex.js:91-101 | the lists of test 4: built by the edges, then emptied one vertex at a time |
| CourseGraph.RemoveHubExample | 01_Basics/07_Graph/04_removeVertex.js:103-112 | removing A from A–B and A–C gives `{B: [], C: []}` |
| CourseGraph.HubABC | 01_Basics/07_Graph/04_removeVertex.js:103-112 | the lists of test 5: built by the edges, then emptied |
| CourseGraph.SelfLoopNeighborExample | 01_Basics/07_Graph/04_removeVertex.js:54-62 | on `{A: [A, A, B], B: [A]}` the code as written leaves `{B: [A]}`, which is not symmetric; the corrected one leaves `{B: []}` |

## Left out

- Printing and logging are not modelled: `print`, `printList`, `printTable`, `printGraph`, `printStack`, `printQueue`, `getHead`, `getTail`, `getLength`, `getTop`, `getFirst`, `getLast`, the logging tree traversals (`preorder`, `inorder`, `postorder`, `levelOrder`), the recursive logging graph `dfs` and the queue file's `bfs`. The graph traversals that are kept return the visit order they would log.
- Not modelled because they rest on floating point: `dijkstra`, `MinPriorityQueue` and `bellmanFord` (the `Infinity` sentinel), and `evalRPN` (`Number`, `isNaN`, division with `Math.trunc`).
- `groupAnagrams` and `longestConsecutive` are not modelled: they lean on the built-in `Map`, `Set` and string sort.
- `lowestCommonAncestor`, `CircularLinkedList`, `hasCycle`, `removeNthFromEnd` and `StackUsingQueues` are not part of this model.
- Load-factor resizing exists only as a comment, so no resize is modelled.
- Node values are `int` or a type parameter. Graph vertices and hash keys are strings compared with plain equality. JS object-key coercion and loose equality are not modelled.
- `charCodeAt` is the character's code point (`c as nat`). UTF-16 code units of characters outside the basic plane are not modelled.
- HashTableNotes.FirstUniqueChar: a string is a sequence of characters, each counted and indexed alike. The source counts with `for (ch of s)`, which yields code points, but indexes with `s[i]`, which yields UTF-16 code units. So in the source, a character outside the basic plane never counts as unique at its index. The model does not capture this.
- The probing table's `set`, `get` and `delete` require a slot that stops the probe (a `null` slot or the key). On a full table without the key the source loops forever.
- The numeric stable sort (`(a, b) => a - b`) in the sorted `PriorityQueue`'s `enqueue` is modelled by its outcome on an array that is already ascending. The new value is inserted after every value not greater than it. The sorting algorithm itself is not modelled.
- `CircularQueue` is constructed with `capacity >= 1`. The full/empty answers are modelled as the `full` result and `None`, not as the source's strings.
- TreeHeap.MinHeap.ExtractMin: requires a non-empty heap. On an empty heap the source's `pop` returns `undefined` and the code then writes it into the array, which the model does not follow.
- The singly linked node chains are described by ghost node sequences. `mergeLists` requires its two input chains to share no node.
- HasCycleUndirected: the `true` answer is proved to mean a cycle of distinct vertices only on simple graphs, that is, without self-loops or repeated neighbours. On other graphs a self-loop or a neighbour listed twice makes the source answer true without such a cycle.
- GraphNotes.Bfs, GraphNotes.DfsIterative and GraphNotes.ShortestPathUnweighted require the whole graph to be closed, so every listed neighbour is a vertex. The source only reads the lists of the vertices it reaches, so it needs only the part reachable from `start` to be closed. It finishes normally on `{A: ['B'], B: [], C: ['D']}` from `A`, an input the model excludes. It throws only when it reaches a dangling neighbour, whose list it reads as `undefined`. Every graph built with the notes' own `addEdge` is closed.
- GraphCycles.HasCycleDirected, GraphCycles.TopologicalSort and UndirectedCycles.HasCycleUndirected carry the same requirement, because the `for..of` over `graph[node]` throws on `undefined`.
- GraphNotes.Bfs and GraphNotes.DfsIterative: require `start` to be a vertex. For any other start the source logs it and then throws when `for..of` reads `graph[start]` as `undefined`. The model does not follow the throw.
- GraphNotes.ShortestPathUnweighted: requires `start` to be a vertex only when `start != end`, for the same reason. When they are equal, the source's first round answers 0 before it reads any list.
- StringHash.HashOf and StringHash.SimpleHash: require `size >= 1`. With `size` 0, `% size` gives `NaN` for any non-empty key; an empty key hashes to 0.
- HashTableNotes.ChainingTable.constructor: requires `size >= 1`. With `size` 0, every non-empty key hashes to `NaN`, and the source's table keeps working on one bucket stored under the array's `NaN` property. The model does not follow this. A negative size makes `new Array(size)` throw.
- CourseHashTable.HashTable.constructor: requires `size >= 1`. With `size` 0, `_hash` gives `NaN` for every non-empty key, and `set` and `get` work on a bucket stored under the array's `NaN` property. The model does not follow this.
- HashTableNotes.ProbingTable.constructor: requires `size >= 1`. With `size` 0, every probe reads an `undefined` slot, which is not `null`, and then throws on `undefined[0]`.
- CourseGraph.Graph.RemoveVertex and CourseGraph.Graph.RemoveVertexAsWritten require the symmetry invariant (`Valid`). This is needed so that every name in a list is a vertex. Without it the source's `this.adjacencyList[vertexName].filter(...)` throws on a dangling name.
- `01_addVertex.js`'s `addVertex` is the same code as the one in `04_removeVertex.js`, so it is modelled once, as `CourseGraph.Graph.AddVertex`.
- Within each course exercise family, the later files repeat the earlier classes verbatim. Each class is modelled once:
  - the course linked list (`06_get.js`, `07_set.js`, `08_insert.js`, `10_reverse.js`);
  - the course hash table (`01_constructor.js`, `02_set.js`, `03_get.js`);
  - the course BST (`01_constructor.js`, `02_insert.js`, `03_contains.js`).

## Findings

| source | as written | input that shows it | evidently intended | confidence | as-written member | corrected member |
|---|---|---|---|---|---|---|
| 00_DSA-Notes/05_hashTable.js:201-213 | `delete` sets the matched slot back to `null` | size 2: `set("a")`, `set("c")` (both hash to slot 1, so "c" goes to slot 0), `delete("a")`, then `get("c")` stops at the empty slot 1 and answers `null` | a deleted slot leaves a tombstone that later probes step over, so every stored key stays reachable | not executed | HashTableNotes.ProbeDeleteAsWrittenLosesKey | HashTableNotes.ProbeDeleteKeepsChains |
| 01_Basics/07_Graph/04_removeVertex.js:54-62 | the loop re-reads `adjacencyList[vertex].length` and its entries while filtering that same list when the vertex is its own neighbour | `addVertex('A')`, `addVertex('B')`, `addEdge('A','A')`, `addEdge('A','B')`, `removeVertex('A')` leaves `{B: ['A']}` | every occurrence of the removed vertex disappears from every list and the symmetry invariant holds | not executed | CourseGraph.AsWrittenSelfLoopCounterexample | CourseGraph.Graph.RemoveVertex |
