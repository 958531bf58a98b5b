# Verified models of microservice-kit

A Dafny 4.11 model of the state-carrying parts of microservice-kit, with proofs of what they promise. Where the
Go code changes things in place, so does the model: heap nodes with parent pointers, a doubly linked list, a ring
buffer, statistics and status fields. Each such method is proved against a mathematical object (a sorted list of
entries, a recency list, a sequence, a trace of calls, a protocol state), and the promises are proved about that
object. `dafny verify dfyconfig.toml` checks everything.

| files | what they model |
|---|---|
| `OrderedEntries`, `RedBlackTree`, `TreeHeap`, `RedBlackRepair`, `TreeSearch`, `TreeMap` | the red-black tree map: sorted entries; trees, contexts and red-black conditions; heap nodes as memory; the repair cases; search and height; the class |
| `RecencyList`, `RecencyHistory`, `LruCache` | the LRU cache, the recency list it must agree with, and what its history says it holds |
| `BitMask`, `RingView`, `DequeCost`, `Deque` | the ring-buffer deque, its bit masks and its amortised cost |
| `PriorityQueue` | the binary heap and heap sort |
| `TokenBucket`, `SlidingWindow`, `FixedWindow` | the three local rate limiters, over whole runs |
| `Semaphore` | the distributed semaphore as interleaved steps |
| `SagaTrace`, `Saga` | the saga engine, its calls and their net effect |
| `SchedulerProtocol`, `LockStore`, `JobRunner` | `executeJob` as interleaved steps; the lock and cache under it; the sequential code with its statistics |
| `Idempotency`, `IdempotentStore` | the idempotency middleware as interleaved steps; the store and the sequential code |
| `Option` | the optional value |

Conventions. Time is an input that never runs backwards: a real number of seconds for the token bucket (whose
`float64` counts become reals), an integer elsewhere. A comparator is a total preorder and a `less` function a
strict weak order, as their doc comments ask. Critical sections and single store calls are atomic steps; a protocol
lemma quantifies over all sequences of such steps by any number of callers. Handlers, actions, loaders, `next`,
contexts and the outcome of store calls are parameters, so statements hold for all their behaviours.

Three pairs of files describe the same code twice: the protocol (`Semaphore`, `SchedulerProtocol`, `Idempotency`)
says what may happen when callers interleave, and the methods say what the code does when nobody interferes.
`TryAcquire`, `ExecutionIsARun` and `HandleIsARun` connect the two: what a method does is a run of its own steps.

Where stored state decides, the methods agree with a function of that state, and laws about whole runs say, without
that function, which answers and values there can be (`AdmittedExactly` of each
limiter, `HoldsLastWrite` and `EvictsLeastRecentlyUsed` of the cache, `WhyItEnds` of the saga, `HistoryDecides` of the
tree map).

Where a promise fails, or the documentation says something else, the model keeps the code's behaviour, gives the run
that shows it for every case in which it fails, and proves the promise for the others:

- A plain `Get` on an LRU cache does not load on a miss and can break the inclusion between two cache sizes
  (`GetAndInclusion`); over whole runs it does so between any two different sizes (`InclusionWithGetIff`).
- A saga with a negative retry count calls no action and reports success (`NegativeRetryCallsNothing`).
- The scheduler's `Unlock` deletes the lock in the store and clears its own mark in two steps; calls that share an
  instance and a lock but not a singleton state word can leave a lock behind for good (`NothingLeftIff`). Calls
  that share an owner id can free each other's locks after an expiry (`OwnLockIff`). Distributed jobs that are
  singletons too are safe from both.
- The lock's time to live is chosen from the timeout of one attempt, although the lock is held over all retries
  (`LockOutlivedIff`, `TTLCoversOneAttempt`).
- The idempotent store's `SetNX` is two calls to the key-value store, and between them a whole request can pass;
  then `next` runs twice, for any two requests that share the key (`HalvedAtMostOnceIff`). Skipping store errors
  gives up the promise as well (`AtMostOnceIff`).
- An error with an empty text is replayed as a success (`ReplayIsFaithful`).
- A key `lock:x` and the key `x` share a place in the idempotent store (`UndisturbedIff`).
- `Rotate(n)` with positive `n` moves elements from the head to the tail; its doc comment calls this rotating to
  the right, and the model follows the code.
- The semaphore can refuse an attempt while nobody holds or will get a permit, exactly if there are more attempts
  than permits (`RefusedWhileFreeIff`). It trusts its callers to release only what they hold: k releases too many let
  `size + k` permits be held (`HoldsAtMostIff`, `StrayReleasesIff`).
- A deque made for more than 128 elements can copy more than two elements an operation (`CopiesAtMostTwiceIff`), and
  so can one that has grown as large and been emptied by `Clear`, counted from there. Three elements a push and half
  of the room beyond the smallest buffer are always enough (`CopiesAtMostThricePerPush`).
- The token bucket accepts negative requests. The net bound survives them (`AdmittedInInterval`); a bound on what is
  handed out does not, for any capacity from one token on (`HandsOutWithinBoundIff`).
- The fixed window's bound holds in all runs exactly if no request is negative, for windows of positive length; for
  windows of no length, where every call starts a new window, exactly if the limit lets nothing through
  (`TwiceLimitIff`).
- A negative sliding window forgets everything at the next call; the bound then holds only for a limit of zero
  (`LimitIff`).
- A lock that expires while its job runs lets a second call run beside it, unless the two are kept apart by one
  singleton state word (`ExclusiveDespiteExpiryIff`).

## Model

| member | source | states |
|---|---|---|
| `TreeMaps.TreeMap.constructor` | util/collections/treemap/tree_map.go:53-55 | the empty map satisfies the whole invariant |
| `TreeMaps.TreeMap.Put` | util/collections/treemap/tree_map.go:65-100 | keeps search order, black root, no red-red edge, equal black heights, parent/child link agreement, acyclicity and `size`; the contents change as in a sorted association list: an equivalent key keeps its key and gets the new value, a new key is inserted in place |
| `TreeMaps.TreeMap.InsertFixup` | util/collections/treemap/tree_map.go:340-377 | from a tree whose only fault is the red node `n` under a possibly red parent, restores every red-black condition without changing the in-order contents or the set of nodes; ends because the faulty node climbs |
| `TreeMaps.TreeMap.InsertFixupUnderLeft` | util/collections/treemap/tree_map.go:341-357 | one round under a left-child parent: the fault moves strictly up or is gone, contents and nodes unchanged |
| `TreeMaps.TreeMap.RotateLeft` | util/collections/treemap/tree_map.go:304-320 | on the heap, all six pointers of a left rotation are set so that the represented tree is the rotated one, in any surrounding tree |
| `TreeMaps.TreeMap.RotateRight` | util/collections/treemap/tree_map.go:322-338 | the mirror image |
| `TreeMaps.TreeMap.Remove` | util/collections/treemap/tree_map.go:121-132 | returns what was stored under the key; the contents lose exactly the entry of that key; the whole invariant is kept and no nil pointer is followed |
| `TreeMaps.TreeMap.DeleteNode` | util/collections/treemap/tree_map.go:379-415 | removes the node or, after copying, its in-order successor: exactly the entry at the position disappears and the tree is red-black again |
| `TreeMaps.TreeMap.MoveSuccessor` | util/collections/treemap/tree_map.go:383-389 | copying the successor's entry makes the successor, which has no left child, the node whose removal takes away exactly the original entry |
| `TreeMaps.TreeMap.DeleteFixup` | util/collections/treemap/tree_map.go:417-490 | from a tree that is one black node short at `n`, restores every red-black condition without changing contents or nodes; ends because the shortage climbs or meets a red node |
| `TreeMaps.TreeMap.DeleteFixupUnderLeft` | util/collections/treemap/tree_map.go:419-451 | one round under a left child, through all four cases: the shortage is gone or strictly higher, or stands at a red node |
| `TreeMaps.TreeMap.DeleteFixupUnderRight` | util/collections/treemap/tree_map.go:452-485 | the mirror image |
| `RedBlackRepair.SiblingExists` | util/collections/treemap/tree_map.go:420-484 | while a black node is missing the sibling is never nil, and a red sibling has two children: the `sibling == nil` tests never decide anything |
| `RedBlackRepair.RecolourStep` | util/collections/treemap/tree_map.go:342-348 | red uncle: recolouring moves the fault two levels up and keeps black heights |
| `RedBlackRepair.RotateStep` | util/collections/treemap/tree_map.go:349-357 | black uncle, outer grandchild: recolouring and one rotation end the fault |
| `RedBlackRepair.LowerStep` | util/collections/treemap/tree_map.go:420-426 | red sibling: after recolouring and rotating, the same shortage stands under a black sibling |
| `RedBlackRepair.MoveUpStep` | util/collections/treemap/tree_map.go:427-433 | black sibling with black children: a red sibling moves the shortage up |
| `RedBlackRepair.SwingStep` | util/collections/treemap/tree_map.go:434-442 | black sibling whose far child is black: afterwards the far child is red |
| `RedBlackRepair.FinishStep` | util/collections/treemap/tree_map.go:443-451 | black sibling with a red far child: one rotation makes the whole tree red-black |
| `RedBlackRepair.BlackenRoot` | util/collections/treemap/tree_map.go:341-376 | when the loop of `insertFixup` ends, painting the root black gives a red-black tree |
| `RedBlackTree.RedBlackOfPlug` | util/collections/treemap/tree_map.go:340-490 | a subtree and a context that fit in black height and colour make a red-black tree with a black root |
| `RedBlackTree.RedBlackUnplug` | util/collections/treemap/tree_map.go:340-490 | conversely, at every position of a red-black tree subtree and context fit |
| `RedBlackTree.RotationsKeepOrder` | util/collections/treemap/tree_map.go:304-338 | rotations change neither the in-order entries nor the nodes, and undo each other's shape |
| `TreeHeap.TurnLeftAt` | util/collections/treemap/tree_map.go:304-320 | the pointer assignments of a left rotation, as an update of memory, represent the rotated tree at any place |
| `TreeHeap.TurnRightAt` | util/collections/treemap/tree_map.go:322-338 | the mirror image |
| `TreeHeap.SpliceAt` | util/collections/treemap/tree_map.go:391-410 | replacing a node by its only child in memory represents the tree without that node |
| `TreeMaps.TreeMap.FindNode` | util/collections/treemap/tree_map.go:257-270 | finds the node of the key, or nil exactly when the map does not hold it, with one comparison at every node on the way |
| `TreeMaps.TreeMap.LogarithmicSearch` | util/collections/treemap/tree_map.go:257-270 | in every valid map a search that ends at a position has made at most 2·log2(size+1) comparisons, stated as `2^comparisons <= (size+1)^2` |
| `TreeSearch.HeightOfPlug` | util/collections/treemap/tree_map.go:257-270 | the way to any position, with the comparison there, is no longer than the tree is high |
| `TreeSearch.LogarithmicHeight` | util/collections/treemap/tree_map.go:257-270 | the height of a red-black tree is at most 2·log2(size+1) |
| `TreeMaps.TreeMap.Get` | util/collections/treemap/tree_map.go:103-110 | the value last put under the key, if it is there |
| `TreeMaps.TreeMap.Minimum` | util/collections/treemap/tree_map.go:273-278 | the leftmost node of the subtree |
| `TreeSearch.MinPosition` | util/collections/treemap/tree_map.go:273-278 | the leftmost node holds the smallest entry, and replacing it by its right child removes just that entry |
| `TreeSearch.SuccessorPosition` | util/collections/treemap/tree_map.go:383-389 | replacing an entry by its in-order successor and taking the successor out removes exactly the entry |
| `TreeMaps.TreeMap.InorderTraversal` | util/collections/treemap/tree_map.go:289-300 | what the visitor sees is a prefix of the entries in key order in which it accepts all but the last; it goes to the end if none is refused, and else the last one is the one refused |
| `TreeSearch.OneVisit` | util/collections/treemap/tree_map.go:289-300 | what a visitor sees, and whether it refused, is determined by that |
| `TreeMaps.TreeMap.Entries` | util/collections/treemap/tree_map.go:176-183 | all entries, in strictly increasing key order |
| `TreeMaps.TreeMap.Clear` | util/collections/treemap/tree_map.go:150-153 | the map is empty and valid |
| `TreeMaps.TreeMap.Clone` | util/collections/treemap/tree_map.go:242-249 | a valid map with the same contents and comparator that shares no node with the original |
| `OrderedEntries.UpsertIsMapUpdate` | util/collections/treemap/tree_map.go:65-100 | putting a key changes the lookup of equivalent keys and of no other, keeps the order, and grows the map exactly when the key was missing |
| `OrderedEntries.EraseIsMapRemoval` | util/collections/treemap/tree_map.go:121-132 | removing a key makes equivalent keys missing, changes no other, keeps the order, and shrinks the map exactly when the key was there |
| `OrderedEntries.HistoryDecides` | util/collections/treemap/tree_map.go:65-153 | after any history of `Put`, `Remove` and `Clear`, the keys are strictly increasing and each lookup answers what the last operation on that key says |
| `LruCaches.LRUCache.constructor` | util/collections/lrucache/lru_cache.go:36-53 | the empty cache; a capacity below one becomes one |
| `LruCaches.LRUCache.Get` | util/collections/lrucache/lru_cache.go:57-68 | answers as the recency list does and moves the key to its front; hash map and both link directions stay in agreement |
| `LruCaches.LRUCache.Put` | util/collections/lrucache/lru_cache.go:73-92 | the front of the list is the key with the new value, whether it was there or not; a missing key evicts the last entry of a full cache |
| `LruCaches.LRUCache.GetOrPut` | util/collections/lrucache/lru_cache.go:95-115 | the front of the list is the key with the value returned: on a hit the old value, on a miss the loaded one, with eviction as for `Put` |
| `LruCaches.LRUCache.Remove` | util/collections/lrucache/lru_cache.go:139-149 | takes out exactly the key and says whether it was there |
| `LruCaches.LRUCache.Clear` | util/collections/lrucache/lru_cache.go:164-171 | the cache is empty and valid |
| `LruCaches.LRUCache.Keys` | util/collections/lrucache/lru_cache.go:174-183 | the keys from most to least recently used |
| `LruCaches.LRUCache.Resize` | util/collections/lrucache/lru_cache.go:187-201 | keeps the most recently used entries that fit and drops the others |
| `LruCaches.LRUCache.AddToFront` | util/collections/lrucache/lru_cache.go:206-211 | links an entry behind the head sentinel in both directions |
| `LruCaches.LRUCache.RemoveEntry` | util/collections/lrucache/lru_cache.go:214-217 | unlinks one entry in both directions and leaves the other links alone |
| `LruCaches.LRUCache.MoveToFront` | util/collections/lrucache/lru_cache.go:220-223 | the chain with one entry moved to the front |
| `LruCaches.LRUCache.RemoveLast` | util/collections/lrucache/lru_cache.go:226-232 | drops the least recently used entry from list and hash map, if there is one |
| `RecencyList.RunIsBounded` | util/collections/lrucache/lru_cache.go:57-171 | in every run no key occurs twice and the length never exceeds the capacity |
| `RecencyList.Inclusion` | util/collections/lrucache/lru_cache.go:73-115 | for any run of `Put`, `GetOrPut`, `Remove` and `Clear` on two capacities, the smaller cache's keys are a prefix of the larger's |
| `RecencyList.GetAndInclusion` | util/collections/lrucache/lru_cache.go:57-68 | a plain `Get` keeps that prefix relation if and only if the smaller cache holds the key, the larger does not, or the smaller is empty |
| `RecencyList.GetBreaksInclusion` | util/collections/lrucache/lru_cache.go:57-68 | for any two different capacities, a run after which it fails: one key more than the smaller cache holds, then a `Get` of the first |
| `RecencyList.InclusionWithGetIff` | util/collections/lrucache/lru_cache.go:57-115 | with `Get` among the operations, the prefix relation holds after all runs if and only if the capacities are equal |
| `RecencyList.ResizeKeepsRecent` | util/collections/lrucache/lru_cache.go:187-201 | after `Resize` exactly the first `capacity` entries remain |
| `RecencyHistory.HeldAfter` | util/collections/lrucache/lru_cache.go:57-171 | what one operation does to the value held for any key: only a write of the key changes it, and only its removal, a `Clear` or an insertion into a full cache in which it is the last ends it |
| `RecencyHistory.HoldsLastWrite` | util/collections/lrucache/lru_cache.go:57-171 | in every run, each key held has the value of the last `Put` of it, or of the last `GetOrPut` that did not find it, whichever came later |
| `RecencyHistory.HeldInOrderOfUse` | util/collections/lrucache/lru_cache.go:57-171 | in every run, the keys stand in the order of the last operation that named them, latest first |
| `RecencyHistory.EvictsLeastRecentlyUsed` | util/collections/lrucache/lru_cache.go:73-115 | inserting a key loses another if and only if the cache is full and that other is the one whose last use lies furthest back |
| `Deques.Deque.constructor` | util/collections/deque/deque.go:26-30 | an empty deque of capacity 8 |
| `Deques.Deque.WithCapacity` | util/collections/deque/deque.go:33-41 | an empty deque whose capacity is the least power of two from 8 on that holds the request |
| `Deques.Deque.From` | util/collections/deque/deque.go:44-50 | holds the items in order; nothing is copied by growing |
| `Deques.Deque.PushFront` | util/collections/deque/deque.go:53-58 | prepends, through wrap-around and growth, at exactly the copying cost of the cost model |
| `Deques.Deque.PushBack` | util/collections/deque/deque.go:61-66 | appends, likewise |
| `Deques.Deque.PopFront` | util/collections/deque/deque.go:69-82 | takes the first element, if any, through wrap-around and shrinking, at exactly the modelled cost |
| `Deques.Deque.PopBack` | util/collections/deque/deque.go:85-98 | takes the last element, likewise |
| `Deques.Deque.At` | util/collections/deque/deque.go:119-125 | the element at the index, or nothing outside the range |
| `Deques.Deque.Set` | util/collections/deque/deque.go:128-134 | replaces the element at the index, or refuses outside the range |
| `Deques.Deque.Clear` | util/collections/deque/deque.go:147-155 | empty, every slot of the buffer zeroed, and the buffer and what has been copied as before |
| `Deques.Deque.Rotate` | util/collections/deque/deque.go:195-214 | rotation of the sequence by `n` modulo the count, for every integer `n`, at exactly the cost of that many pops and pushes |
| `Deques.RotateBack` | util/collections/deque/deque.go:195-214 | `Rotate(-n)` undoes `Rotate(n)` |
| `Deques.RotateOneMore` | util/collections/deque/deque.go:195-214 | rotating by one more takes the first element to the back; rotating by none changes nothing |
| `Deques.RemainderIsModulo` | util/collections/deque/deque.go:195-207 | Go's signed remainder, made non-negative as the code does, is the mathematical modulus |
| `Deques.Deque.Reverse` | util/collections/deque/deque.go:217-223 | the reversed sequence, in place across the wrap-around |
| `Deques.Deque.Resize` | util/collections/deque/deque.go:247-260 | same contents in a new buffer, unwrapped, copying each element once |
| `BitMask.MaskIsModulo` | util/collections/deque/deque.go:227-233 | masking with `n-1` is reduction modulo a power of two `n`, for negative operands too |
| `DequeCost.AmortisedStep` | util/collections/deque/deque.go:235-245 | one operation's copying plus the change of potential is at most 2 (push) or 1 (pop), and the density invariant is kept |
| `DequeCost.AmortisedRun` | util/collections/deque/deque.go:235-260 | the same summed over any run |
| `DequeCost.CopiesAtMostTwicePerOperation` | util/collections/deque/deque.go:53-98 | from `New`, any m pushes and pops copy at most 2m elements |
| `DequeCost.CopiesAtMostTwiceIff` | util/collections/deque/deque.go:33-41 | a deque made by `NewWithCapacity` copies at most two elements an operation in every run if and only if at most 128 elements were asked for |
| `DequeCost.SparseRun` | util/collections/deque/deque.go:235-260 | up to 128 slots, the copying of a sparse deque is paid for by two elements an operation and a debt that depends on the halvings |
| `DequeCost.LargeDequesCopyMore` | util/collections/deque/deque.go:235-260 | from 256 slots on, nine pushes and five pops copy 30 elements |
| `DequeCost.ClearedIsDenseIff` | util/collections/deque/deque.go:147-155 | `Clear` keeps the buffer, so a cleared deque is dense again if and only if its buffer is the smallest |
| `DequeCost.CopiesAtMostThricePerPush` | util/collections/deque/deque.go:53-155 | from `New`, any run of pushes, pops and clears copies at most three elements for every push; from a larger capacity, half of the extra room more |
| `DequeCost.ReserveStep` | util/collections/deque/deque.go:53-155 | each such operation is paid for by three elements a push and half of the buffer |
| `DequeCost.RotationCost` | util/collections/deque/deque.go:195-214 | a rotation by n copies at most 3n elements beyond what was paid before, and a dense deque stays dense |
| `PriorityQueues.PriorityQueue.Push` | util/collections/priorityqueue/priority_queue.go:54-59 | keeps heap order and adds exactly the items |
| `PriorityQueues.PriorityQueue.Pop` | util/collections/priorityqueue/priority_queue.go:62-78 | returns an element that nothing in the queue comes before, and takes out just that one |
| `PriorityQueues.PriorityQueue.ToSlice` | util/collections/priorityqueue/priority_queue.go:106-113 | a sorted permutation of the contents; the queue is left empty |
| `PriorityQueues.PriorityQueue.Up` | util/collections/priorityqueue/priority_queue.go:126-135 | repairs a heap whose only fault is above one element |
| `PriorityQueues.PriorityQueue.Down` | util/collections/priorityqueue/priority_queue.go:138-161 | repairs a heap whose only fault is below one element |
| `PriorityQueues.UpStep` | util/collections/priorityqueue/priority_queue.go:126-135 | one exchange with the parent moves the fault up |
| `PriorityQueues.DownStep` | util/collections/priorityqueue/priority_queue.go:138-161 | one exchange with the first child moves the fault down, also when the two are equal |
| `PriorityQueues.RootIsFirst` | util/collections/priorityqueue/priority_queue.go:62-87 | nothing in a heap comes before its root |
| `TokenBuckets.TokenBucket.AllowN` | middleware/ratelimit/ratelimit.go:74-85 | admits exactly when the refilled bucket holds enough, and then takes just what was asked for; `AdmittedExactly` says what follows for whole runs |
| `TokenBuckets.AdmittedExactly` | middleware/ratelimit/ratelimit.go:74-128 | for any configuration, bucket and requests of any sign: the answers of a run are the only ones in which a call is granted if and only if, counting from each call up to itself, the net units granted since and its own fit into a full bucket and what the rate supplies in between, and likewise for the bucket at the start |
| `TokenBuckets.NewBucketAdmitsExactly` | middleware/ratelimit/ratelimit.go:58-85 | from a new bucket the calls alone decide: granted if and only if no interval that ends with the call and begins with it or an earlier one would exceed capacity plus rate times its length |
| `TokenBuckets.AdmittedInInterval` | middleware/ratelimit/ratelimit.go:74-85 | in every run, whatever the requests ask for, the units admitted in any interval, net of those given back, are at most capacity plus rate times its length |
| `TokenBuckets.TokensStayInRange` | middleware/ratelimit/ratelimit.go:74-128 | every decision is made on a token count in [0, capacity]; if no request is negative the count never leaves that range at all |
| `TokenBuckets.RefillTwice` | middleware/ratelimit/ratelimit.go:120-128 | two refills make one |
| `TokenBuckets.DeniedCallsLeaveNoTrace` | middleware/ratelimit/ratelimit.go:74-128 | leaving a denied call out of any run changes no other answer |
| `TokenBuckets.ComputedWaitIsEnough` | middleware/ratelimit/ratelimit.go:93-117 | the wait `WaitN` computes suffices, undisturbed, if and only if the request fits the capacity |
| `TokenBuckets.HandsOutWithinBoundIff` | middleware/ratelimit/ratelimit.go:74-85 | counting only what is handed out, the same bound holds in every run from a new bucket if and only if the capacity is below one token, because negative requests are accepted |
| `TokenBuckets.AskAgainHandsOutTwice` | middleware/ratelimit/ratelimit.go:74-85 | otherwise, the run that hands out twice the whole tokens at one instant |
| `TokenBuckets.HandedOutIsAdmitted` | middleware/ratelimit/ratelimit.go:74-85 | without negative requests both counts agree |
| `SlidingWindows.SlidingWindow.AllowN` | middleware/ratelimit/ratelimit.go:160-174 | an admitted request adds its units, one entry each, to the log of admissions, and a refused one nothing; where the window is not negative, admits if and only if, with the request, at most `limit` units of that log fall into [now-window, now] |
| `SlidingWindows.AdmittedExactly` | middleware/ratelimit/ratelimit.go:160-222 | for any limit, window and stored timestamps, in every run of calls in time order: the answers are the only ones in which a call is granted if and only if the stored and granted units not older than the window, with its own, stay within the limit |
| `SlidingWindows.NewLimiterAdmitsExactly` | middleware/ratelimit/ratelimit.go:146-174 | the same from a new limiter, where only granted calls count |
| `SlidingWindows.AdmissionsAreGranted` | middleware/ratelimit/ratelimit.go:160-174 | the log of admissions of a run counts exactly the units of the granted calls, at their times |
| `SlidingWindows.SlidingWindow.Cleanup` | middleware/ratelimit/ratelimit.go:213-222 | drops exactly the expired prefix |
| `SlidingWindows.SlidingWindow.NeverMoreThanLimit` | middleware/ratelimit/ratelimit.go:160-174 | in every reachable state, any closed interval as long as the window holds at most `limit` admissions |
| `SlidingWindows.SpreadBoundsEveryInterval` | middleware/ratelimit/ratelimit.go:160-174 | if any limit+1 consecutive admissions span more than a window, every interval is bounded |
| `SlidingWindows.DropExpired` | middleware/ratelimit/ratelimit.go:213-222 | prefix cleanup is exact because timestamps are sorted |
| `SlidingWindows.ServeTracks` | middleware/ratelimit/ratelimit.go:160-174 | every call keeps: the stored timestamps are exactly the admissions of the window, and the log of all admissions is spread out |
| `SlidingWindows.RunWithinLimit` | middleware/ratelimit/ratelimit.go:160-174 | in every run, any closed interval as long as the window holds at most `limit` admissions |
| `SlidingWindows.LimitIff` | middleware/ratelimit/ratelimit.go:146-174 | that bound holds in every run from a new limiter if and only if the window is not negative or the limit is zero |
| `SlidingWindows.NegativeWindowForgets` | middleware/ratelimit/ratelimit.go:160-222 | otherwise, two calls at one instant that admit two limits |
| `FixedWindows.FixedWindow.AllowN` | middleware/ratelimit/ratelimit.go:252-267 | admits exactly when the window that is current then has room, and the state is that of the window model, for any limit, window and request |
| `FixedWindows.AdmittedExactly` | middleware/ratelimit/ratelimit.go:252-267 | for any limit, window, count and requests, in any order of times: the answers of a run are the only ones in which a call is granted if and only if the units granted since its window opened, with its own, stay within the limit |
| `FixedWindows.OpenerIs` | middleware/ratelimit/ratelimit.go:257-260 | where a window opens: at a call no earlier than the end of the window before; every later call within its length falls into it |
| `FixedWindows.OneWindow` | middleware/ratelimit/ratelimit.go:252-267 | until the current window ends, no more is handed out than its count leaves of the limit |
| `FixedWindows.TwoWindows` | middleware/ratelimit/ratelimit.go:252-267 | until the window after it must have ended, at most one limit more |
| `FixedWindows.NeverMoreThanTwiceLimit` | middleware/ratelimit/ratelimit.go:252-267 | in every run without negative requests, a closed interval as long as the window holds at most 2·limit units |
| `FixedWindows.TwiceLimitIff` | middleware/ratelimit/ratelimit.go:238-267 | for every limit and window, with or without negative requests: that bound holds in every run from a new limiter if and only if no request is negative, for windows of positive length, or the limit is zero or less, for others |
| `FixedWindows.BoundaryBurst` | middleware/ratelimit/ratelimit.go:252-267 | the bound is reached, by two calls around a boundary |
| `FixedWindows.NegativeRequestMakesRoom` | middleware/ratelimit/ratelimit.go:252-267 | for every limit and window of positive length, a run with one negative request that hands out 2·limit + 1 units at one instant |
| `FixedWindows.NoWindowNoLimit` | middleware/ratelimit/ratelimit.go:252-267 | for every window of no length, three calls at one instant hand out three limits |
| `Semaphores.StepKeepsInv` | middleware/semaphore/distributed.go:90-118 | every atomic step keeps: counter = granted + in flight + leaked - stray releases, and promised permits at most `size` plus the strays |
| `Semaphores.SafeInEveryRun` | middleware/semaphore/distributed.go:90-118 | in every interleaving, failed decrements and k stray releases included, granted permits never exceed `size + k`, nor the counter by more than k |
| `Semaphores.NothingLeaks` | middleware/semaphore/distributed.go:90-118 | without failed decrements nothing leaks |
| `Semaphores.AvailableIsExact` | middleware/semaphore/distributed.go:121-133 | with nothing in flight and nothing failed, `Available` is `size` minus granted |
| `Semaphores.NeverTooManyAvailable` | middleware/semaphore/distributed.go:121-133 | in every run without stray releases, whatever fails, `Available` is between zero and `size` minus granted, and is exact if and only if nothing is in flight or leaked or nothing is free |
| `Semaphores.RefusedWhenFull` | middleware/semaphore/distributed.go:90-112 | an attempt is refused if and only if granted, in flight and leaked, less the strays, fill the semaphore at its increment |
| `Semaphores.RefusedWhileFreeIff` | middleware/semaphore/distributed.go:90-112 | for every size and number of attempts: some failure-free run refuses an attempt although nobody holds or will get a permit, if and only if there are more attempts than permits |
| `Semaphores.Drain` | middleware/semaphore/distributed.go:90-118 | the run: each holder in turn releases its permit and tries again, in vain |
| `Semaphores.StrayReleasesIff` | middleware/semaphore/distributed.go:115-118 | for every size and number of attempts, runs with at most k stray releases keep granted permits within `size` if and only if k is zero or there are no more attempts than permits |
| `Semaphores.HoldsAtMostIff` | middleware/semaphore/distributed.go:90-118 | such runs keep granted permits within m if and only if m is at least size + k or the number of attempts |
| `Semaphores.PermitsInTurn` | middleware/semaphore/distributed.go:90-118 | after k stray releases, size + k attempts in turn all get a permit |
| `Semaphores.Distributed.TryAcquire` | middleware/semaphore/distributed.go:90-112 | undisturbed, the call is a run of its own protocol steps; it succeeds if and only if the increment succeeds and there was room, and otherwise leaves the counter as it was |
| `Semaphores.Distributed.Acquire` | middleware/semaphore/distributed.go:74-87 | for every sequence of turns, in which other clients change the counter and each counter call may fail: succeeds at the first turn that finds room, and leaves behind one permit or just the leaks of failed decrements |
| `Sagas.Execution.ExecuteWithData` | saga/saga.go:115-252 | for every pattern of outcomes, retries and cancellations: calls, world, step statuses and saved statuses as in `Finished`; nil if and only if Completed; otherwise the error carries the cause for which the run stopped (`Explained`), and the error of the last compensation that failed, if one did |
| `Sagas.WhyItEnds` | saga/saga.go:148-206 | no action is called after a look at the context that found it done: each call comes right after a look that did not; a run that stops has as its cause the error of its last call, which was the last attempt at its step, or the error of the context at the next look; under a context that is never done, a run stops if and only if some step used up its attempts |
| `Sagas.WhatWasCalled` | saga/saga.go:148-206 | the steps tried are a prefix, at most one of them not completed; each is called until it succeeds, at most retryCount+1 times |
| `Sagas.WhatWasUndone` | saga/saga.go:288-334 | after a run that stops, each completed step that has a compensation has been compensated once, the last one first, and nothing else; after a completed run nothing |
| `Sagas.WhatIsReported` | saga/saga.go:208-252 | which of the terminal statuses the saga has, and each step, in terms of what was called and how it went |
| `Sagas.LastFailureIs` | saga/saga.go:288-334 | the compensation error is that of the last failed compensation, in the world in which it was called |
| `Sagas.Execution.ExecuteStepWithRetry` | saga/saga.go:255-285 | at most retryCount+1 attempts, failures first, stopping at the first success; a wait that the context does not end before each retry; the error is that of the last attempt, or of the context that ended a wait |
| `Sagas.Execution.Compensate` | saga/saga.go:288-334 | each completed step that has a compensation is compensated once, last first, continuing past failures; the statuses say which failed, the error is that of the last failure |
| `Sagas.Execution.RunSteps` | saga/saga.go:148-206 | steps are attempted in order, each after a look at the context that found it not done; a loop that stops returns why |
| `Sagas.Execution.Unwind` | saga/saga.go:225-252 | compensating is saved, then compensated or compensate_failed, matching the error returned, which carries the cause and the last failure |
| `Sagas.AllOrNothing` | saga/saga.go:148-252 | if failed attempts have no effect and compensations undo their actions, a Compensated run leaves the world as it was and a Completed run has applied every action once, in order |
| `SagaTrace.CompensatedLeavesNoTrace` | saga/saga.go:225-334 | the first half, about the trace of calls |
| `SagaTrace.CompletedAppliesAll` | saga/saga.go:148-223 | the second half |
| `SagaTrace.UndoRestores` | saga/saga.go:288-334 | undoing the first k steps in reverse restores the world before them |
| `SagaTrace.SuccessIsOneCall` | saga/saga.go:255-285 | the attempts at a step amount to one successful call |
| `Sagas.NegativeRetryCallsNothing` | saga/saga.go:255-285 | a negative retry count makes no call at all and completes; from zero on every completed step has had its successful call |
| `Sagas.Execution.constructor` | saga/state.go:74-91 | a new execution is pending in every step |
| `SchedulerProtocol.AtMostOneRuns` | scheduler/cron.go:257-322 | in every interleaving in which no held lock expires, at most one call per singleton `Job` and at most one per distributed job name is inside `runWithRetry` |
| `SchedulerProtocol.ExclusiveDespiteExpiryIff` | scheduler/cron.go:283-322 | when locks may expire at any time, two calls of one lock are never both inside `runWithRetry` in any run if and only if any two calls of one lock are of one singleton `Job` |
| `SchedulerProtocol.BothRunAfterExpiry` | scheduler/cron.go:283-322 | otherwise, the run in which both are inside |
| `SchedulerProtocol.SingletonStep` | scheduler/job.go:182-189 | every step keeps: the state word says running exactly while one call of the singleton job is inside |
| `SchedulerProtocol.SingletonRun` | scheduler/job.go:182-189 | the same over every run, whatever expires or fails |
| `SchedulerProtocol.LockStep` | storage/lock/redis.go:93-156 | every step but the expiry of a held lock keeps: whoever is between taking and returning the lock is the one whose lock is stored |
| `SchedulerProtocol.OnlyTheTakerReturns` | storage/lock/redis.go:136-156 | even with expiry at any time, the lock a call deletes is the one it put there, if calls under one owner id are kept apart |
| `SchedulerProtocol.OwnLockIff` | storage/lock/redis.go:136-156 | that holds in all runs if and only if calls of one owner id on one lock belong to one singleton job |
| `SchedulerProtocol.LockOfAnotherFreed` | storage/lock/redis.go:136-156 | otherwise, the run in which a call deletes another's lock |
| `SchedulerProtocol.EverythingIsReturned` | scheduler/cron.go:257-322 | without expiry or failing unlocks, once all calls are over every state word is idle and the lock store is empty, if calls on one instance are kept apart |
| `SchedulerProtocol.NothingLeftIff` | scheduler/cron.go:257-322 | that holds in all such runs if and only if calls that share an instance and a lock belong to one singleton job |
| `SchedulerProtocol.LockLeftBehind` | storage/lock/redis.go:136-156 | otherwise, the run in which the two steps of `Unlock` let a second call's mark be lost and its lock stay |
| `JobRunner.Executor.ExecuteJob` | scheduler/cron.go:257-322 | who is skipped and why; a skip is counted as one, a blocked call as nothing, a run as its attempts; the state word and, unless the store fails, the lock are back afterwards whatever the handler does |
| `JobRunner.Job.RunWithRetry` | scheduler/cron.go:325-368 | attempts in order up to retryCount+1, stopping at the first success; runs grow by the attempts, successes and failures by those that ended so, the total by their durations; last error and duration are those of the last attempt |
| `JobRunner.RunsAreAccountedFor` | scheduler/job.go:108-142 | an execution has at most one success, its last attempt, and then no last error; all other attempts are failures, more than `RetryCount` of them exactly if the last one failed too |
| `JobRunner.CountIs` | scheduler/job.go:117-142 | successes and failures are counted one for each attempt that ended so |
| `JobRunner.DurationFromFirst` | scheduler/job.go:117-142 | the durations recorded add up to the total, from the first attempt on |
| `JobRunner.ElapsedIs` | scheduler/cron.go:329-368 | an execution lasts as long as its attempts and a pause between each two of them, if the interval is positive |
| `JobRunner.LockOutlivedIff` | scheduler/cron.go:283-289 | a run whose attempts keep the timeout can outlive its lock if and only if the longest such run, retries and pauses included, does |
| `JobRunner.TTLCoversOneAttempt` | scheduler/cron.go:283-289 | the TTL rule always covers a job without retries; retries and pauses it covers exactly when they fit into the extra minute, for a timeout above the default TTL, or into what one attempt leaves of the default TTL, for others |
| `JobRunner.ExecutionIsARun` | scheduler/cron.go:257-368 | an undisturbed `executeJob`, errors of the lock store included, is a run of its call's own protocol steps, with the same final lock store, marks and state word |
| `LockStore.RedisLock.TryLock` | storage/lock/redis.go:93-106 | succeeds if and only if the store answers and no live lock is stored; then lock and mark are set, otherwise nothing changes |
| `LockStore.RedisLock.Unlock` | storage/lock/redis.go:136-156 | released if and only if the mark is set and the stored lock is the caller's; the mark is gone unless the store failed |
| `LockStore.MemoryCache.SetNX` | storage/cache/memory.go:182-204 | sets if and only if no unexpired value is there, with the deadline the TTL asks for |
| `LockStore.MemoryCache.Unlock` | storage/cache/memory.go:286-301 | deletes if and only if the stored value is the caller's, expired or not |
| `LockStore.TakeAndReturn` | storage/lock/redis.go:93-156 | taking and returning a lock leaves nothing, and in between it is live exactly until its deadline |
| `LockStore.TryLockIsItsSteps` | storage/lock/redis.go:93-106 | an undisturbed `TryLock` is a run of the protocol's steps to the same state |
| `LockStore.UnlockIsItsSteps` | storage/lock/redis.go:136-156 | an undisturbed `Unlock` is a run of the protocol's steps to the same state |
| `Idempotency.AtMostOnce` | middleware/idempotency/endpoint.go:40-128 | with `SetNX` as one step, no expiry and errors not skipped, for any number of concurrent requests `next` runs at most once for the key and each caller gets in-progress, if another was admitted, a store failure, its own live reply, or a replay of the one reply |
| `Idempotency.ErrorsDecide` | middleware/idempotency/endpoint.go:54-98 | in every run, whatever expires: exactly the requests that meet a store error are told so, or, if errors are skipped, are served without the lock |
| `Idempotency.ExactlyOnce` | middleware/idempotency/endpoint.go:40-128 | if moreover the store answers every request, then when all are answered `next` has run exactly once |
| `Idempotency.AtMostOnceIff` | middleware/idempotency/endpoint.go:54-98 | at-most-once holds in all such runs if and only if store errors are not skipped or no two requests share the key |
| `Idempotency.SkippedErrorsRunTwice` | middleware/idempotency/endpoint.go:54-98 | otherwise, the run in which both call `next` |
| `Idempotency.NeverTwoAtOnce` | middleware/idempotency/store.go:59-95 | at the granularity of single key-value calls, with any store errors, no two requests run `next` under the lock at once |
| `Idempotency.AdmittedOnceIff` | middleware/idempotency/store.go:59-95 | where it goes wrong at that granularity: a run admits a second request exactly at a step whose `Exists` was overtaken by another's result and lock deletion |
| `Idempotency.HalvedAtMostOnceIff` | middleware/idempotency/store.go:59-95 | at that granularity, with nothing failing or expiring, `next` runs at most once for the key in all runs if and only if no two requests share it |
| `Idempotency.AloneAtMostOnce` | middleware/idempotency/endpoint.go:40-128 | a request calls `next` at most once, whatever fails or expires |
| `Idempotency.HalvedSetNXRunsTwice` | middleware/idempotency/store.go:59-95 | the run, without any error or expiry, in which `next` is called twice |
| `Idempotency.ReplayIsFaithful` | middleware/idempotency/endpoint.go:131-137 | a replay succeeds if and only if the original succeeded or its error text is empty, and then carries the original's body or text |
| `Idempotency.WinnerStep` | middleware/idempotency/endpoint.go:40-128 | every step keeps: one admitted request, whose reply is the stored result, and everybody else waiting, refused or replayed |
| `IdempotentStores.Endpoint.Handle` | middleware/idempotency/endpoint.go:40-128 | one undisturbed request: answer, whether `next` was called, and the store afterwards, for each state of the key and each choice of failing store calls |
| `IdempotentStores.IdempotentStore.Get` | middleware/idempotency/store.go:43-56 | no result for a missing or empty text or a failing read, an error for an undecodable text |
| `IdempotentStores.IdempotentStore.Set` | middleware/idempotency/store.go:59-77 | the result is written and the lock deleted; a failing write changes nothing, a failing deletion leaves the lock |
| `IdempotentStores.IdempotentStore.SetNX` | middleware/idempotency/store.go:80-95 | takes the lock if and only if there is neither a result nor a lock and no call fails; errors are reported from the calls that are made |
| `IdempotentStores.WrittenIsHeld` | middleware/idempotency/store.go:43-77 | a written result is read back |
| `IdempotentStores.SecondIsReplay` | middleware/idempotency/endpoint.go:40-137 | once the result is written, the second request with a key is a replay of the first, whatever its own `next` would have said |
| `IdempotentStores.UnsavedStaysTaken` | middleware/idempotency/store.go:59-77 | a result that cannot be written leaves the key in progress |
| `IdempotentStores.UndisturbedIff` | middleware/idempotency/store.go:59-95 | writing the result of one key leaves another key alone if and only if neither is `lock:` followed by the other |
| `IdempotentStores.HandleIsARun` | middleware/idempotency/endpoint.go:40-128 | an undisturbed request, whatever is stored under the key (a text that cannot be decoded or is empty included) and whichever store calls fail, is a run of its own protocol steps, with the same answer and store |

## Left out

- Idempotency.AtMostOnce: assumes that neither the result nor the lock expires during the run, as the source's TTLs (24 hours and 30 seconds by default) can only approximate.
- Idempotency.NeverTwoAtOnce: assumes that the processing lock does not expire while `next` runs, and is about calls under the lock; requests without a key, and those that skip a store error, call `next` freely.
- SchedulerProtocol.AtMostOneRuns: assumes that all lockers use one key prefix and that no lock expires while it is held; `JobRunner.LockOutlivedIff` says when that is justified.
- SchedulerProtocol.ExclusiveDespiteExpiryIff: is, like all of the protocol, for lockers that share one key prefix; `WithKeyPrefix` can give two instances different ones, and then they do not exclude each other.
- SchedulerProtocol.EverythingIsReturned: assumes that the store answers every unlock; after a failed one the lock stays until it expires.
- Semaphores.SafeInEveryRun: assumes that the counter does not expire while permits are held; an increment reported as failed has not happened.
- TokenBuckets.AdmittedInInterval: uses real arithmetic, so rounding of `float64` is not modelled.
- JobRunner.LockOutlivedIff: takes the handler's word that it keeps its timeout, since `context.WithTimeout` does not stop a handler that ignores it, and does not count the time spent in hooks.
- JobRunner.Executor.ExecuteJob: a call to the lock store that takes effect although it reports an error is not modelled; a scheduler without a locker behaves as for a job that is not distributed.
- LruCaches.LRUCache.GetOrPut: the loader is a pure function; a loader that calls back into the cache would deadlock in the source.
- TreeMaps.TreeMap.DeleteFixup: leaves out the tests for a nil sibling and nil nephews, which `RedBlackRepair.SiblingExists` and the colours show never to succeed.
- TreeMaps.TreeMap.Clone: collects the entries and then puts them, where the source puts each one from inside the traversal callback.
- Deques.Deque.Rotate: Go's `int` is unbounded here, as everywhere in the model; overflow is not modelled.
- Sagas.Execution.ExecuteWithData: the context is an oracle asked once per check or wait, and a wait that both ends and finds the context done is resolved by it; saving to the store may fail without effect, as in the source; panics are not modelled.
- The saga state's `CurrentStep`, `Error`, `CompletedAt` and the error texts and durations of its step results, which the engine never reads back.
- Helper methods such as `InsertFixupUnderLeft`, `LowerLeft`, `Detach`, `StoreFront`, `RunSteps` or `Attempt` are pieces of one Go function, cut where a proof obligation ends.
- `PushFront` and its siblings keep the resized buffer in a Dafny array; aliasing of the backing slice by `From`'s argument does not arise because the items are copied.
- The priority queue's slice is a sequence field that methods reassign; capacity and reuse of its backing array are not modelled.
- `Wait` and `WaitN` of the limiters: loops over `AllowN` that end with the clock or the context; only the computed wait of the token bucket is modelled.
- `JobStats` time stamps (`LastRunAt` and its siblings), the paused job state, and the builders.
- The blocking `Lock` and `Extend` of the Redis lock; `Extend` is a read followed by an expiry update and not atomic.
- The lock's `held` map is shared by goroutines without a mutex in the source; each access is taken as atomic here.
- Hooks, logging, metrics, cron schedules, `Add`/`Remove`/`Start`/`Stop` of the scheduler.
- JSON encoding of results: a codec that reads back what it wrote is a parameter.
- The HTTP and gRPC variants of the idempotency middleware, which wrap the same store protocol around responses of their own.
- Easy views of the same structures: `Peek`, `Contains`, `Len`, `FirstKey`, `LastKey`, `Range`, `Values`, `ToMap`, `ForEach`, `treeset`.
- `Delete` of the idempotent store, which the middleware never calls.
- The rest of the memory cache, the distributed rate limiter, and all networked, framework, configuration and parsing code.
