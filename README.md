# soot collections, status and dependency utilities in Dafny

This project models the in-process coordination primitives of the soot
`collections` package, the small sequential utilities around them, the
`StatusOr` result type of the `status` package, and the dependency-map helpers
of `rollup-plugin-generate-package-json`.

The primitives keep state that changes in place, so each one is a Dafny
`class`:

- **MessageQueue** is a FIFO buffer with a `closed` flag and one pending-wait
  slot.
- **PriorityQueue** is a max-priority channel with entry handles that support
  `updatePriority` and `remove`.
- **ResourcePool** leases resources from a lazily read domain, keeping an
  `available` stack, a FIFO waiter queue and an active-lock counter.
- **Mutex** has one active lock and a FIFO waiter queue.
- **BufferedAsyncIterator** is a result buffer with one pending-`next` slot.
- **Getter** (`fromFactory`) calls its factory until a call returns, and then
  never again; a call that throws leaves the getter empty.

Each method states the new value of every field it may change, real and
ghost, either outright or through the object's invariant: the PriorityQueue
presence set, for one, is always the set of heap ids. A method that hands back
a fresh object states what that object holds as far as its callers need it.
A ghost `Valid()` invariant holds the facts the source relies on: a pending
slot only while the buffer is empty, resources conserved between the domain,
the `available` stack and the live locks, and fresh waiter ids.

Pending promises become owned optional slots holding a ghost id. A ghost map
`settled` records the value each id was resolved with.

The Fibonacci heap is a `map` from fresh node ids to `(priority, value)` nodes,
next to the `insertedNodes` presence set. The ResourcePool domain is a sequence
read through a cursor.

Three utilities keep state that changes in place, and are classes too:
`DefaultRecord` (its backing record), the caller's `Set` that `bulkModify`
edits (`MutableSet`), and the iterator `range` returns (`RangeIterator`). The
other utilities are pure functions of their inputs. Where the source loops
(`split`, `toMap`, `toRecord`, short-circuit `map`, `partition`, the set
operations, `bulkModify`, `sychronousBatch`, `iterate`, `all`, `allRecord`,
`filterOk`, status `split`, `merge`), the model is a `method` with a loop. Each
such method is proved against a specification function or a quantified
postcondition.

JavaScript `null` and `undefined` are the `Nullish` datatype (`Null`,
`Undefined`, `Present`). Records are `map`s. Arrays are `seq`s. Numbers are
`int`, or `real` where the source relies on fractions: `range` values and
PriorityQueue priorities.

## Model

| member | source | states |
|---|---|---|
| Status.IsOkExactlyOnValues | packages/status/src/status.ts:35-37 | `isOk` holds exactly on statuses that carry a value, and fails exactly on error statuses |
| Status.FromValue | packages/status/src/status.ts:41-44 | the result is OK and carries the given value |
| Status.OkStatus | packages/status/src/status.ts:39 | the result is OK and carries the unit OK value |
| Status.FromError | packages/status/src/status.ts:50-65 | the result is an error with the given error and traceback; it is retriable exactly when the options say `retriable: true`, and false by default |
| Status.RewriteError | packages/status/src/status.ts:76-82 | the error is replaced by the mapper's image of it; `retriable` and `traceback` are kept |
| Status.StripValue | packages/status/src/status.ts:89-95 | any OK becomes `okStatus()`; an error comes back as the same error |
| Status.StripTraceback | packages/status/src/status.ts:97-102 | the traceback is cleared; error and `retriable` are kept |
| Status.GraftValue | packages/status/src/status.ts:113-122 | an OK status becomes OK with the grafted value; an error status comes back as the same error |
| Status.GraftAfterStrip | packages/status/src/status.ts:89-122 | stripping a value and grafting another gives OK(new value) for an OK input and the input itself for an error |
| Status.StripAfterGraft | packages/status/src/status.ts:89-122 | grafting a value onto a status and stripping it again gives the status back |
| Status.RewriteErrorCompose | packages/status/src/status.ts:76-82 | rewriting with `f` and then with `g` equals rewriting once with their composition |
| Status.StripTracebackIdempotent | packages/status/src/status.ts:76-102 | stripping the traceback twice equals stripping it once, and stripping commutes with rewriting the error |
| StatusAll.AllOf | packages/status/src/all.ts:3-14 | OK exactly when every entry is OK, and then holds their values in order at the same length; otherwise the first error |
| StatusAll.FirstErrorUnique | packages/status/src/all.ts:7-10 | the first error position of a list is unique |
| StatusAll.All | packages/status/src/all.ts:3-14 | the loop returns exactly `AllOf` of the list: its values in order, or its first error |
| StatusAll.AllRecord | packages/status/src/all.ts:23-36 | OK exactly when every entry is OK, and then has the same keys mapped to the unwrapped values; otherwise the first error in entry order |
| StatusFilter.OkValuesAndErrorsPartition | packages/status/src/filter.ts:57-72 | the OK values and the error entries together have the input's length |
| StatusFilter.OkValuesAreFilteredValues | packages/status/src/filter.ts:33-45 | the OK values are the values of the OK entries in input order |
| StatusFilter.OkValuesOfAllOk | packages/status/src/filter.ts:33-45 | on an all-OK list, `filterOk` gives the same values as `all` |
| StatusFilter.NoErrorsWhenAllOk | packages/status/src/filter.ts:57-72 | an all-OK list has no error entries |
| StatusFilter.FilterOk | packages/status/src/filter.ts:24-46 | the loop returns the values of the OK entries in input order |
| StatusFilter.Split | packages/status/src/filter.ts:57-72 | returns the OK values and the error entries, each in input order, with lengths summing to the input length |
| StatusErrorOnNull.ErrorOnNull | packages/status/src/errorOnNull.ts:16-29 | an error is returned unchanged; OK(null) or OK(undefined) becomes the non-retriable null-result error; OK(v) becomes OK(v) |
| StatusErrorOnNull.OkResultIsPresent | packages/status/src/errorOnNull.ts:16-29 | an OK result always comes from an OK input that held a present value |
| StatusErrorOnNull.NullErrorNotRetriable | packages/status/src/errorOnNull.ts:24-26 | OK(null) and OK(undefined) both become exactly 'Got null result when expecting a value.', not retriable, with the given traceback |
| ArraySplit.Split | packages/collections/src/array/split.ts:11-27 | `included` is the elements passing the filter and `excluded` those failing it, both in order; their lengths and multisets add up to the input's |
| ArrayMap.TransformAll | packages/collections/src/array/map.ts:31-48 | one transform result per element, in order |
| ArrayMap.Map | packages/collections/src/array/map.ts:31-48 | the result is `all` of the transformed list; an OK result has the input's length; on an error, exactly the elements up to and including the first failing one are transformed |
| ArrayFilters.FilterNull | packages/collections/src/array/filters.ts:12-13 | no element of the result is null |
| ArrayFilters.FilterNullLike | packages/collections/src/array/filters.ts:26-28 | the result is no longer than the input |
| ArrayFilters.FiltersAreSubsequences | packages/collections/src/array/filters.ts:12-28 | both filters give subsequences of the input |
| ArrayFilters.FiltersDropOnlyNulls | packages/collections/src/array/filters.ts:12-28 | every non-null (non-null-like) element is kept: the kept elements and the input's nulls (null-likes) together make up the input's multiset |
| ArrayFilters.NullLikeAfterNull | packages/collections/src/array/filters.ts:12-28 | dropping null-likes after dropping nulls is the same as dropping null-likes at once |
| ArrayFilters.FilterNullLikeAfterFilterNull | packages/collections/src/array/filters.ts:12-28 | `filterNullLike(filterNull(xs)) == filterNullLike(xs)` |
| ArrayFilters.NullLikeWithinNull | packages/collections/src/array/filters.ts:12-28 | what `filterNullLike` keeps is a subsequence of what `filterNull` keeps |
| ArrayFilters.FilterNullLikeKeepsPresent | packages/collections/src/array/filters.ts:26-28 | `filterNullLike` keeps exactly as many elements as there are present values |
| ArrayMoveAfter.MoveAfter | packages/collections/src/array/moveAfter.ts:16-58 | same length; an out-of-range target leaves the input unchanged; otherwise the target lands at its destination and the other elements keep their order |
| ArrayMoveAfter.Destination | packages/collections/src/array/moveAfter.ts:25-57 | the landing index is always a valid index |
| ArrayMoveAfter.MoveAfterIsPermutation | packages/collections/src/array/moveAfter.ts:33-57 | the result is a permutation of the input |
| ArrayMoveAfter.MoveToFront | packages/collections/src/array/moveAfter.ts:25-39 | a null or negative `after` puts the target first, followed by the rest in order |
| ArrayMoveAfter.MoveToBack | packages/collections/src/array/moveAfter.ts:29-57 | an `after` at or past the last index puts the target last |
| ArrayMoveAfter.MoveAfterItself | packages/collections/src/array/moveAfter.ts:41-57 | moving an element after itself gives the input back |
| ArrayPartition.Group | packages/collections/src/array/partition.ts:27-43 | a group is no longer than the input |
| ArrayPartition.GroupOfPresentKey | packages/collections/src/array/partition.ts:32-41 | each value is in the group keyed by its own discriminator output, so that group is non-empty |
| ArrayPartition.GroupOfAbsentKey | packages/collections/src/array/partition.ts:32-41 | a key produced by no element has an empty group |
| ArrayPartition.GroupIsSubsequence | packages/collections/src/array/partition.ts:32-41 | each group keeps the input's relative order (the partition is stable) |
| ArrayPartition.FirstOccurrencesMembers | packages/collections/src/array/partition.ts:36-38 | the key order holds exactly the discriminator outputs |
| ArrayPartition.FirstOccurrencesDistinct | packages/collections/src/array/partition.ts:36-38 | the key order lists each key once |
| ArrayPartition.GroupSizesSum | packages/collections/src/array/partition.ts:32-42 | the group sizes sum to the input length |
| ArrayPartition.Partition | packages/collections/src/array/partition.ts:27-43 | the map's keys are exactly the discriminator outputs in first-occurrence order, and each maps to its stable group |
| ArrayPartition.PartitionOfEmpty | packages/collections/src/array/partition.ts:27-43 | `partition` of an empty array returns an empty map and an empty key order |
| ArrayToMap.ToMap | packages/collections/src/array/toMap.ts:18-33 | OK exactly when the keys are distinct, and then maps each element's key to its value with one entry per element; otherwise the error names the first repeated key |
| ArrayToRecord.ToRecordAsWritten | packages/collections/src/array/toRecord.ts:15-31 | as written, `key in record` also rejects names inherited from `Object.prototype`; OK exactly when keys are distinct and none is such a name |
| ArrayToRecord.ToRecord | packages/collections/src/array/toRecord.ts:15-31 | OK exactly when the keys are distinct, and then maps each key to its value with one entry per element; otherwise the error names the first repeated key |
| ArrayToRecord.ConstructorKeyRejected | packages/collections/src/array/toRecord.ts:24 | as written, a single element keyed "constructor" gives the duplicate-key error |
| ArrayToRecord.ConstructorKeyAccepted | packages/collections/src/array/toRecord.ts:22-30 | the corrected version maps a single "constructor" key to its value |
| SetBasic.IsSuperset | packages/collections/src/set/basic.ts:9-16 | true exactly when every element of the subset is in the set |
| SetBasic.Union | packages/collections/src/set/basic.ts:18-26 | the union holds exactly the elements of at least one input set |
| SetBasic.Intersection | packages/collections/src/set/basic.ts:28-36 | exactly the elements in both sets |
| SetBasic.SymmetricDifference | packages/collections/src/set/basic.ts:38-48 | exactly the elements in one set but not both |
| SetBasic.Difference | packages/collections/src/set/basic.ts:50-56 | exactly the elements of the first set not in the second |
| SetBulkModify.LastConditionIsLast | packages/collections/src/set/bulkModify.ts:25-31 | a value has no condition exactly when no entry names it; otherwise its condition is that of the last entry naming it |
| SetBulkModify.AppliedMembership | packages/collections/src/set/bulkModify.ts:21-32 | after applying the entries, a value is present exactly when its last condition is true, or when no entry names it and it was present before |
| SetBulkModify.BulkModify | packages/collections/src/set/bulkModify.ts:21-32 | the set afterwards is the entries applied in order to the set before |
| RecordComparisons.CompareEntries | packages/collections/src/record/comparisons.ts:36-75 | `added` is the keys only in `to` with their `to` values; `deleted` is the keys only in `from` with their `from` values; `modified` is the common keys whose values differ, as `{from, to}` |
| RecordComparisons.PartsAreDisjoint | packages/collections/src/record/comparisons.ts:40-73 | the three key sets are pairwise disjoint, and common keys with equal values appear in none |
| RecordComparisons.PatchRestoresTo | packages/collections/src/record/comparisons.ts:36-75 | applying the comparison to `from` rebuilds `to` |
| RecordComparisons.CompareWithItself | packages/collections/src/record/comparisons.ts:36-75 | comparing a record with itself gives three empty maps |
| RecordDefaultRecord.DefaultRecord.Get | packages/collections/src/record/DefaultRecord.ts:25-33 | an existing key returns its stored value without calling the factory; a missing key stores and returns one factory value; no other key changes |
| RecordDefaultRecord.GetTwice | packages/collections/src/record/DefaultRecord.ts:25-33 | two gets of one key return the same value and call the factory at most once |
| RecordMappings.MapValues | packages/collections/src/record/mappings.ts:10-19 | the same keys and size, with each value replaced by `mapper(value, key)` |
| RecordMappings.MapValuesCompose | packages/collections/src/record/mappings.ts:10-19 | mapping twice equals mapping once with the composed mapper |
| RecordMappings.MapValuesIdentity | packages/collections/src/record/mappings.ts:10-19 | mapping with the identity gives the record back |
| RecordMappings.MapValuesEmpty | packages/collections/src/record/mappings.ts:10-19 | an empty record maps to an empty record |
| IteratorsBatch.SynchronousBatch | packages/collections/src/iterators/batch.ts:43-63 | the batches concatenate to the input and none is empty; with `maxBatchSize >= 1` every batch but the last is full and the last is at most full; otherwise the whole input is one batch; no input gives no batches |
| IteratorsBatch.FlattenSnoc | packages/collections/src/iterators/batch.ts:50-61 | concatenating batches distributes over appending one batch |
| IteratorsLiterals.RangeValues | packages/collections/src/iterators/literals.ts:21-51 | `max(length, 0)` values, the k-th being `start + step * k` |
| IteratorsLiterals.RangeIterator.constructor | packages/collections/src/iterators/literals.ts:21-32 | `start` defaults to 0 and `step` to 1 |
| IteratorsLiterals.RangeIterator.Next | packages/collections/src/iterators/literals.ts:36-45 | yields the next range value and advances, or reports done, and keeps reporting done, once `length` values are out |
| IteratorsLiterals.Collect | packages/collections/src/iterators/literals.ts:21-51 | draining a fresh range iterator gives exactly the range values |
| IteratorsLiterals.ConsecutiveDifference | packages/collections/src/iterators/literals.ts:41-44 | consecutive values differ by exactly `step` |
| IteratorsLiterals.DefaultRange | packages/collections/src/iterators/literals.ts:28-32 | `range(n)` yields 0, 1, ..., n-1 |
| LinkedListIteration.WalkStaysEnded | packages/collections/src/linkedList/iteration.ts:18-22 | once the chain has ended, it stays ended |
| LinkedListIteration.Iterate | packages/collections/src/linkedList/iteration.ts:13-23 | yields `initialNode` first, then each node's `next`, and stops exactly at the node whose `next` is null |
| LinkedListIteration.ToArray | packages/collections/src/linkedList/iteration.ts:33-36 | the array is the node sequence `iterate` yields |
| Dependencies.Merged | packages/rollup-plugin-generate-package-json/src/dependencies.ts:31-48 | the keys are the union of both key sets; `b` wins conflicts, and keys only in `a` keep `a`'s version |
| Dependencies.Merge | packages/rollup-plugin-generate-package-json/src/dependencies.ts:31-48 | the loop over `b`'s entries returns exactly `Merged(a, b)` |
| Dependencies.MergeEmptyRight | packages/rollup-plugin-generate-package-json/src/dependencies.ts:35-47 | `merge(a, {}) == a` |
| Dependencies.MergeEmptyLeft | packages/rollup-plugin-generate-package-json/src/dependencies.ts:35-47 | `merge({}, b) == b` |
| Dependencies.MergeAssociative | packages/rollup-plugin-generate-package-json/src/dependencies.ts:35-47 | merging is associative |
| Dependencies.Split | packages/rollup-plugin-generate-package-json/src/dependencies.ts:67-72 | the path splits at its separators into segments, the first being the text before the first separator |
| Dependencies.GetModuleNameFromImportPath | packages/rollup-plugin-generate-package-json/src/dependencies.ts:67-72 | an unscoped path gives its text before the first '/' or '\' (the whole path if there is none), holding no separator; a path starting with '@' gives its text up to the first separator, then '/', then the text up to the next separator; a bare '@scope' gives '@scope/undefined', following JavaScript's string interpolation |
| Dependencies.UnscopedRoundTrip | packages/rollup-plugin-generate-package-json/src/dependencies.ts:67-72 | a module name followed by any sub-path gives the module name back |
| Dependencies.ScopedRoundTrip | packages/rollup-plugin-generate-package-json/src/dependencies.ts:67-72 | a scope and a name followed by any sub-path gives `scope/name` back |
| MessageQueueModule.MessageQueue.constructor | packages/collections/src/MessageQueue.ts:93-97 | a new queue is open and empty, with no pending wait |
| MessageQueueModule.MessageQueue.HasData | packages/collections/src/MessageQueue.ts:142 | true exactly when the depth is positive |
| MessageQueueModule.MessageQueue.Depth | packages/collections/src/MessageQueue.ts:144 | the number of buffered values |
| MessageQueueModule.MessageQueue.IsClosed | packages/collections/src/MessageQueue.ts:146 | reports the closed flag |
| MessageQueueModule.MessageQueue.Push | packages/collections/src/MessageQueue.ts:99-110 | on a closed queue, returns false and changes nothing; otherwise appends at the tail, returns true and resolves any pending wait with true, leaving no slot |
| MessageQueueModule.MessageQueue.Close | packages/collections/src/MessageQueue.ts:112-118 | sets the closed flag and resolves any pending wait with `hasData()`, leaving no slot |
| MessageQueueModule.MessageQueue.WaitForData | packages/collections/src/MessageQueue.ts:120-129 | a closed or non-empty queue answers at once with `hasData()`; an open, empty queue returns its pending slot, creating one only if there is none |
| MessageQueueModule.MessageQueue.ReadBuffer | packages/collections/src/MessageQueue.ts:131-140 | yields exactly the buffered values in push order and leaves the buffer empty |
| PriorityQueueModule.MaximumExists | packages/collections/src/priorityQueue/PriorityQueue.ts:280-290 | every non-empty heap has an entry of maximal priority |
| PriorityQueueModule.DrainDone | packages/collections/src/priorityQueue/PriorityQueue.ts:252-264 | a finished drain has taken every entry exactly once |
| PriorityQueueModule.PriorityQueue.constructor | packages/collections/src/priorityQueue/PriorityQueue.ts:150-162 | a new queue is open and empty, with no live entries and no pending wait |
| PriorityQueueModule.PriorityQueue.HasData | packages/collections/src/priorityQueue/PriorityQueue.ts:266 | true exactly when the heap is non-empty |
| PriorityQueueModule.PriorityQueue.Depth | packages/collections/src/priorityQueue/PriorityQueue.ts:268 | the number of heap entries |
| PriorityQueueModule.PriorityQueue.IsClosed | packages/collections/src/priorityQueue/PriorityQueue.ts:270 | reports the closed flag |
| PriorityQueueModule.PriorityQueue.Insert | packages/collections/src/priorityQueue/PriorityQueue.ts:164-231 | on a closed queue, returns the error 'PriorityQueue is closed.' and changes nothing; otherwise adds one live node under a fresh id, so the depth grows by one, returns its handle and resolves any pending wait with true |
| PriorityQueueModule.PriorityQueue.Close | packages/collections/src/priorityQueue/PriorityQueue.ts:233-239 | sets the closed flag and resolves any pending wait with `hasData()` |
| PriorityQueueModule.PriorityQueue.WaitForData | packages/collections/src/priorityQueue/PriorityQueue.ts:241-250 | a closed or non-empty queue answers at once; an open, empty queue reuses or creates its single pending slot |
| PriorityQueueModule.PriorityQueue.Drain | packages/collections/src/priorityQueue/PriorityQueue.ts:252-264 | yields every entry's value once, each of maximal priority among those left, and leaves the heap and the presence set empty |
| PriorityQueueModule.PriorityQueue.Pop | packages/collections/src/priorityQueue/PriorityQueue.ts:280-290 | null on an empty queue; otherwise removes exactly one entry of maximal priority and returns its value |
| PriorityQueueModule.EnqueuedMessage.UpdatePriority | packages/collections/src/priorityQueue/PriorityQueue.ts:180-218 | false and no change for an entry that is gone; otherwise true: an equal priority changes nothing, a higher one updates the node in place, and a lower one replaces it by a fresh node that the handle is rebound to; other entries are unchanged |
| PriorityQueueModule.EnqueuedMessage.Remove | packages/collections/src/priorityQueue/PriorityQueue.ts:220-229 | false and no change for an entry that is gone; otherwise deletes exactly that entry, so the depth drops by one |
| ResourcePoolModule.ResourcePool.constructor | packages/collections/src/ResourcePool.ts:54-68 | a new pool has read nothing from its domain and has no locks, waiters or available resources |
| ResourcePoolModule.ResourcePool.CreateLock | packages/collections/src/ResourcePool.ts:70-117 | a fresh unreleased lock on the resource, and `activeLocks` grows by one |
| ResourcePoolModule.ResourcePool.DrainNextFromDomain | packages/collections/src/ResourcePool.ts:119-131 | when the domain has another resource, reads it and advances the cursor; at its end, marks the domain exhausted and returns null; once exhausted, never reads again |
| ResourcePoolModule.ResourcePool.AcquireImmediate | packages/collections/src/ResourcePool.ts:133-144 | takes the most recently released resource when `available` is non-empty, leaving the cursor alone; otherwise leases the next domain resource, or returns null once the domain is exhausted |
| ResourcePoolModule.ResourcePool.Acquire | packages/collections/src/ResourcePool.ts:146-155 | acquires exactly when a resource is available or the domain has another; then returns a fresh unreleased lock of this pool on the most recently released resource, or else on the next domain resource, counts it in `activeLocks` and changes no waiter; otherwise enqueues one fresh waiter at the tail and leases nothing |
| ResourcePoolModule.Lock.Resource | packages/collections/src/ResourcePool.ts:75-93 | the leased resource, readable only while the lock is not released |
| ResourcePoolModule.Lock.Released | packages/collections/src/ResourcePool.ts:113-115 | reports the released flag |
| ResourcePoolModule.Lock.Release | packages/collections/src/ResourcePool.ts:95-111 | a second release returns false and changes no pool state; otherwise returns true, hands a fresh lock on the same resource to the oldest waiter if any (leaving `available` alone), or else pushes the resource onto `available`; `activeLocks` drops by one after a push and is unchanged after a hand-over, whose new lock is counted again; the pool's live locks are the old ones without this lock, plus the waiter's new lock after a hand-over |
| ResourcePoolModule.ReleaseThenAcquire | packages/collections/src/__tests__/ResourcePool.ts:60-68 | with no waiter, releasing a lock and calling `acquireImmediate` leases the same resource again, leaving the cursor and the other locks alone |
| ResourcePoolModule.ReallocateFreedResources | packages/collections/src/__tests__/ResourcePool.ts:13-36 | over `[1, 2, 3]`, three leases get 1, 2, 3; releasing 2, 1, 3 in turn and re-acquiring after each gets 2, 1, 3 again; a further `acquireImmediate` returns null |
| ResourcePoolModule.LeaseThree | packages/collections/src/__tests__/ResourcePool.ts:76-82 | three `acquire` calls on a new pool over `[1, 2, 3]` lease 1, 2 and 3 in order and exhaust the domain |
| ResourcePoolModule.FreedResourcesGoToWaiters | packages/collections/src/__tests__/ResourcePool.ts:84-104 | with 1, 2, 3 leased and two more `acquire` calls waiting, releasing the second lease hands 2 to the first waiter and releasing the first hands 1 to the second |
| MutexModule.Mutex.constructor | packages/collections/src/promises/Mutex.ts:70-72 | a new mutex is free and has no waiters |
| MutexModule.Mutex.CreateLock | packages/collections/src/promises/Mutex.ts:74-91 | a fresh lock bound to this mutex, with no release yet |
| MutexModule.Mutex.AcquireLock | packages/collections/src/promises/Mutex.ts:93-105 | a free mutex installs and returns a fresh active lock; a held one enqueues one waiter at the tail and keeps its active lock |
| MutexModule.Mutex.AcquireLockImmediateAsWritten | packages/collections/src/promises/Mutex.ts:107-113 | as written: null while a lock is active; otherwise a fresh lock that is not installed, so the mutex does not change |
| MutexModule.Mutex.AcquireLockImmediate | packages/collections/src/promises/Mutex.ts:107-113 | corrected: null while a lock is active; otherwise a fresh lock installed as the active lock |
| MutexModule.Mutex.RunHolding | packages/collections/src/promises/Mutex.ts:115-122 | the runner's outcome passes through unchanged, returned or thrown, and the held lock is released exactly once; the mutex is then free, or the oldest waiter is dequeued and recorded as granted a fresh active lock |
| MutexModule.Mutex.RunExclusive | packages/collections/src/promises/Mutex.ts:115-122 | on a free mutex, runs the runner, returns its outcome and frees the mutex again, releasing once; on a held mutex, queues one waiter |
| MutexModule.MutexLock.Release | packages/collections/src/promises/Mutex.ts:76-87 | true exactly when this lock is active; then the oldest waiter becomes active with a fresh lock, or the mutex becomes free; otherwise nothing changes |
| MutexModule.ImmediateLockIsNotExclusive | packages/collections/src/promises/Mutex.ts:107-113 | as written, after `acquireLockImmediate` on a free mutex, that lock's release returns false and a second `acquireLock` is granted at once |
| MutexModule.ImmediateLockIsExclusive | packages/collections/src/promises/Mutex.ts:107-113 | with the correction, that lock's release returns true and a second `acquireLock` made while it is held is queued |
| BufferedAsyncIteratorModule.BufferedAsyncIterator.constructor | packages/collections/src/iterators/BufferedAsyncIterator.ts:50-76 | a new iterator has an empty buffer and no pending `next` |
| BufferedAsyncIteratorModule.BufferedAsyncIterator.Next | packages/collections/src/iterators/BufferedAsyncIterator.ts:50-66 | a pending slot is returned again unchanged; otherwise removes and returns the buffer's head; an empty buffer creates exactly one slot; results are delivered in push order |
| BufferedAsyncIteratorModule.BufferedAsyncIterator.Push | packages/collections/src/iterators/BufferedAsyncIterator.ts:68-76 | resolves a pending `next` with the result and clears the slot without buffering; otherwise appends at the tail |
| BufferedAsyncIteratorModule.PushThenNext | packages/collections/src/iterators/BufferedAsyncIterator.ts:50-76 | two pushes then two `next` calls deliver in push order |
| BufferedAsyncIteratorModule.NextThenPush | packages/collections/src/iterators/BufferedAsyncIterator.ts:50-76 | a `next` before any push stays pending, a repeated `next` returns the same slot, and a push resolves it |
| Singleton.Getter.Lazy | packages/collections/src/singleton.ts:62-63 | a lazy getter stores nothing and has not called the factory |
| Singleton.Getter.Built | packages/collections/src/singleton.ts:62-64 | an eager getter stores the value its one factory call returned |
| Singleton.FromFactory | packages/collections/src/singleton.ts:53-64 | `lazy` defaults to true; lazy mode makes no factory call; eager mode calls the factory once, and either stores what it returned or throws what it threw, creating no getter |
| Singleton.Getter.Get | packages/collections/src/singleton.ts:66-71 | a stored value is returned with no factory call; otherwise the factory's next call is made, and what it returns is stored and returned, while what it throws is thrown and leaves the getter empty |
| Singleton.GetTwice | packages/collections/src/singleton.ts:66-71 | once a get has returned, the next returns the same value without calling the factory; after a throw, the next get calls the factory again |
| Singleton.NullIsCached | packages/collections/src/singleton.ts:59-71 | a factory returning null is still called only once, and both gets return null |
| Singleton.RetryAfterThrow | packages/collections/src/singleton.ts:66-71 | a factory that throws once and then returns 100: the first get throws, the second and third return 100, and the factory runs twice |
| Singleton.EagerThrows | packages/collections/src/singleton.ts:62-64 | an eager `fromFactory` over a throwing factory throws its error |

## Left out

- Promises, `await` and async iteration are not modelled: `toAsyncIterator` of MessageQueue and PriorityQueue, the `Deferred` type of the `promises` module, and `allAsync`/`allRecordAsync`. A pending promise is an optional slot id, and its resolution is recorded in a ghost map.
- MutexModule.Mutex.RunExclusive: on a held mutex, the model returns the queued waiter id. The continuation that later runs the runner, once the lock is handed over, is `RunHolding`.
- The Fibonacci heap library and its amortised costs are not modelled; the heap is a map from fresh ids to nodes. The two `try/catch` branches of `updatePriority` (a failing `decreaseKey`, a failing `delete`) log a warning and return false; with the heap library abstracted into a map those failures cannot happen, so the model has no such false return. The unreachable null-entry guard in `drain` is left out too.
- PriorityQueueModule.PriorityQueue.Insert: priorities are exact reals. JavaScript's NaN and ±Infinity are not modelled; with them the comparator `b.key - a.key` gives NaN, and `updatePriority(NaN)` fails both the `===` and `>` tests and so deletes and re-inserts the node.
- PriorityQueueModule.PriorityQueue.Drain: states no order among equal priorities, because the heap gives no tie-break.
- Console output in `filterOk`, in `merge` and in the PriorityQueue warnings is left out.
- Tracebacks are not captured from a stack. `getTraceback` is replaced by a traceback string parameter.
- The `isStatusOr` runtime shape check is left out.
- `forEachPartition` is left out: it runs partitions concurrently through p-limit.
- The timer, randomness, stream, typed-array and async-iterator-adapter files are not part of this model, and neither are `tryCatch`, `retry` and the rollup plugin entry point.
- Generators are modelled eagerly: `iterate`, `sychronousBatch`, `readBuffer` and `drain` return the whole sequence in one call. For `iterate` and `sychronousBatch` this differs only in when the work is done.
- PriorityQueueModule.PriorityQueue.Drain: the source generator re-tests the live heap before each yield, so a value inserted while the caller iterates is yielded too, and a caller that stops early leaves the rest queued. The model empties the heap as it stood at the call; inserting during iteration and stopping early are not modelled.
- MessageQueueModule.MessageQueue.ReadBuffer: likewise, the source re-tests the live buffer before each yield, so values pushed during iteration are yielded and an early stop leaves the rest buffered. The model empties the buffer as it stood at the call.
- LinkedListIteration.Iterate: requires the chain to be finite. A cyclic chain makes the source loop forever. A null `initialNode` is not modelled: it yields nothing.
- LinkedListIteration.Iterate: `next` is a pure function of the node. So the property that the successor is read before a node is yielded holds trivially, and mutation of yielded nodes is not modelled.
- IteratorsLiterals.RangeValues: uses exact `real` arithmetic, not IEEE doubles. `length` is an integer: a fractional length, for which the source's `i < length` test yields `ceil(length)` values (three for `range(2.5)`), is not modelled. An explicit `undefined` start or step gives NaN in the source and is left out; a missing option takes its default.
- IteratorsBatch.SynchronousBatch: takes `maxBatchSize` as an integer. A fractional size never equals a batch length in the source, which gives one batch, as the model's `maxBatchSize < 1` case does.
- JavaScript `Set` and object iteration order is not modelled. Sets are Dafny sets, records are maps, and `allRecord` takes the entry order as a parameter.
- Strict equality `===` of values is modelled as Dafny value equality, so object identity is not distinguished.
- RecordDefaultRecord.DefaultRecord.Get: models the proxy's get trap on own keys. Inherited `Object.prototype` properties and the other proxy traps are left out.
- RecordComparisons.CompareEntries: the source builds its maps with `toRecord` and `throwIfError`, which would throw on a key named like an `Object.prototype` property (see Findings). The model states the intended comparison.
- Dependencies.Merge: a dependency named `__proto__` would set the result's prototype in JavaScript; keys are plain map keys here.
- ResourcePoolModule.ResourcePool: the domain is a finite sequence read through a cursor. Infinite or expensive domains are left out.
- Singleton.FromFactory: an explicit `lazy: null` reads as false in the source, giving eager mode. The model takes `lazy` as an optional boolean.
- Unicode and string encoding are not modelled: strings are sequences of characters, and `String(key)` for an error message is a caller-supplied function.

## Findings

| source | as written | input that shows it | evidently intended | confidence | as-written member | corrected member |
|---|---|---|---|---|---|---|
| packages/collections/src/promises/Mutex.ts:107-113 | `acquireLockImmediate` on a free mutex returns a fresh lock but never stores it in `activeLock` | a free mutex: `acquireLockImmediate()` returns a lock; `acquireLock()` is then granted at once as well, and the first lock's `release()` returns false | the returned lock becomes the active lock, so the mutex is held until it is released | not executed | MutexModule.Mutex.AcquireLockImmediateAsWritten, MutexModule.ImmediateLockIsNotExclusive | MutexModule.Mutex.AcquireLockImmediate, MutexModule.ImmediateLockIsExclusive |
| packages/collections/src/array/toRecord.ts:24 | duplicate keys are detected with `key in record` on a plain object, which also sees names inherited from `Object.prototype` | `toRecord(["constructor"], v => v, v => v)` gives the error 'Key constructor found more than once.' | only keys produced earlier in the same call count as duplicates | not executed | ArrayToRecord.ToRecordAsWritten, ArrayToRecord.ConstructorKeyRejected | ArrayToRecord.ToRecord, ArrayToRecord.ConstructorKeyAccepted |
