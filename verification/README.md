# Verification of pht's data structures and protocols

pht gives PHP threads, and containers that threads share. This project models the
C code below the PHP glue and proves what that code promises: the Robin Hood hash
table, reference counting with cascading release, the protocol between a thread's
owner and its worker, the hard copy of Zend values, and the smaller containers.
`dafny verify dfyconfig.toml` checks everything.

| file | what it models |
|---|---|
| `Bits.dfy`, `Keys.dfy` | masking a hash, key comparison with `strncmp`, what two keys have to differ in |
| `Buckets.dfy`, `Probing.dfy`, `RobinHood.dfy` | the bucket array, the probe loops as functions on it, the displacement order |
| `HashTable.dfy`, `History.dfy` | the hash table as a class updated in place; whole histories of array access |
| `Cells.dfy`, `Survival.dfy`, `References.dfy` | reference counts as sums, what a cascade leaves alive, the operations that count |
| `ReleaseRace.dfy` | the last releases of a container by several threads, as interleaved steps |
| `ThreadProtocol.dfy` | owner and worker as interleaved steps |
| `ZendValues.dfy`, `Chains.dfy`, `ArrayDup.dfy` | Zend values, collision chains, the mutually recursive copy |
| `Vector.dfy`, `Queue.dfy` | the growable vector and the linked queue as classes |
| `PropertyCache.dfy`, `AtomicInteger.dfy` | cached property tables by version number; the recursive mutex |

## How the model reads the code

- A hash is an unbounded integer, and `hash & (size - 1)` is written out bit by bit
  (`Bits.And`), so negative hashes are covered; `zend_hash_func` is a parameter.
  Two string keys are one key to the table when they have the same hash, the same
  length and the same characters up to the first NUL (`Keys.Ident`); without NUL
  characters keys are themselves (`Histories.PlainHistories`).
- A probe loop is a method with the loop, proved equal to a function on the bucket
  sequence (`Probing.InsertFrom`, `FindFrom`, `UpdateSlotFrom`). The properties are
  lemmas about that function.
- Values handed to a destructor go into a ghost account, so that the invariants say
  where every value is.
- Shared objects are numbered cells. A queue, a hash table, a vector and an atomic
  integer are all containers with a list of entries in the order in which destroying
  them visits the entries. A cell that is being destroyed gives up each entry before
  deleting it, as `pht_queue_destroy` does; the other two destructors leave the dead
  pointer in a buffer that nobody reads again.
- Owner, worker and the users of an atomic integer are state machines on values, one
  step for each access to shared state; class methods could not interleave.

## Where code and intent differ

- Overwriting integer key 1 while a tombstone lies between its home bucket and its
  entry passes NULL to the destructor, because `update_direct` does not test for a
  value and a tombstone carries hash 1. `HashTable.Update` and `Write` say exactly
  when, and `Histories.Replay` that a history goes wrong at such a step and at no
  other; `Histories.IntegerKeyOneFaults` is a history that gets there.
- The early exits considered at `src/ds/pht_hashtable.c:178-180`: stopping at a bucket
  whose variance is below the distance probed is right until a deletion, and again
  once the table has grown (`EarlyExitAgrees`, `Histories.TidyEarlyExit`,
  `EarlyExitMissesAfterDeletion`); stopping when the variance
  drops, as the comment words it, is wrong in any case (`DropTestMisses`).
- `pht_entry_delete_value` has no case for serialised objects, so their buffers are
  never freed: `ReferenceHeap.Holding` counts one block for each ever stored.
- A value is converted, and its container counted once more, before the index or the
  offset of a write is looked at. A write that then throws drops the new entry without
  deleting it: `insertAt`, `updateAt` and `$v[i] = x` out of range, and array access
  with an offset of another type (`src/classes/vector.c:120-153`, `466-525`,
  `src/classes/hashtable.c:136-170`). Calling `Vector::__construct` again drops all the
  entries there were (`src/classes/vector.c:251`). `ReferenceHeap.lost` keeps those
  entries; `References.LostIff` says which operations add to it, and
  `References.LostForGood` that a container they refer to is never freed.
  `References.FailedInsertLeaks` is one such call: a queue with a count of 1 that no
  wrapper, entry or cycle holds.
- When an argument of `addClassTask`, `addFunctionTask` or `addFileTask` cannot be
  converted, the arguments before it are deleted but the class name, the callable or
  the file name is not (`src/classes/thread.c:383-391`, `460-470`, `529-539`). One
  block is lost if and only if an argument fails and that head owns a block
  (`References.HeadLeaksIff`); `References.FailedTaskLeaks` is one such call. The
  first two also keep the task structure itself.
- A release tests the count after unlocking. A container is freed once if and only if
  no other release stands between lowering and testing the count when it gets to zero
  (`ReleaseRaces.FreedOnceIff`); with the test under the lock it always is.
- The README names cyclic references as what reference counting leaks. What survives is
  what a wrapper, a task, a cycle or an entry lost as above can reach
  (`References.Run`), so those entries are the other half of the leak.
- `Thread::join` stores `JOINED` without the lock. The join can return if and only if
  the worker is not between testing and setting the status at that moment
  (`ThreadProtocol.JoinReturnsIff`), so always once the status has been `STARTED`
  (`JoinAfterStartReturns`); with the lock it always can.
- `pht_vector_delete_at` reads past the buffer exactly when the vector is full
  (`Vectors.OverreadIsReachable`). `Vector::resize` does nothing exactly when the
  argument is the capacity (`Vectors.ResizeIsIgnored`).
- An array copy's internal pointer that stands on an unset element keeps its number
  while later elements move down. It still stands for the same element if and only if
  it was on a live element, or nothing unset was before it, or nothing live was from
  there on (`ArrayDup.PointerKeepsPlaceIff`, `PointerSkipsAnElement`).
- The copy of an array without used buckets starts again at next free index 0
  (`ArrayDup.NextFreeKeptIff`).

## Model

| member | source | states |
|---|---|---|
| `Bits.AndMaskIsRemainder` | src/ds/pht_hashtable.c:84 | masking with a power of two less one is the Euclidean remainder, also for negative hashes |
| `Bits.HomeIsRemainder` | src/ds/pht_hashtable.c:84 | the home bucket is the remainder of the hash by the size |
| `Keys.StrEqIsVisibleEquality` | src/pht_string.c:49-52 | `pht_str_eq` is equality of lengths and of the parts before the first NUL |
| `Keys.SameKeyIsSameIdent` | src/ds/pht_hashtable.c:173 | the match condition of the probe loops is equality of key identities |
| `Keys.VisibleEnds` | src/pht_string.c:49-52 | the comparison sees a string up to its first NUL |
| `Keys.PlainKeysAreDistinct` | src/pht_string.c:49-52 | keys without NUL are never confused, whatever the hash function |
| `Keys.ConfusedIff` | src/ds/pht_hashtable.c:173 | two different keys are confused exactly if they are strings with equal hash, length and part before the first NUL |
| `Buckets.LiveIsStored` | src/ds/pht_hashtable.c:123 | the map has one binding for each live bucket, so `used` counts them, and holds exactly their values |
| `Buckets.Bury` | src/ds/pht_hashtable.c:275-278 | a tombstone removes exactly one binding and keeps every other entry reachable |
| `Probing.InsertAdds` | src/ds/pht_hashtable.c:82-124 | the displacement loop keeps every entry, adds the new one, keeps recorded variances true distances and paths free of vacant buckets, tombstones or not |
| `Probing.Displace` | src/ds/pht_hashtable.c:99-121 | one exchange: array and carried entry together still stand for the same map |
| `Probing.InsertKeepsEntries` | src/ds/pht_hashtable.c:82-124 | insertion creates no tombstone and keeps string entries under the hash of their string |
| `Probing.FindIsLookup` | src/ds/pht_hashtable.c:165-188 | the probe of search and delete ends at the key's entry if and only if the map has the key |
| `Probing.ProbeMisses` | src/ds/pht_hashtable.c:176-177 | meeting a vacant bucket, or every bucket, without the key proves it absent |
| `Probing.UpdateStops` | src/ds/pht_hashtable.c:230-247 | update reaches the key's entry, except that integer key 1 stops at a tombstone on its path |
| `RobinHood.InsertKeepsOrder` | src/ds/pht_hashtable.c:82-124 | insertion keeps the order: variance at most one more than the live predecessor's, 0 after a bucket that is not live |
| `RobinHood.InsertPlaces` | src/ds/pht_hashtable.c:90-121 | the carried entry comes to rest in the first bucket that is free or has an entry strictly nearer to its home; every other entry stays, or moves on in the same way because a strictly poorer one has its bucket; buckets beyond the probes are untouched |
| `RobinHood.InsertTakesFirst` | src/ds/pht_hashtable.c:90-121 | so it is from the home bucket of a new key: on a tie nobody moves |
| `RobinHood.PathIsRich` | src/ds/pht_hashtable.c:99 | in an ordered table each bucket on a path is at least as far from home as the probe has come |
| `RobinHood.EarlyExitAgrees` | src/ds/pht_hashtable.c:178-180 | in an ordered table a search that stops at a smaller variance answers as the full search |
| `RobinHood.EarlyExitMissesAfterDeletion` | src/ds/pht_hashtable.c:275-281 | four insertions and a deletion after which that early exit misses a stored key |
| `RobinHood.DropTestMisses` | src/ds/pht_hashtable.c:180 | five insertions after which stopping at a drop in variance misses a stored key |
| `RobinHood.InsertIsSound` | src/ds/pht_hashtable.c:82-124 | from the home bucket of a new key, with room left, insertion keeps all table invariants |
| `HashTables.ThresholdIs` | src/ds/pht_hashtable.c:64-67 | the threshold is three quarters of a table of four buckets or more, and all of one of one or two |
| `HashTables.ThresholdDoubles` | src/ds/pht_hashtable.c:64-67 | doubling a power of two doubles the 75% threshold, and raises it also for the two smallest sizes |
| `HashTables.HashTable.constructor` | src/ds/pht_hashtable.c:34-40 | an empty table satisfies the invariants |
| `HashTables.HashTable.InsertDirect` | src/ds/pht_hashtable.c:82-124 | the loop in place adds exactly the new binding, in the first bucket on its way that is free or has an entry nearer to home than it has come; no entry loses its bucket to one not farther from home; the displacement order is kept |
| `HashTables.HashTable.Repopulate` | src/ds/pht_hashtable.c:140-147 | reinserting the live buckets of an array, from left to right, rebuilds its map |
| `HashTables.HashTable.Resize` | src/ds/pht_hashtable.c:126-138 | the doubled table has the same map, no tombstones, and `used` below the new threshold; every entry was reinserted once |
| `HashTables.HashTable.Insert` | src/ds/pht_hashtable.c:62-80 | adds one binding; a table of four buckets or more doubles exactly when three quarters of it are in use, a smaller one when it is full, and is then in displacement order without tombstones |
| `HashTables.HashTable.Search` | src/ds/pht_hashtable.c:155-188 | the value of the map, NULL exactly for absent keys |
| `HashTables.HashTable.Update` | src/ds/pht_hashtable.c:220-247 | rebinds the key and releases the old value; gets NULL if and only if the key is integer 1 behind a tombstone |
| `HashTables.UpdateOfKey` | src/ds/pht_hashtable.c:230-247 | where update stops for a stored key, in terms of the map |
| `HashTables.HashTable.Revalue` | src/ds/pht_hashtable.c:237-240 | rebinds the found key, stores the new value and releases the old one; displacement order kept |
| `HashTables.HashTable.BuryEntry` | src/ds/pht_hashtable.c:267-283 | unbinds the found key and releases its value |
| `HashTables.HashTable.Delete` | src/ds/pht_hashtable.c:249-295 | unbinds the key if bound and releases its value, changes nothing else |
| `HashTables.HashTable.Destroy` | src/ds/pht_hashtable.c:42-60 | afterwards the values released are the values ever stored, each once |
| `HashTables.HashTable.Export` | src/ds/pht_hashtable.c:297-315 | one exported key for each binding, with its value |
| `HashTables.Obstruction` | src/ds/pht_hashtable.c:276 | a key is behind a tombstone only if it is stored and something was deleted since the last resize |
| `HashTables.HashTable.Write` | src/classes/hashtable.c:143-166 | search, then update or insert: binds the key unless it is integer 1 behind a tombstone; only an absent key makes the table grow, exactly when three quarters of it are in use |
| `Histories.Apply` | src/classes/hashtable.c:87-239 | each access is one step of a finite map, of the buckets and of the table's size, load and reinserted entries, if and only if it does not overwrite integer key 1 behind a tombstone |
| `Histories.Replay` | src/classes/hashtable.c:87-239 | every history of writes, unsets and reads on a fresh table reads as a finite map does, up to the first write to integer key 1 whose path has a tombstone, and stops there; buckets, size and reinserted entries are those of the history |
| `Histories.FaultNeedsUnset` | src/ds/pht_hashtable.c:237-238 | such a write overwrites a stored key, after an unset of a stored key since the table last grew |
| `Histories.TidyEarlyExit` | src/ds/pht_hashtable.c:178-180 | while no stored key has been unset since the table last grew, the early exit answers as the full search |
| `Histories.LoadFactor` | src/ds/pht_hashtable.c:64-67 | after every history at most three quarters of the buckets are in use, and a write doubles the table exactly if its key is absent and that many are |
| `Histories.GrowthIsPaid` | src/ds/pht_hashtable.c:62-80 | in every history, whatever is unset in between, resizes reinsert at most twice as many entries as were inserted |
| `Histories.UsedIsSize` | src/ds/pht_hashtable.c:123 | the load that decides on resizing is the size of the map |
| `Histories.PlainHistories` | src/classes/hashtable.c:97-166 | for keys without NUL that map is keyed by the keys themselves; the hash function never shows |
| `Histories.IntegerKeyOneFaults` | src/ds/pht_hashtable.c:237-238 | a history whose last step finds a tombstone where it overwrites key 1, which it has just read |
| `Cells.AcquireExact` | src/pht_entry.c:325-361 | counting a new reference keeps all counts exact |
| `Cells.ReleaseExact` | src/pht_entry.c:55-90 | an entry being deleted refers to a live container with a positive count; no longer counting it keeps all counts exact |
| `Cells.TakeExact` | src/ds/pht_queue.c:49-68 | taking an entry out of a cell keeps all counts exact |
| `Cells.PutExact` | src/ds/pht_vector.c:108-124 | putting an entry into a cell keeps all counts exact |
| `Cells.ForgetExact` | src/ds/pht_vector.c:32-38 | dropping all the entries of a container leaves what they refer to counted |
| `Survival.LiveSustained` | src/pht_entry.c:45-91 | with exact positive counts, the live cells keep each other alive |
| `Survival.CascadeOutcome` | src/pht_entry.c:45-91 | a cascade that ends in exact positive counts and spared the sustained cells freed exactly the others |
| `Survival.PathSustained` | README.md:313 | the cells on a path from a root or a cycle keep each other alive |
| `Survival.WalkBack` | README.md:313 | from a sustained cell one can walk back to a root or into a cycle |
| `Survival.SurvivesIffHeld` | README.md:313 | a cell survives if and only if a reference from outside the heap, a task or a cycle reaches it |
| `Survival.AcyclicOutcome` | src/pht_entry.c:45-91 | without cycles a cascade leaves exactly the reachable cells |
| `Survival.NoDangling` | src/pht_entry.c:148-251 | whatever a wrapper, a lost entry or an entry refers to is live, with a positive count |
| `Survival.LeakIffCycle` | README.md:313 | between operations a cell is live if and only if it is reachable, lost entries included, or held by a cycle |
| `Survival.NothingLeftIff` | README.md:313 | everything has been freed if and only if nothing outside refers to a container, no task is left and there is no cycle |
| `Survival.CountsDetermined` | src/pht_entry.c:55-90 | references from outside and entries determine all counts |
| `Survival.Undone` | src/classes/thread.c:383-391 | a task that is taken back leaves every container as it was |
| `Survival.NotLast` | src/classes/queue.c:152-153 | after converting an entry, deleting it is not the last release |
| `References.ReferenceHeap.DeleteValue` | src/pht_entry.c:45-91 | terminates; frees what loses its last reference, leaves dying cells and sustained sets alone, keeps counts exact |
| `References.ReferenceHeap.Destroy` | src/classes/queue.c:33-38 | deletes all entries, frees the cell, and changes other cells only as a cascade may |
| `References.ReferenceHeap.Release` | src/pht_entry.c:36-43 | the cells that survive are exactly those in a sustained set |
| `References.ReferenceHeap.Create` | src/classes/queue.c:50-64 | a new container with one wrapper and count 1 |
| `References.ReferenceHeap.DropWrapper` | src/classes/hashtable.c:74-85 | a wrapper goes and exactly what nothing keeps alive is freed |
| `References.ReferenceHeap.Acquire` | src/pht_entry.c:269-394 | a new entry counts as one more reference |
| `References.ReferenceHeap.Fetch` | src/pht_entry.c:93-267 | converting an entry makes one more wrapper and count |
| `References.ReferenceHeap.Store` | src/classes/vector.c:466-490 | counts the value; puts its entry in place if the index is in range, and loses it otherwise |
| `References.ReferenceHeap.Lose` | src/classes/vector.c:484-487 | a counted entry that is dropped stays counted |
| `References.ReferenceHeap.Refuse` | src/classes/hashtable.c:136-170 | a write with an offset of another type counts the value and loses its entry |
| `References.ReferenceHeap.Forget` | src/classes/vector.c:251 | constructing a vector again loses all its entries and frees nothing |
| `References.ReferenceHeap.Remove` | src/ds/pht_vector.c:126-144 | deleting an entry frees exactly what nothing keeps alive |
| `References.ReferenceHeap.Overwrite` | src/classes/vector.c:497-521 | counts the new entry before releasing the old one, or loses it if the index is out of range |
| `References.ReferenceHeap.Take` | src/classes/queue.c:145-154 | pop converts before deleting: no count changes, nothing is freed, a wrapper is added |
| `References.ReferenceHeap.AddTask` | src/classes/thread.c:379-400 | adds a task with its head and counted arguments; if an argument fails, every container is as before, and the head is lost |
| `References.ReferenceHeap.LeaveHead` | src/classes/thread.c:460-470 | the head leaves a task undeleted |
| `References.LostIff` | src/classes/vector.c:120-525 | which operations drop entries undeleted: exactly writes of a value with an index out of range or an offset of another type, a second construction of a vector that is not empty, and tasks with an argument that fails |
| `References.HeadLeaksIff` | src/classes/thread.c:460-470 | adding a task loses a block if and only if an argument is not convertible and the head owns a block |
| `References.LostForGood` | src/classes/vector.c:477-487 | in every history a container that a lost entry refers to is live ever after |
| `References.FailedInsertLeaks` | src/classes/vector.c:477-487 | an insertion at index 7 of an empty vector after which a queue is live that no wrapper, entry or cycle holds |
| `References.FailedTaskLeaks` | src/classes/thread.c:429-470 | a function task with the name of a function and one failing argument leaves one block and no entry |
| `References.ReferenceHeap.FinishTask` | src/classes/thread.c:77-93 | deleting a task releases its arguments and frees exactly what nothing keeps alive |
| `References.Apply` | src/classes/vector.c:120-542 | every operation, failed writes included, is one step of the relation `Next`, which gives cells, wrappers and accounts after it |
| `References.NextDetermined` | src/pht_entry.c:36-394 | with exact counts that relation leaves one possible state |
| `References.Run` | src/pht_entry.c:36-394 | every history is a trace of such steps; in each of its states counts are exact, payloads are accounted for, and a cell is live if and only if a wrapper, a lost entry, a task or a cycle reaches it |
| `References.EveryOperation` | src/classes/vector.c:120-542 | for each operation of a history: from plain facts about the state it meets, the state it leaves, and when it does nothing |
| `References.ReleaseAll` | src/classes/hashtable.c:74-85 | from any acyclic heap that has lost no reference, dropping every wrapper and finishing every task is a history after which everything is freed |
| `References.SerialisedObjectLeaks` | src/pht_entry.c:45-91 | a container freed with a serialised object in it leaves one block, with a string in it none |
| `References.AllFreedIff` | src/pht_entry.c:45-91 | everything is freed if and only if there are no wrappers, tasks and cycles and no reference was lost; what then remains allocated is the payloads of lost entries and of serialised objects |
| `ReleaseRaces.FreesAreUntested` | src/pht_entry.c:55-62 | in every interleaving a container is freed once for each release that is between lowering and testing when the count gets to zero |
| `ReleaseRaces.FreedOnceIff` | src/pht_entry.c:55-62 | freed exactly once if and only if no other release is there at that moment |
| `ReleaseRaces.LockedFreesOnce` | src/pht_entry.c:55-62 | with the test under the lock, exactly once in every interleaving |
| `ReleaseRaces.FreedTwice` | src/pht_entry.c:60-62 | a run of two releases that both free |
| `ReleaseRaces.RunCompletes` | src/pht_entry.c:55-62 | every run can be continued until all releases have come to their end |
| `ThreadProtocol.OwnerKeepsTasks` | src/classes/thread.c:398-400 | no owner step loses, repeats or reorders a task |
| `ThreadProtocol.WorkerKeepsTasks` | src/classes/thread.c:275-300 | no worker step loses, repeats or reorders a task |
| `ThreadProtocol.StepKeepsInv` | src/classes/thread.c:275-325 | tasks, lock, queue size and life cycle stay consistent in every step |
| `ThreadProtocol.RunAdds` | src/classes/thread.c:398-400 | what has been linked, and what is about to be, is what the add calls of the run added, in their order |
| `ThreadProtocol.EveryRun` | src/classes/thread.c:275-300 | in every interleaving the tasks of the run's add calls run once, in the order of the calls, and are deleted after running; when the worker has left its loop, or the join has returned, all of them have been |
| `ThreadProtocol.OwnerEnabled` | src/classes/thread.c:118-137 | which calls the owner can begin, and that nothing but the wait for the worker blocks one it has begun |
| `ThreadProtocol.NextTaskRuns` | src/classes/thread.c:275-300 | without any join a started worker runs the next task within eleven steps of its own |
| `ThreadProtocol.JoinedIsAbsorbing` | src/classes/thread.c:319-323 | once heard, `JOINED` is never overwritten |
| `ThreadProtocol.LostStaysLost` | src/classes/thread.c:319-323 | once overwritten, the owner waits in every continuation |
| `ThreadProtocol.DrainStep` | src/classes/thread.c:278-299 | after the join the worker is never blocked and each step lowers a measure of the queue |
| `ThreadProtocol.DrainIsBounded` | src/classes/thread.c:278-299 | no run after the join is longer than that measure |
| `ThreadProtocol.Drain` | src/classes/thread.c:275-300 | there is a run to the end, and the join returns |
| `ThreadProtocol.JoinReturnsIff` | src/classes/thread.c:578-580 | the unlocked join can return if and only if the worker is not between test and store |
| `ThreadProtocol.JoinAfterStartReturns` | src/classes/thread.c:578-580 | once the status has been `STARTED`, the unlocked join returns within a bounded number of steps |
| `ThreadProtocol.LockedJoinIsHeard` | src/classes/thread.c:126-128 | with the store under the lock, `JOINED` is never lost in any run |
| `ThreadProtocol.LockedJoinReturns` | src/classes/thread.c:118-137 | so the wait ends within a bounded number of steps |
| `ThreadProtocol.JoinCanBeLost` | src/classes/thread.c:578 | a run in which the unlocked store is overwritten |
| `ZendValues.SharesTaken` | src/pht_zend.c:194-202 | whatever the flags, copy and source have exactly those blocks in common that are interned strings of the source or lie inside its immutable arrays; nothing else is marked in the copy; each block allocated is in it once |
| `ZendValues.NothingShared` | src/pht_zend.c:321-335 | a value without interned strings and immutable arrays has no block in common with its copy |
| `ZendValues.TakenAreNodes` | src/pht_zend.c:194-202 | what a copy takes over belongs to the source |
| `ZendValues.TakenAreMarked` | src/pht_zend.c:194-202 | without immutable arrays only interned strings are taken over |
| `Chains.Link` | src/pht_zend.c:121-123 | putting a bucket at the head of its chain keeps all chains in order |
| `Chains.ChainOfSlot` | src/pht_zend.c:121-123 | a chain lists exactly the buckets of its slot that are not unset, in strictly decreasing order |
| `Chains.FindAlongFinds` | src/pht_zend.c:121-123 | walking the chain of a key finds a matching bucket if there is one |
| `Chains.LookupAgrees` | src/pht_zend.c:121-123 | lookup along the chain gives what the pairs hold under the key, with holes in the data or without |
| `ArrayDup.DupValue` | src/pht_zend.c:321-335 | a copy of the same shape, made of what it takes over and of each newly allocated block once; strings keep their flag |
| `ArrayDup.DupAst` | src/pht_zend.c:283-314 | the same tree, made of what it takes over and of each newly allocated block once |
| `ArrayDup.DupString` | src/pht_zend.c:327 | the same characters; the string itself if it is interned, and otherwise a newly allocated block that is not |
| `ArrayDup.DupElement` | src/pht_zend.c:74-126 | copies a live element and heads its chain, or leaves the target alone |
| `ArrayDup.DupElements` | src/pht_zend.c:144-170 | squeezes out holes, keeps order, links all chains, moves the pointer with its element |
| `ArrayDup.DupPackedElements` | src/pht_zend.c:128-142 | copies element by element in place, holes included |
| `ArrayDup.ResetPointer` | src/pht_zend.c:203-210 | an invalid pointer moves to the first element that is not unset |
| `ArrayDup.DupArray` | src/pht_zend.c:172-263 | the four forms of array, each with its shape, chains, counts, next free index and pointer |
| `ArrayDup.WhichArrays` | src/pht_zend.c:172-263 | which arrays can be copied, and which are in hash form |
| `ArrayDup.BuiltOne` | src/pht_zend.c:108-124 | appending one copied element keeps shape, freshness and chains |
| `ArrayDup.CopyLooksUp` | src/pht_zend.c:121-123 | a lookup along the copy's chains gives what a lookup along the source's chains gives, holes in the source or not |
| `ArrayDup.PointerFollows` | src/pht_zend.c:158-160 | a pointer on a live element is on its copy afterwards |
| `ArrayDup.PointerKeepsPlaceIff` | src/pht_zend.c:155-165 | the copy's pointer stands for the copy of the same element, or for the end, if and only if it was on a live element, or nothing unset precedes it, or nothing live follows; an invalid one, if and only if nothing is live |
| `ArrayDup.PointerSkipsAnElement` | src/pht_zend.c:155-165 | a pointer on the second of two unset elements stands for the next element but one in the copy |
| `ArrayDup.NextFreeKeptIff` | src/pht_zend.c:185-191 | the next free index survives if and only if there are used buckets or it was 0 |
| `Vectors.Vector.SpaceCheck` | src/ds/pht_vector.c:24-30 | doubles a full vector, which copies its slots, contents unchanged |
| `Vectors.GrowthDoubles` | src/ds/pht_vector.c:24-30 | a full vector gets twice its capacity, an empty one a capacity of 1 |
| `Vectors.Positions` | src/ds/pht_vector.c:57-144 | position by position, what inserting, removing and resizing make of a sequence |
| `Vectors.Vector.Push` | src/ds/pht_vector.c:40-45 | appends |
| `Vectors.Vector.Pop` | src/ds/pht_vector.c:47-55 | returns and drops the last entry |
| `Vectors.Vector.Shift` | src/ds/pht_vector.c:57-73 | returns and drops the first entry |
| `Vectors.Vector.Unshift` | src/ds/pht_vector.c:75-85 | puts an entry in front |
| `Vectors.Vector.FetchAt` | src/ds/pht_vector.c:87-94 | the entry at an index in range |
| `Vectors.Vector.UpdateAt` | src/ds/pht_vector.c:96-106 | replaces an entry and deletes the old one |
| `Vectors.Vector.InsertAt` | src/ds/pht_vector.c:108-124 | inserts at any index up to the end |
| `Vectors.Vector.DeleteAt` | src/ds/pht_vector.c:126-144 | removes an entry; reads past the buffer if and only if the vector is full |
| `Vectors.Vector.Destroy` | src/ds/pht_vector.c:151-158 | afterwards every entry put in was returned or deleted, once |
| `Vectors.Vector.Fill` | src/classes/vector.c:258-281 | the constructor fills the capacity, and every entry is booked |
| `Vectors.Vector.Resize` | src/classes/vector.c:291-365 | drops the tail or pads, if and only if the argument is not the capacity or already the length; what is dropped has been deleted, what is padded put in |
| `Vectors.Vector.Grow` | src/classes/vector.c:319-354 | pads with the value, each copy booked as put in |
| `Vectors.Vector.Shrink` | src/classes/vector.c:355-362 | drops the tail, each entry booked as deleted |
| `Vectors.Ledger.BalanceRemove` | src/ds/pht_vector.c:47-144 | an entry that leaves is accounted for once |
| `Vectors.Ledger.Moves` | src/ds/pht_vector.c:47-144 | an entry put in, returned or deleted is booked as that and as nothing else |
| `Vectors.CapacitySuffices` | src/ds/pht_vector.c:24-30 | in every history the contents fit the capacity |
| `Vectors.GrowthIsPaid` | src/ds/pht_vector.c:24-30 | in every history without explicit resizes, doubling copies at most twice as many slots as entries were put in |
| `Vectors.OverreadIsReachable` | src/ds/pht_vector.c:126-144 | a push and a deletion that reads past the buffer |
| `Vectors.ResizeIsIgnored` | src/classes/vector.c:291-365 | two pushes and a pop after which resizing to 2 leaves one entry |
| `Vectors.Apply` | src/classes/vector.c:291-542 | each operation is one step of a sequence with a capacity, and copies the slots that step copies |
| `Vectors.Replay` | src/classes/vector.c:291-542 | every history returns what the sequence returns, overreads included, and copies the slots the history copies |
| `Queues.Queue.Push` | src/ds/pht_queue.c:32-47 | appends a node at the tail |
| `Queues.Queue.Pop` | src/ds/pht_queue.c:49-68 | returns and unlinks the first node |
| `Queues.Queue.Front` | src/ds/pht_queue.c:70-77 | the first element |
| `Queues.Queue.Destroy` | src/ds/pht_queue.c:84-89 | every element ever pushed has then been popped or destroyed, in order |
| `Queues.Queue.ToSeq` | src/ds/pht_queue.c:91-101 | the elements in order |
| `PropertyCache.Wrapper.Call` | src/classes/vector.c:387-388 | after any method of any wrapper all caches are coherent if and only if it bumps the version or no table still current differs from that of the new contents |
| `PropertyCache.Wrapper.GetProperties` | src/classes/vector.c:206-227 | cached or rebuilt, the table is that of the current contents |
| `PropertyCache.VectorBumpsWhen` | src/classes/vector.c:364-541 | a vector method bumps the version exactly if it neither only reads nor throws nor is a resize to the capacity |
| `PropertyCache.VectorBumpsOnChange` | src/classes/vector.c:364-541 | a vector method that does not bump the version changes no table |
| `PropertyCache.QueueStep` | src/classes/queue.c:114-175 | the effect of a queue method is what it does to a queue, and it bumps the version exactly if it pushes or pops an element |
| `PropertyCache.QueueBumpsOnChange` | src/classes/queue.c:118-175 | nor does such a queue method |
| `PropertyCache.TableBumpsWhen` | src/classes/hashtable.c:130-239 | a hash table access bumps the version exactly if it writes or unsets |
| `PropertyCache.TableBumpsOnChange` | src/classes/hashtable.c:130-239 | nor does such a hash table access |
| `PropertyCache.ReplayEvents` | src/classes/vector.c:206-227 | if methods that change a table bump the version, then in every history of calls by any number of wrappers each property table is current |
| `PropertyCache.VectorTables` | src/classes/vector.c:206-227 | so it is for vectors |
| `PropertyCache.QueueTables` | src/classes/queue.c:86-108 | so it is for queues |
| `PropertyCache.HashTableTables` | src/classes/hashtable.c:241-263 | so it is for hash tables |
| `AtomicIntegers.StepKeepsInv` | src/classes/atomic_integer.c:160-178 | only the owner of the mutex is inside an operation, and what it has read is still the value |
| `AtomicIntegers.EveryRunIsSerial` | README.md:437-471 | in every interleaving the value is that of completed incs, decs and locked doublings taken one at a time |
| `AtomicIntegers.RunIsLogged` | src/classes/atomic_integer.c:152-179 | the log adds up to the increments minus the decrements that the run began and has written, doublings or not |
| `AtomicIntegers.EveryRunCounts` | src/classes/atomic_integer.c:152-179 | without doublings the value is the start plus increments minus decrements begun, but for those not yet written |
| `AtomicIntegers.OwnerCanMove` | src/classes/atomic_integer.c:51 | the mutex is recursive: its owner is never blocked, unlocking undoes a nested lock, and nobody else gets in |
| `AtomicIntegers.WholeOperation` | src/classes/atomic_integer.c:152-179 | an increment or decrement from beginning to end changes the value by one and leaves the mutex as it was |
| `AtomicIntegers.WholeDoubling` | README.md:437-471 | the locked doubling of the README doubles the value and gives the mutex back |
| `AtomicIntegers.EveryRunReleases` | src/classes/atomic_integer.c:181-207 | in every run the mutex is free exactly if every lock has been undone and no operation is in progress |
| `AtomicIntegers.FreeMutexIsOpen` | src/classes/atomic_integer.c:181-195 | a mutex that nobody has can be had by any thread |

## Left out

- References.ReferenceHeap.DeleteValue: takes the decrement and the test for zero as one step, although the test at `src/pht_entry.c:60` is outside the lock; operations of different threads on one heap do not interleave. `ReleaseRace.dfy` has those steps for one container.
- ReleaseRaces.FreesAreUntested: the threads hold all references left, one each; memory that has been freed is still read as it was.
- References.ReferenceHeap.AddTask: a file that does not exist or a value that is not callable, for which nothing is converted; the memory of the task structure and of its argument array.
- References.ReferenceHeap.Acquire: assumes that the caller does not hold the container's error-checking mutex, which users can lock as well.
- HashTables.HashTable.Update: what happens after NULL has reached the destructor is not modelled; the table is left as it was.
- Histories.Replay: does not follow a history beyond its first fault.
- Vectors.Vector.DeleteAt: the slot that an overread would copy is left as it is; it is dropped right after.
- ThreadProtocol.EveryRun: running a task is one opaque step that ends; one start and one join for each thread, no task added after the join; memory is sequentially consistent.
- ThreadProtocol.Step: the thread object is a value that steps transform, not a class, and its queue a sequence; that the linked queue is one is the business of `Queues.Queue`.
- AtomicIntegers.Step: likewise a value, so that the steps of any number of threads interleave; its reference count is that of any container.
- AtomicIntegers.EveryRunIsSerial: `set` is modelled as the doubling inside a locked region that the README shows; `set` outside the lock is the caller's duty.
- PropertyCache.ReplayEvents: contents are values and the table is any function of them; that the containers' methods do to their contents what the effects say is the business of `Vectors`, `Queues` and `Histories`.
- Vectors.GrowthIsPaid: explicit resizes can make any number of copies, so they are excluded.
- ArrayDup.DupArray: values, arrays and trees are finite immutable inputs; only the buffers of the copy are updated in place.
- Addresses are not reused: a freed cell keeps its number, and `free` has no other effect.
- Vectors.Vector.Resize: negative sizes, which throw, are not arguments of the model.
- References.ReferenceHeap.Forget: any container can be forgotten in the model, in the code only a vector; the buffer that is replaced.
- References.ReferenceHeap.Store: a value that cannot be converted, for which nothing happens; `clone` of a container, for which the code has no handler.
- Key strings: that the key duplicated for an overwriting write is not freed at `src/classes/hashtable.c:146-154`.
- 64-bit wrap-around of hashes, version numbers and counts, `int` overflow of sizes, and the truncation of PHP integers to a C `int` at `src/pht_entry.h:34`.
- Serialisation, `zend_hash_func`, allocation failure and `malloc(0)`: foreign calls and platform limits.
- Copying an execution context in `src/pht_copy.c`, running tasks, TSRM, request startup and shutdown, parameter parsing, error messages and class registration.
