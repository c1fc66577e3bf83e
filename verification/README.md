# Tidis in Dafny

Tidis serves Redis lists, hashes, sets and sorted sets from one flat, ordered, transactional
key-value map (TiKV). This project models that server from the key bytes up to the commands
and proves that what is stored means what Redis promises, over every input and every run.

How the model is built:

- **Keys and order.** A key is named by its user key and one of nine parts. `Keys.Encode` gives
  its bytes; scans, ranges and key order are decided on those bytes. Distinct keys have distinct
  bytes, so the store can be a map from named keys.
- **The store.** `Store.Txn` is a transaction: reads see its own writes, a scan is a snapshot in
  byte order, `batch_get` returns one pair per requested key that is stored, in an order that
  callers do not know. Every command is a method on a `Txn`. Its contract speaks of the *block* of
  its user key (everything stored under that key) and says that no other key changes. A command
  that answers with an error is rolled back by `exec_in_txn` (src/tikv/client.rs:157-275); the
  contracts describe the transaction body.
- **Deletion.** `Gc` gives every change of a block as a step, and a store without versions as the
  reference. Each command is proved to be a run of such steps (`Served`), so the results about
  runs cover the commands themselves (`GcSystem.CommandIsMove`). The one exception is HINCRBY on an
  expired hash, below.
- **Transactions.** A command is one atomic transaction, except HINCRBY, which starts a second one.
  There the model takes TiKV's transactions as follows: each reads the snapshot it began with; an
  optimistic one (the default, src/config.rs:429-439) is refused at its commit if a key it writes
  was changed since, and `exec_in_txn` then starts the command again; a pessimistic one is not.
- **Lists** are windows of indexed keys; **hashes, sets and sorted sets** are named items plus a
  size that is the sum of up to 65536 signed counters.
- The clock, the random counter index, thresholds, configuration limits, regular expressions,
  checksums, integer parsing and float addition are parameters.

Where the code does not do what Redis documents, the model keeps the code, names the failing case
(with an example where the contract does not say it outright), and proves exactly when the two
agree:

- a gc task queued from an overtaken scan destroys live data (`GcStale.StaleScanLosesData`); with
  fresh scans every run is safe (`GcSystem.SystemRefines`), and a purge is invisible exactly if it
  does not hit live data (`GcRuns.PurgeInvisibleIff`);
- a failed gc task is never tried again, and its version is lost (`GcProgress.FailedIsNeverRetried`);
  a full queue can block the master and a worker for good (`GcProgress.BlocksIff`,
  `GcStale.DeadlockExample`); a deleted version can still be collected exactly if neither stands in
  its way (`GcProgress.CollectableIff`);
- a creation can be refused although 65535 versions are free (`GcRuns.RefusedWhileFree`); if versions
  are collected oldest first, it is refused only when all 65536 are pending
  (`GcOrder.OrderedRunFillsUp`);
- a string written over a collection orphans its data, which later comes back
  (`GcRuns.StringOverwriteResurrects`, `GcRuns.SetStringKeepsInvIff`);
- list indexes wrap around silently after 2^32 pushes to the left (`List.WrapExample`); PUSH and
  LINSERT keep the list in order exactly if the index space has room (`List.Push`,
  `ListEdit.Linsert`);
- LTRIM clamps both indexes (`List.TrimMeetsRedisIff`), and LRANGE scans past the end of the list
  (`ListRange.RangeMeetsRedisIff`);
- HSET answers the number of given pairs, not of new fields (`HashSet.HsetMeetsRedisIff`);
- HINCRBY of a new field can miss the count, and outside MULTI it does not see that it has just
  dropped an expired hash: it may increment the old value and store it where nothing reads it
  (`HashIncr.Hincrby`);
- DEL counts a key twice that is given twice, and one that has expired (`Keyspace.DelMeetsRedisIff`);
- ZADD with a repeated member can leave stale score keys or a wrong size (`ZsetAdd.ZaddIff`);
- a write to an expired list, hash or sorted set reuses the expired ttl (`List.Push`,
  `HashSet.Hset`, `ZsetAdd.Zadd`);
- SCAN lists expired keys while it removes them, never lists the empty key, and starts behind the
  key it is given, so only the empty string starts at the beginning (`Keyspace.ScanKeyspace`,
  `Keyspace.WalkMeetsRedisIff`);
- EXEC rolls everything back at the first error reply, where Redis goes on
  (`Multi.ExecMeetsRedisIff`);
- the gc's hash tag differs from Redis with nested braces (`Cluster.TagMeetsRedisIff`), and some
  cluster sizes leave slots unserved (`Cluster.AllServedIff`).

## Model

| member | source | states |
|---|---|---|
| Codec.EncodeBytes | src/tikv/encoding/encode.rs:47-65 | the group-by-group loop computes the memcomparable encoding `Enc` of any key, including the extra group for keys whose length is a multiple of eight |
| Codec.EncLayout | src/tikv/encoding/encode.rs:47-65 | the encoding byte for byte: full groups of eight with marker 255, the last one padded with zeros and marked with 247 plus its length |
| Codec.EncOrder | src/tikv/encoding/encode.rs:47-65 | the encoding is a strict order embedding: encodings of different keys, with anything appended to either, compare as the keys do |
| Codec.EncPrefixFree | src/tikv/encoding/encode.rs:47-65 | no encoding is a prefix of another: an encoding followed by anything can be split in one way only |
| Codec.DecodeBytes | src/tikv/encoding/decode.rs:11-34 | the decoding loop computes `Dec`, with `None` where the slicing panics |
| Codec.EncodedBytesLen | src/tikv/encoding/decode.rs:156-168 | the length loop computes `EncLen` |
| Codec.DecEnc | src/tikv/encoding/decode.rs:11-34 | with any bytes appended, decoding recovers the key and the length function finds where its encoding ends |
| Codec.Be16Order | src/tikv/encoding/encode.rs:187-197 | two-byte big-endian versions and counter indexes sort as numbers, are injective and read back |
| Codec.Be64Order | src/tikv/encoding/encode.rs:300-308 | eight-byte big-endian indexes and score codes sort as numbers, are injective and read back |
| Score.ValueIs | src/tikv/encoding/encode.rs:472-482 | the value of a score from sign, exponent and fraction, as IEEE 754 gives it |
| Score.ToCmpIs | src/tikv/encoding/encode.rs:472-482 | the code of every score as a bit operation: sign bit set, or all bits inverted; a negative zero stays as it is |
| Score.ToCmpOrder | src/tikv/encoding/encode.rs:472-482 | the u64 code orders scores exactly by their IEEE 754 value; only the two zeros share a code |
| Score.FromToCmp | src/tikv/encoding/decode.rs:119-129 | decoding a code gives the score back, up to the sign of zero, and encodes to the same code again |
| Score.ExclusiveBound | src/tikv/encoding/encode.rs:528-569 | moving a bound by one code excludes exactly the scores equal to it and cannot overflow |
| Keys.KeyLayout | src/tikv/encoding/encode.rs:21-611 | the bytes of all nine key families, with their literal type bytes and place holders |
| Keys.TailInjective | src/tikv/encoding/encode.rs:118-611 | all nine key families together are injective: equal bytes mean the same family, user key, version and item |
| Keys.EncodeOrder | src/tikv/encoding/encode.rs:118-611 | under one instance id encoded keys are equal and ordered exactly as the named keys |
| Keys.BlockOrder | src/tikv/encoding/encode.rs:163-241 | the keys of one user key form one block, and blocks sort as the user keys |
| Keys.ElemOrder | src/tikv/encoding/encode.rs:300-308 | list keys of one version sort by index |
| Keys.RankedOrder | src/tikv/encoding/encode.rs:484-501 | score keys of one version sort by score code and then by member |
| Keys.FamilyRangeExact | src/tikv/encoding/encode.rs:199-526 | each family range selects exactly the keys of its family, user key and version; in particular the sub-meta range does not select the meta key |
| Keys.ListIdxRangeExact | src/tikv/encoding/encode.rs:310-321 | the inclusive index range selects exactly the list keys with those indexes |
| Keys.ScoreBoundsExact | src/tikv/encoding/encode.rs:528-569 | score bounds select exactly the score keys with codes between them, and no key equals the upper bound, so the closed and the half-open range agree |
| Keys.GcVersionRangeExact | src/tikv/encoding/encode.rs:593-611 | the gc-version range selects exactly the gc-version keys |
| Keys.GcVersionKeyRoundTrip | src/tikv/encoding/decode.rs:170-177 | a gc-version key decodes to its user key and version |
| Keys.MetaKeyTest | src/tikv/encoding/decode.rs:179-185 | on every user-space key the decoder returns the user key and accepts exactly the meta keys |
| Keys.DataKeySuffix | src/tikv/encoding/decode.rs:88-150 | the fixed offset of the data-key decoders is where field, member, index or score and member start |
| Values.MetaLayout | src/tikv/encoding/encode.rs:67-295 | the bytes of every meta value: literal type byte, ttl, version, then data, window or number of counters |
| Values.MetaRoundTrip | src/tikv/encoding/encode.rs:278-295 | every meta value, string, list or collection, survives being encoded and decoded, except that an index size of 0 comes back as the configured number |
| Replies.ExpiredIs | src/utils.rs:150-156 | a ttl of 0 never expires, and any other one exactly from the next millisecond on |
| Indexes.RangeBetween | src/tikv/zset.rs:520-530 | the documented range between two positions is the inclusive slice, whichever end either index is counted from, and 0 to -1 is everything |
| Indexes.RangeOutside | src/tikv/zset.rs:520-575 | a start behind or an end before the sequence gives nothing; a start before or an end behind it gives what the first or last position gives |
| Gc.FreshVersionEmpty | src/tikv/client.rs:279-303 | the version handed out for a new collection holds no data, so a new collection starts empty, however often versions wrap around |
| Gc.WriteRefines | src/tikv/client.rs:279-303 | creating or changing a collection under its version keeps the invariant and shows clients the same change on an unversioned store |
| Gc.DelRefines | src/tikv/hash.rs:794-856 | deletion, now or later, keeps the invariant and shows clients nothing at once |
| Gc.GcRefines | src/gc.rs:221-363 | a guarded purge and the forgetting of a version keep the invariant and change nothing visible |
| Gc.StepRefines | src/gc.rs:221-363 | every guarded step keeps the invariant and refines the step of a store with immediate deletion |
| Gc.RunRefines | src/gc.rs:221-363 | the same for every run of steps of one key |
| Gc.ReachesByWrite | src/tikv/hash.rs:151-182 | whatever a command does to meta key and data of its own version is one write step |
| Gc.ReachesByDel | src/tikv/hash.rs:636-643 | a command that removes the last item performs a deletion step |
| GcRuns.RunOfBlock | src/gc.rs:89-175 | over the whole store, the block of each key is the result of that key's own steps |
| GcRuns.AsyncDeletionIsImmediate | src/gc.rs:89-363 | from an empty store, after any guarded interleaving over all keys, each key shows what its accepted commands produce with immediate deletion; its live version is not pending and all its data is live or pending |
| GcRuns.HistoryRefines | src/gc.rs:89-363 | any history of a key, commands interleaved with gc transactions: each move has steps of its own, commands or one gc transaction, that lead from its state to the next and show what they show with immediate deletion; every state is in order; put together they explain the whole history |
| GcRuns.PurgeInvisibleIff | src/gc.rs:221-334 | a purge is invisible if and only if it does not hit data of the live version |
| GcRuns.PurgeKeepsInvIff | src/gc.rs:221-334 | a purge keeps every item owned if and only if it does not drop a pending mark while data of another type remains under it |
| GcRuns.StaleTaskLosesData | src/gc.rs:221-334 | a task handled twice empties the collection created in between, for every collection |
| GcRuns.RefusedWhileFree | src/tikv/client.rs:285-302 | a run after which only version 0 is pending and the next creation is refused |
| GcRuns.SetStringKeepsInvIff | src/tikv/string.rs:209-232 | a string write leaves a key in order if and only if no live collection data is orphaned |
| GcRuns.StringOverwriteResurrects | src/tikv/string.rs:209-232 | after overwriting a collection by a string and deleting that, the next creation shows the old items again |
| GcOrder.RefusedIff | src/tikv/client.rs:285-302 | a creation is refused if and only if the version after the remembered one, or 0, is still pending |
| GcOrder.RefusedOnlyWhenFull | src/tikv/client.rs:285-302 | if the pending versions are the last ones up to the remembered one, that is so if and only if all 65536 are pending |
| GcOrder.StepKeepsOrder | src/gc.rs:323-363 | writes and deletions keep that condition, and so does the gc as long as it collects the oldest version first and forgets only collected ones |
| GcOrder.OrderedRunFillsUp | src/gc.rs:323-363 | after every run that collects oldest first a creation is refused if and only if all versions are pending |
| GcWorker.GetVersionForNew | src/tikv/client.rs:279-303 | the version lookup computes the successor of the remembered version, with wrap-around, and refuses it while it is pending |
| GcWorker.DeleteFamily | src/gc.rs:235-319 | scanning one family of one version and deleting every key removes exactly that family |
| GcWorker.PurgeVersion | src/gc.rs:221-334 | the first transaction removes exactly the data of one type and version and its gc-version key |
| GcWorker.ClearGcKey | src/gc.rs:336-363 | the second transaction forgets the remembered version only if it is the one just collected |
| GcWorker.TaskBytesInjective | src/gc.rs:41-47 | the bytes that identify a task tell type, user key and version apart |
| GcWorker.Worker.AddTask | src/gc.rs:202-219 | a task is queued exactly when it is not known yet, and waits for room if the queue is full; no task is ever queued twice; the step `Add` of the system |
| GcWorker.Worker.HandleNext | src/gc.rs:221-383 | a handled task has both transactions' effects on its own key only and is forgotten; if the first fails nothing changes, if the second fails the data is gone, and in both cases the task stays known; a waiting task takes the place that becomes free; the worker's state changes as in the system |
| GcSystem.NextKeepsInv | src/gc.rs:57-383 | for any number of workers, any queue capacity and any hash: every move of clients on all keys, fresh scans and workers keeps the system invariant (each worker holds each task once, only tasks dispatched to it, those not yet purged still pending, and a sender waits only at a full queue), and only clients change what they see |
| GcSystem.SystemRefines | src/gc.rs:57-383 | over every interleaving of commands, strings, fresh scans, the transactions of all workers and failures, each key shows the run of its own accepted commands with immediate deletion; no guard has to be assumed |
| GcSystem.MovedHolds | src/gc.rs:76-82 | because tasks are dispatched by a hash of the task, no worker holds a task that another one purges, and a worker comes to hold only tasks that were found for it |
| GcSystem.PendingUnlessCollected | src/gc.rs:221-363 | a pending version stays pending in every move but the purge by a worker that has taken its task |
| GcSystem.StoreStaysInOrder | src/gc.rs:57-383 | in every state such a run reaches, every list is an exact window and every collection has an exact size, if the commands leave their own keys so |
| GcSystem.ServerIsCorrect | src/gc.rs:57-383 | both for every run from an empty store and an idle pool |
| GcSystem.CommandIsMove | src/tikv/client.rs:157-275 | whatever meets the contract of a command is a move of the system, and one that leaves its key in order |
| GcSystem.StringIsMove | src/tikv/string.rs:209-232 | so is a string that is written where there is no collection, and it leaves its key in order |
| GcSystem.HandlingIsMoves | src/gc.rs:365-383 | what a worker does with a task, whole or failing in either transaction, is a sequence of moves |
| GcProgress.CollectableIff | src/gc.rs:57-383 | in every state of the system, a pending version is collected in some run with fresh scans if and only if it is not lost: its task did not fail, and no worker is stuck that would have to move first |
| GcProgress.LostForever | src/gc.rs:202-383 | what is lost stays pending and lost in every later run |
| GcProgress.CollectHeld | src/gc.rs:365-383 | a task that a worker holds is purged after finitely many moves of that worker alone, if it is not stuck |
| GcProgress.FailLoses | src/gc.rs:365-383 | a failure of either transaction loses the task |
| GcProgress.FailedIsNeverRetried | src/gc.rs:202-383 | if the first transaction fails, the version stays pending in every later run, so it is neither collected nor handed out again |
| GcProgress.BlocksIff | src/gc.rs:202-219 | exactly when a move blocks the master and a worker for good: a new task for a full queue meets a worker that only needs the lock to finish, or such a worker gets that far while the master waits |
| GcProgress.DeadlockIsForever | src/gc.rs:366-377 | a stuck worker never changes again |
| GcProgress.MasterFreesIff | src/gc.rs:89-175 | the master can go on, in some run, if and only if no worker is stuck |
| GcStale.StaleScanLosesData | src/gc.rs:104-164 | for any pool there is a run in which a scan result that was stored earlier but is gone by now makes a worker empty a live collection, whatever it contains |
| GcStale.DeadlockExample | src/gc.rs:202-219 | with one worker and a queue of one, a run from the start that ends stuck |
| Invariants.GcKeepsInv | src/gc.rs:221-363 | a guarded gc transaction keeps the elements of a live list, the items of a live collection, and the invariants of both |
| Invariants.ListCommandKeepsInv | src/tikv/list.rs:37-140 | a list command that keeps the list invariant also keeps the one of the other types |
| Invariants.CollCommandKeepsInv | src/tikv/hash.rs:77-244 | and a hash, set or sorted set command the one of lists |
| Invariants.StringKeepsInv | src/tikv/string.rs:209-232 | a string that overwrites no collection keeps both |
| ListWindow.ScanList | src/tikv/list.rs:816-835 | a scan of the list range returns the elements in list order |
| ListWindow.ScanElems | src/tikv/encoding/encode.rs:310-321 | an inclusive scan between two stored indexes returns exactly the elements between them |
| List.DropList | src/tikv/list.rs:958-1069 | deletion and expiry are exactly the deletion step: later from the threshold length on, else every element now |
| List.ListDel | src/tikv/list.rs:958-1009 | DEL of a list is exactly the deletion step and answers whether there was one |
| List.Open | src/tikv/list.rs:161-176 | the common start of the commands: wrong type is refused, an expired list is dropped by exactly the deletion step and counts as absent |
| List.Prepare | src/tikv/list.rs:56-76 | PUSH works on the live window, or on an empty window in the middle of the index space under a free version |
| List.RoomOfNew | src/tikv/list.rs:25-76 | a new list has room for exactly 2^32 elements on the left and 2^63 - 2^32 - 1 on the right |
| List.Push | src/tikv/list.rs:37-140 | LPUSH and RPUSH: the list becomes the pushed sequence and its window stays exact if and only if the index space has room; the reply is the new length in every case; a missing or expired list is created, keeping the ttl found; refused if and only if the type is wrong or a list must be created and its version is pending |
| List.WrapExample | src/tikv/list.rs:78-81 | a well-formed list that a push to the left breaks |
| List.Pop | src/tikv/list.rs:142-262 | LPOP and RPOP remove the first or last `count` elements, all of them if there are fewer, and return them, one as it is and several in some order, and leave the rest with its ttl; an emptied list has no meta key |
| List.PopMeans | src/tikv/list.rs:182-228 | what the elements taken and left are, as slices of the list, for every count |
| List.TakeElems | src/tikv/list.rs:206-228 | several elements: the keys collected from one end, fetched in one batch and deleted, are exactly the elements to pop, whatever order the batch comes in |
| List.Ltrim | src/tikv/list.rs:264-372 | LTRIM leaves the documented range, counted from either end, after a start behind the list is moved to its last element and an end before it to its first; the ttl stays, and no key is left if the range is empty |
| List.TrimIsRange | src/tikv/list.rs:299-325 | clamping the positions, as coded, is moving those two indexes and nothing else |
| List.TrimMeetsRedisIff | src/tikv/list.rs:299-325 | the clamped slice is the documented one if and only if the start is below the length and the end at least minus the length, or the clamped range is empty |
| List.TrimExample | src/tikv/list.rs:299-325 | a start behind the list keeps the last element |
| List.Lset | src/tikv/list.rs:547-611 | LSET replaces exactly the element at the index, counted from the end if negative, keeps the ttl, and refuses missing keys and indexes outside the list |
| List.Lindex | src/tikv/list.rs:490-545 | LINDEX reads the element at the index, counted from the end if negative, with no value for any index outside the list, and changes nothing but an expired list |
| ListEdit.FindPivot | src/tikv/list.rs:655-671 | the scan finds the first occurrence of the pivot, or none |
| ListEdit.ShiftDown | src/tikv/list.rs:681-702 | moving the left part down leaves the list with one duplicate and no hole, if there is an index below it |
| ListEdit.ShiftUp | src/tikv/list.rs:710-734 | moving the right part up, front to back, leaves the list with one duplicate and no hole, if there is an index above it |
| ListEdit.InsertElem | src/tikv/list.rs:673-742 | whichever side is shorter, the element is inserted at its place and nothing is lost, doubled or orphaned, if that side has room |
| ListEdit.Linsert | src/tikv/list.rs:613-770 | LINSERT puts the element before or after the first pivot, keeps the ttl, and answers the new length, -1 without a pivot, 0 without a list, or an error for a list that is too long; the list stays in order if and only if the shifted side has room |
| ListRemove.FindHoles | src/tikv/list.rs:816-835 | the first scan collects the indexes of all matches in order |
| ListRemove.RemoveFromHead | src/tikv/list.rs:848-880 | the forward pass removes the first matches within the count, keeps the others in order and leaves elements exactly on the shorter window |
| ListRemove.RemoveFromTail | src/tikv/list.rs:893-926 | the backward pass does the same for the last matches, packing to the right |
| ListRemove.LremMeans | src/tikv/list.rs:773-956 | in terms of occurrences: of m of them, `count` are removed, or all for 0 and for counts from m on; every other element stays as often as it was; from the head, a front of the list that holds exactly that many loses them and the rest is as it was, and from the tail a back |
| ListRemove.Lrem | src/tikv/list.rs:773-956 | LREM answers and removes that many occurrences, the first ones from the head or the last ones from the tail, keeps everything else in order and the ttl, and drops a list that becomes empty |
| ListRange.MetaAfterElems | src/tikv/encoding/encode.rs:163-177 | the meta key of a list sorts behind its elements, so an open-ended scan always finds more than the list |
| ListRange.RangeMeetsRedisIff | src/tikv/list.rs:408-439 | for a start that is not before the index space, LRANGE returns the documented range if and only if the indexes are in one of five cases, given as inequalities between start, end, length and window; otherwise the reply is too long |
| ListRange.WrappedStart | src/tikv/list.rs:421-436 | for a start before the index space the index wraps around: unless the range is empty, at least one value is returned and none of them is an element of the list |
| ListRange.WrappedAgreesOnlyIf | src/tikv/list.rs:421-436 | such a reply is the documented one by accident at most: only if elements of a deleted list of the same key are still stored |
| ListRange.RangeExample | src/tikv/list.rs:408-439 | indexes 1 and 5 on three elements return three values |
| ListRange.Lrange | src/tikv/list.rs:374-447 | LRANGE as coded, with that exact condition and what it returns for starts that wrap around; it changes nothing but an expired list |
| Counters.TotalChange | src/tikv/set.rs:138-151 | changing one counter changes the size by as much |
| Counters.SumKeySize | src/tikv/hash.rs:37-75 | scanning and adding the counters, each of any sign, gives the total over all possible indexes |
| Counters.Bump | src/tikv/set.rs:138-151 | adding to one counter, created if missing, changes nothing else and the total by exactly that much |
| Collection.DeleteMembers | src/tikv/zset.rs:1400-1424 | deleting each member's data key and the score key computed from its stored score removes all keys of both families |
| Collection.DropColl | src/tikv/zset.rs:1364-1441 | deletion and expiry of hashes, sets and sorted sets are exactly the deletion step: later above the threshold, else every key now |
| Collection.Open | src/tikv/hash.rs:600-613 | wrong type is refused, an expired collection is dropped and counts as absent |
| Collection.Prepare | src/tikv/hash.rs:99-118 | the creating commands work under the live version or under a free and empty one; they are refused if and only if the type is wrong, or a collection must be created and, after dropping an expired one, the next version is pending |
| Collection.Shrink | src/tikv/hash.rs:635-660 | after removals the size is exact again, and an emptied collection has neither meta key nor counters left |
| Collection.Grow | src/tikv/set.rs:138-158 | after additions the size is exact again and the meta key exists |
| HashSet.CountNew | src/tikv/hash.rs:133-149 | distinct requested names minus those a batch get finds is the number of new names |
| HashSet.PutItems | src/tikv/hash.rs:151-159 | the writing loop assigns the items in order, the last one winning, and does not touch the size |
| HashSet.Hset | src/tikv/hash.rs:77-244 | HSET, HMSET and HSETNX assign the fields in order and keep the size exact whatever counter is used; the reply counts the given pairs; NX on an existing field changes nothing; the meta key stays, or is a new one with the next version and the ttl found, so an expired hash is replaced with the expired ttl; both errors occur exactly when they should |
| HashSet.HsetMeetsRedisIff | src/tikv/hash.rs:229-241 | the answer is the number of new fields if and only if all given fields are new and none is given twice |
| HashSet.HsetExample | src/tikv/hash.rs:229-241 | setting a field that is there is answered with 1 |
| HashSet.Sadd | src/tikv/set.rs:82-197 | SADD adds the members, answers how many were new counting duplicates once; the meta key of a set that is there stays, and a new one, also after expiry, has the next version and no ttl; both errors occur exactly when they should |
| HashSet.RemoveItems | src/tikv/hash.rs:585-674 | HDEL, and SREM which differs only in reading the size first, remove the named items that exist, answer their number, and keep the size exact and the ttl |
| HashSet.Spop | src/tikv/set.rs:589-695 | SPOP removes and returns the smallest members in byte order, as many as asked for or as there are, and keeps the ttl |
| HashIncr.IncrInside | src/tikv/hash.rs:676-792 | HINCRBY in one transaction stores and answers the right value in every case, errors exactly when it should, and the size stays exact if and only if the field existed, the hash is new, or the chosen counter did not exist yet |
| HashIncr.CountMissedExample | src/tikv/hash.rs:729-744 | a well-formed hash and a field for which the count is missed |
| HashIncr.IncrAcross | src/tikv/hash.rs:688-761 | an expired hash outside MULTI: reply and block in every case of the two transactions, optimistic or pessimistic, including the restart after a conflict |
| HashIncr.OverlaidIsCreatedIff | src/tikv/hash.rs:703-761 | when the writes decided on the old snapshot still give a hash of just the incremented field: never if the old field was found; pessimistic, if the version is another one, or the data is gone and the counter was 1; an optimistic one keeps the invariant in any case |
| HashIncr.Hincrby | src/tikv/hash.rs:676-792 | HINCRBY: as in one transaction in MULTI and on any hash that has not expired; on an expired one outside MULTI, by default, right if and only if the field was not stored under the next version or the hash is small enough to be deleted at once, and otherwise the old value is incremented and nothing is stored |
| HashIncr.OvertakenExample | src/tikv/hash.rs:703-761 | an expired hash of one field for which it goes wrong |
| ZsetAdd.AddAllRanked | src/tikv/zset.rs:134-242 | which score keys a member has after the writes: the old one goes only if another score comes last |
| ZsetAdd.IndexedIff | src/tikv/zset.rs:134-242 | both indexes agree afterwards if and only if every score given for a member is its last given or its old one |
| ZsetAdd.NewCountIff | src/tikv/zset.rs:134-258 | the counted additions equal the new members if and only if no new member is given twice |
| ZsetAdd.ZaddIff | src/tikv/zset.rs:118-267 | after ZADD the invariant holds if and only if both conditions do and the set is not left empty; the scores themselves are right in every case |
| ZsetAdd.DistinctFits | src/tikv/zset.rs:299-301 | distinct members always meet the condition |
| ZsetAdd.TwiceDoesNotFit | src/tikv/zset.rs:299-301 | a new member given with two scores never does |
| ZsetAdd.WriteScores | src/tikv/zset.rs:134-242 | the loop writes exactly the accepted scorings under NX, XX or neither, and counts additions and changes |
| ZsetAdd.LookUp | src/tikv/zset.rs:121-133 | the batch get finds the old score of every given member that exists |
| ZsetAdd.ZaddMeans | src/tikv/zset.rs:134-242 | for every member: with neither option it gets its last given score, with XX only if it was stored, with NX only if it was not; all other scores stay |
| ZsetAdd.RescoredMeans | src/tikv/zset.rs:134-242 | the same spelled out for a given member and each option |
| ZsetAdd.RescoredOthers | src/tikv/zset.rs:134-242 | and for a member that is not given |
| ZsetAdd.ZaddReply | src/tikv/zset.rs:134-267 | the reply in terms of what is given: the places where a new member is accepted, or with CH those where an accepted score differs from the stored one |
| ZsetAdd.Zadd | src/tikv/zset.rs:74-324 | ZADD with NX, XX and CH: every score as `ZaddMeans` says, the reply as `ZaddReply` says, the old meta key or a new one with the next version and the ttl found, and, exactly when the scorings fit, an intact sorted set; XX on a missing set changes nothing; both errors occur exactly when they should |
| ZsetAdd.Zincrby | src/tikv/zset.rs:896-1023 | ZINCRBY moves one member to its new score in both indexes, counts a new one, and always leaves the sorted set whole; both errors occur exactly when they should |
| ZsetRank.RankingUnique | src/tikv/zset.rs:520-575 | there is one ranking of a sorted set: by numeric score, then by member bytes |
| ZsetRank.ScanRanking | src/tikv/encoding/encode.rs:503-526 | scanning the score keys lists the ranking, with as many pairs as members |
| ZsetRank.IntervalIs | src/tikv/encoding/encode.rs:528-569 | a score lies in an interval if its value lies between the values of the bounds, each of them counting if it is included |
| ZsetRank.IntervalCodes | src/tikv/encoding/encode.rs:528-569 | a stored score lies in an interval, each bound included or not, if and only if its code lies between the two bound codes |
| ZsetRank.ScanInterval | src/tikv/encoding/encode.rs:528-569 | the bounded scan returns the part of the ranking inside the interval, in order |
| ZsetRank.ReplyOf | src/tikv/zset.rs:543-573 | the loop over the scan returns the positions asked for, front to back or reversed, with or without scores |
| ZsetRank.FlatIs | src/tikv/zset.rs:555-573 | a reply lists the members, or each member followed by its own score |
| ZsetRank.Zrange | src/tikv/zset.rs:483-583 | ZRANGE and ZREVRANGE return the documented index range of the ranking or of its reverse, for all indexes, and change nothing but an expired set |
| ZsetRank.ZrangeByScore | src/tikv/zset.rs:586-685 | ZRANGEBYSCORE and its reverse, which is given the maximum first, return exactly the members in the interval in ranking order, for all four kinds of bounds |
| ZsetRank.Zcount | src/tikv/zset.rs:416-481 | ZCOUNT is the length of that part; an expired set is answered with an empty array |
| ZsetRank.Zrank | src/tikv/zset.rs:832-894 | ZRANK is the position of the member in the ranking |
| ZsetRemove.PairsRemoved | src/tikv/zset.rs:1072-1086 | deleting both keys of held pairs removes exactly their members and keeps the indexes equal |
| ZsetRemove.RemovePairs | src/tikv/zset.rs:1072-1116 | and the size is exact again, whatever counter is used |
| ZsetRemove.Zpop | src/tikv/zset.rs:691-830 | ZPOPMIN and ZPOPMAX remove and return the first or last pairs of the ranking and keep the ttl of the rest |
| ZsetRemove.ZremrangeByRank | src/tikv/zset.rs:1136-1250 | removes exactly the documented index range of the ranking, answers its length and keeps the ttl of the rest |
| ZsetRemove.ZremrangeByScore | src/tikv/zset.rs:1252-1362 | removes exactly the members with scores from min to max, answers their number and keeps the ttl of the rest |
| ZsetRemove.Zrem | src/tikv/zset.rs:1025-1130 | removes the named members that exist, answers their number, counting duplicates once, and keeps the ttl of the rest |
| Keyspace.DelKey | src/tikv/string.rs:797-831 | DEL of one key, dispatched on its type, removes it, answers whether it was there and keeps the invariants of every type |
| Keyspace.DelKeys | src/tikv/string.rs:766-841 | DEL removes all given keys, of any types, and nothing else; it answers how many of the given names were stored before, as often as they are given |
| Keyspace.DelMeetsRedisIff | src/tikv/string.rs:779-832 | which is the number of existing keys among them if and only if no stored key is given twice and none of them has expired |
| Keyspace.DelExample | src/tikv/string.rs:779-832 | an expired key and a repeated key that are counted too often |
| Keyspace.KeyspaceExact | src/tikv/encoding/encode.rs:179-185 | the range to the key-space end selects exactly the user-space keys from a key on, none of the gc keys |
| Keyspace.UserKeysAre | src/tikv/string.rs:883-899 | the user keys behind a cursor: sorted, and exactly those stored with a larger name |
| Keyspace.Round | src/tikv/string.rs:869-924 | one batch of at most 256 keys advances the walk over any mix of key families, deletes every expired key it passes and nothing else, and an empty batch means the end |
| Keyspace.ScanKeyspace | src/tikv/string.rs:843-933 | one SCAN call returns the matching ones of the next `count` user keys and the cursor, and deletes exactly the expired keys among them |
| Keyspace.RestOfKeys | src/tikv/string.rs:911-918 | continuing from the last key of a page gives the rest of the keys, and a cursor is never empty by accident |
| Keyspace.WalkReturnsAll | src/tikv/string.rs:843-933 | over an unchanged store, following the cursors with any positive counts to the empty one returns every matching user key exactly once and in order |
| Keyspace.WalkEnds | src/tikv/string.rs:843-933 | every walk ends, at the latest one call after the last key |
| Keyspace.WalkMeetsRedisIff | src/tikv/string.rs:843-933 | a complete walk lists exactly the matching keys that exist if and only if, of the stored keys that match, just the empty one has expired |
| Resp.ParsedIsChecked | src/frame.rs:68-170 | whatever the parser accepts the check accepts with the same length |
| Utf8.Utf8Iff | src/frame.rs:110-127 | the byte sequences the parser accepts as text are exactly the encodings of sequences of Unicode characters |
| Resp.AtoiIs | src/frame.rs:247-253 | a line as a number: the digits at its front, after a sign or none, whatever follows; nothing if there is neither sign nor digit, or if it does not fit 64 bits |
| Resp.WireFormat | src/connection.rs:237-325 | a printed frame byte for byte, with its literal type byte and line ends |
| Resp.DecimalFormat | src/connection.rs:327-341 | numbers are printed in decimal digits, with a minus sign if negative |
| Resp.RoundTrip | src/frame.rs:108-170 | parsing a printed frame, with anything behind it, gives the frame back (both error kinds read as one) and stops at its end |
| Resp.PrefixIncomplete | src/frame.rs:68-105 | every proper prefix of a printed frame is incomplete: neither accepted nor refused |
| Cursor.Cursor.ReadLine | src/frame.rs:256-273 | the scan for the line end returns the first line and moves behind it |
| Cursor.Cursor.ReadDecimal | src/frame.rs:247-253 | reads a line as a decimal, or refuses it |
| Cursor.Cursor.CheckFrame | src/frame.rs:68-105 | the recursive check moves the cursor behind one frame exactly when `Check` accepts it |
| Cursor.Cursor.ParseFrame | src/frame.rs:108-170 | the recursive parser returns what `Parse` returns and moves as far |
| Connection.ReceiveFrame | src/connection.rs:131-165 | however a printed frame is cut into chunks, it is received whole and what follows stays |
| Connection.ReceiveEnd | src/connection.rs:131-165 | a stream that ends inside a frame is a reset, one that ends before a frame a clean close |
| Connection.Conversation | src/connection.rs:131-165 | any sequence of printed frames, cut anywhere, arrives complete and in order, and then the stream closes cleanly |
| Connection.Connection.ParseFrame | src/connection.rs:168-227 | check first, then parse, and drop exactly the frame from the buffer |
| Connection.Connection.ReadFrame | src/connection.rs:131-165 | the read loop computes `Receive` of buffer and chunks |
| Connection.Connection.WriteValue | src/connection.rs:285-325 | a frame that is no array is printed |
| Connection.Connection.WriteFrame | src/connection.rs:237-282 | frames with arrays up to three levels deep are printed, whatever their text holds |
| Cluster.BuildRanges | src/cluster.rs:39-84 | the loop with its clamp gives every node an equal share and the last one also the rest, if that is small enough |
| Cluster.RangesDisjoint | src/cluster.rs:39-84 | no slot has two owners |
| Cluster.OwnedIff | src/cluster.rs:39-84 | the owned slots are exactly those below the number dealt out |
| Cluster.AllServedIff | src/cluster.rs:39-84 | all slots are served if and only if they divide evenly or a share exceeds the rest by at least two |
| Cluster.SmallClustersServed | src/cluster.rs:39-84 | which holds for every cluster of up to 128 nodes |
| Cluster.UnservedExample | src/cluster.rs:39-84 | with 10000 nodes the last slot has no owner |
| Cluster.FindTag | src/gc.rs:128-139 | the loop finds the closing brace Redis finds and the last opening brace before it |
| Cluster.HashedIs | src/gc.rs:128-147 | what Redis hashes, byte for byte: between the first opening brace and the first closing one behind it, the whole key if there are none or nothing between them |
| Cluster.TagMeetsRedisIff | src/gc.rs:128-147 | the hashed part is the one of the Redis cluster specification if and only if no second opening brace stands inside the tag |
| Cluster.TagExample | src/gc.rs:128-147 | a key with nested braces for which the parts differ |
| Cluster.OneCollector | src/gc.rs:126-151 | the slot is the checksum modulo 16384; no two nodes collect the same key, some node does exactly when its slot is dealt out, and always with up to 128 nodes |
| Multi.RunQueue | src/cmd/multi.rs:21-132 | EXEC commits all queued commands with one reply each, or none of them after the first error reply |
| Multi.ExecMeetsRedisIff | src/cmd/multi.rs:105-132 | which is what running all of them gives if and only if none answers with an error |
| Multi.Handler.Request | src/server.rs:738-842 | one request updates flag, queue, authorization and database, and is answered: AUTH, MULTI and DISCARD with OK exactly when they take effect, a queued command with QUEUED, EXEC with all replies or an abort, a script with its reply, and a command on its own with its reply and effect, or with neither if it errs; everything else is refused |
| Multi.BodyOnlyQueues | src/server.rs:835-841 | inside a transaction commands only queue up, in order, and only scripts change the database |
| Multi.HeardEffects | src/server.rs:764-842 | for every history of heard requests the database is what the reference makes of it: single commands, scripts, and one atomic group per MULTI closed by EXEC |
| Multi.OnlyHeard | src/server.rs:738-763 | requests before the first correct password change nothing |
| Multi.HistoryMeetsReference | src/server.rs:738-842 | the same for every history of a new connection |

## Left out

- Reads that only look up or list one collection (GET, HGET, HGETALL, LLEN, SCARD, SMEMBERS, ZSCORE and the like), EXPIRE, TTL, TYPE, EXISTS and the string commands: they would add easy members.
- SRANDMEMBER: random choice.
- Conflicts between commands of different clients, retry limits and backoff in `exec_in_txn`: a command is one atomic step, and a restarted HINCRBY is not disturbed again.
- A gc failure between the deletes of one transaction: transactions are atomic, so a failed one changes nothing.
- Async deletion switched off, where every collection uses version 0: it is taken as enabled throughout.
- Argument parsing of the single commands, Lua, publish and subscribe, TLS, metrics and configuration.
- Names that are not valid UTF-8: the code replaces bad bytes on the way into some keys, the model takes names as they are.
- NaN scores, and the text form of scores in replies, which appear as bit patterns.
- 64-bit overflow of counters, HINCRBY results, scores and lengths of 2^63 and more: integers are unbounded except where a wrap is modelled (PUSH, LINSERT, LINDEX, LRANGE, versions).
- LRANGE counts that do not fit 32 bits, and SPOP, ZPOP and scan limits that do not: the code panics there.
- List.Pop: several popped elements are answered in the order in which `batch_get` returns them, which is not part of the model.
- ListRange.WrappedAgreesOnlyIf: goes one way; whether elements of a deleted list happen to equal those asked for depends on their values alone.
- GcProgress.CollectableIff: says that a run exists, not that the scheduler takes it.
- Connection.Connection.WriteFrame: deeper arrays, where the code panics, are excluded.
- Resp.RoundTrip: simple strings and errors must not contain a line end, which the printer does not escape.
- Multi.RunQueue: commands are abstract; which of them EXEC supports is not part of the model.
- CRC16 and SHA-1 values, node ids and addresses.
