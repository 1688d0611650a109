# SimpleDB core: buffer pool, page locks, log recovery, schemas, tuples, histograms

A Dafny model of the core of a teaching database engine (SimpleDB, in Java).

- **Page locks.** The lock manager keeps one entry per page, with these parts:
  - a set of holders;
  - a read-only flag;
  - a FIFO queue of waiting requests.

  Requests are granted or queued, releases promote waiting requests, and an abort strips a transaction from every entry. `LockTable` states these transitions on values. `LockManagers` holds the classes `LockEntry` and `LockManager`, whose methods update entries in place and are proved to perform exactly those transitions.
- **Buffer pool.** `BufferPools.BufferPool` owns a bounded list of cached pages, most recently used first, and a lock manager. It models:
  - page fetch: lock, lookup, then eviction of the least recently used clean page;
  - marking pages dirty on insert and delete;
  - flushing a transaction's pages and commit/abort completion;
  - releasing and checking locks.

  `CacheList` states the list operations on values.
- **Recovery.** `LogFormat` fixes the write-ahead log layout: a header holding the last checkpoint's offset, then records that each end with their own start offset. From that layout it computes every record's byte offset. `Recovery` models `LogFileRecovery`:
  - the forward pass, which rebuilds the loser set and repeats history from the last checkpoint;
  - the ABORT records logged for the losers;
  - the backward pass, which follows the trailing start offsets to undo the losers' updates and log compensation records (CLRs).

  Disk writes go to a page store, a map from page id to image.
- **Schemas and tuples.** `Schema` models `TupleDesc` as a value: constructors, lookups, size, merge, equality and rendering. `Tuples.Tuple` is a tuple whose field slots are an array updated in place.
- **Histograms.** `Histograms.IntHistogram` is a fixed-width integer histogram with one counter per bucket.

## Model

| member | source | states |
|---|---|---|
| LockTable.AcquireFreePage | mysimpledb/src/java/simpledb/BufferPool.java:86-109 | A request on a page with no entry, or an entry nobody holds, is granted. The requester becomes the only holder; the entry is read-only exactly when READ_ONLY was asked; the queue and every other page are unchanged. |
| LockTable.Acquire | mysimpledb/src/java/simpledb/BufferPool.java:83-151 | acquireLock as written, without the spin-wait: only the requested page's entry may change or be added, and the request is granted exactly when the requester then holds the page. |
| LockTable.AcquireByHolder | mysimpledb/src/java/simpledb/BufferPool.java:97-100 | A request from a current holder is granted and changes nothing, whatever permission it asks for. |
| LockTable.AcquireQueues | mysimpledb/src/java/simpledb/BufferPool.java:132-149 | A request on an entry held by others is not granted. It is appended to the back of the queue unless an equal request already waits. Holders, mode and other pages are unchanged; the queue stays duplicate-free. |
| LockTable.AcquireInv | mysimpledb/src/java/simpledb/BufferPool.java:83-151 | acquireLock keeps each entry's invariant: no duplicate requests, at most one holder of a read-write entry, no waiters on an unheld entry. |
| LockTable.ReadPrefixSpec | mysimpledb/src/java/simpledb/BufferPool.java:175-185 | The run of requests granted with a read-only head is exactly the maximal prefix of READ_ONLY requests; what follows starts with READ_WRITE. |
| LockTable.ReleasePromotes | mysimpledb/src/java/simpledb/BufferPool.java:166-187 | When the last holder leaves and requests wait: a read-write head becomes the sole holder; a read-only head is granted with every consecutive READ_ONLY request behind it, and the rest of the queue is empty or starts with READ_WRITE. |
| LockTable.ReleaseKeepsOthers | mysimpledb/src/java/simpledb/BufferPool.java:159-167 | A release that leaves other holders only removes the releasing transaction. |
| LockTable.ReleaseInv | mysimpledb/src/java/simpledb/BufferPool.java:153-188 | releaseLock keeps the entry invariant. |
| LockTable.Release | mysimpledb/src/java/simpledb/BufferPool.java:159-187 | releaseLock on an entry: an entry with waiting requests is never left without a holder, and the queue never grows. |
| LockTable.ReleaseDropsTid | mysimpledb/src/java/simpledb/BufferPool.java:153-188 | After releasing a transaction that waits for nothing, it neither holds nor waits on the entry. |
| LockTable.WithoutTidSpec | mysimpledb/src/java/simpledb/BufferPool.java:205-211 | Removing a transaction's requests keeps exactly the other requests. No request of it remains; the queue stays duplicate-free. |
| LockTable.AbortEntrySpec | mysimpledb/src/java/simpledb/BufferPool.java:202-216 | One entry after abort: invariant kept; the transaction neither holds nor waits on it. |
| LockTable.AbortAll | mysimpledb/src/java/simpledb/BufferPool.java:198-219 | abort(tid) over the whole table: the same pages keep entries. |
| LockTable.AbortAllSpec | mysimpledb/src/java/simpledb/BufferPool.java:198-219 | After abort(tid): the same pages have entries, every entry keeps its invariant, and tid holds and waits on none. |
| LockTable.ReleasePagesInv | mysimpledb/src/java/simpledb/BufferPool.java:511-515 | Releasing a set of pages keeps every entry's invariant and the set of pages with entries. |
| LockTable.HolderWriteGrantedWhileShared | mysimpledb/src/java/simpledb/BufferPool.java:97-130 | As written: of two holders of a read-only entry, one asks READ_WRITE and is granted, while the entry stays read-only and shared. |
| LockTable.AcquireUpgrading | mysimpledb/src/java/simpledb/BufferPool.java:112-130 | acquireLock with its upgrade branches reachable: only the requested page's entry may change or be added, and a granted request leaves the requester holding the page. |
| LockTable.UpgradingWriteGrantIsExclusive | mysimpledb/src/java/simpledb/BufferPool.java:122-130 | With the upgrade branch reachable (AcquireUpgrading): invariants are kept, and a granted READ_WRITE request leaves the requester the sole holder of a read-write entry. |
| LockManagers.LockEntry.constructor | mysimpledb/src/java/simpledb/BufferPool.java:42-44 | A new entry is held by its creator alone, read-only exactly for READ_ONLY. |
| LockManagers.LockEntry.Set | mysimpledb/src/java/simpledb/BufferPool.java:46-51 | Grants the request only when nobody holds the entry; otherwise nothing changes. |
| LockManagers.LockEntry.Add | mysimpledb/src/java/simpledb/BufferPool.java:57-63 | Adds the holder, and reports it, exactly when the entry is read-only and READ_ONLY was asked. |
| LockManagers.LockEntry.Request | mysimpledb/src/java/simpledb/BufferPool.java:95-138 | The in-place request equals the AcquireEntry transition on the entry's value. |
| LockManagers.LockEntry.Release | mysimpledb/src/java/simpledb/BufferPool.java:159-187 | The in-place release equals the Release transition. |
| LockManagers.LockEntry.PromoteWaiting | mysimpledb/src/java/simpledb/BufferPool.java:169-185 | Popping and granting from the queue equals the Promote transition. |
| LockManagers.LockEntry.DropRequestsOf | mysimpledb/src/java/simpledb/BufferPool.java:205-211 | The queue afterwards is the old queue without the transaction's requests, in order. |
| LockManagers.CollectRequestsOf | mysimpledb/src/java/simpledb/BufferPool.java:205-210 | The collected set is exactly the queued requests of the transaction. |
| LockManagers.RemoveAllIsWithoutTid | mysimpledb/src/java/simpledb/BufferPool.java:211-211 | removeAll of the collected requests equals dropping the transaction's requests, keeping order. |
| LockManagers.LockManager.constructor | mysimpledb/src/java/simpledb/BufferPool.java:79-80 | The lock table starts empty. |
| LockManagers.LockManager.AcquireLock | mysimpledb/src/java/simpledb/BufferPool.java:83-151 | The grant flag and the new table are those of Acquire. Existing entry objects are kept; at most the page's entry is added. |
| LockManagers.LockManager.PutNewEntry | mysimpledb/src/java/simpledb/BufferPool.java:89-93 | A page without an entry gets a new one held by the requester; other entries are unchanged. |
| LockManagers.LockManager.ReleaseLock | mysimpledb/src/java/simpledb/BufferPool.java:153-188 | Fails, changing nothing, when the page has no entry. Otherwise that entry becomes Release(entry, tid) and no other entry changes. |
| LockManagers.LockManager.CheckLock | mysimpledb/src/java/simpledb/BufferPool.java:190-195 | True exactly when the page has an entry that the transaction holds. |
| LockManagers.LockManager.AbortAt | mysimpledb/src/java/simpledb/BufferPool.java:202-216 | One loop round changes only that page's entry, to AbortEntry of it. |
| LockManagers.LockManager.Abort | mysimpledb/src/java/simpledb/BufferPool.java:198-219 | The table becomes AbortAll of the old one: the transaction holds and waits on no page, and invariants are kept. |
| CacheList.Position | mysimpledb/src/java/simpledb/BufferPool.java:319-327 | The first position holding the page id, or none when no page has it. |
| CacheList.Victim | mysimpledb/src/java/simpledb/BufferPool.java:522-535 | The clean page nearest the back, with only dirty pages behind it; none exactly when every page is dirty. |
| CacheList.PositionAt | mysimpledb/src/java/simpledb/BufferPool.java:320-321 | A front-to-back scan that first meets the id at position i agrees with Position. |
| CacheList.FlushStep | mysimpledb/src/java/simpledb/BufferPool.java:322-323 | Flushing a not-yet-flushed dirty page moves it from the unflushed part to the front. The flushed prefix gains it first, and the unflushed part keeps its order without it. |
| CacheList.FlushedWritten | mysimpledb/src/java/simpledb/BufferPool.java:511-515 | Read against the write log, the flushed prefix of the cache lists the written pages in reverse order of writing. |
| CacheList.RemoveAtUnique | mysimpledb/src/java/simpledb/BufferPool.java:322-322 | With unique ids, removing the page at a position equals dropping its id. |
| CacheList.MoveToFrontFacts | mysimpledb/src/java/simpledb/BufferPool.java:322-323 | Moving a page to the front keeps the same pages (as a multiset), puts that page first and keeps ids unique. |
| CacheList.RemoveAtFacts | mysimpledb/src/java/simpledb/BufferPool.java:530-530 | Removing one page shortens the list by one, removes exactly that page and keeps ids unique. |
| CacheList.EvictionKeepsDirty | mysimpledb/src/java/simpledb/BufferPool.java:522-536 | Eviction fails exactly when all pages are dirty. Otherwise it removes one clean page, and every dirty page stays. |
| CacheList.FetchInto | mysimpledb/src/java/simpledb/BufferPool.java:305-315 | getPage's cache step: on success the requested page is first, and the list grows by at most that one page. |
| CacheList.FetchIntoSpec | mysimpledb/src/java/simpledb/BufferPool.java:305-315 | Fails exactly on a miss with a full list of dirty pages. Otherwise the page is first, ids stay unique, a list within maxSize stays within it, no dirty page is lost and only the fetched page can be new. |
| CacheList.RemoveIdFacts | mysimpledb/src/java/simpledb/BufferPool.java:430-430 | cache.remove drops the page with that id (one page when present) and keeps every other page. |
| CacheList.MarkAllDirty | mysimpledb/src/java/simpledb/BufferPool.java:428-434 | insertTuple's loop over the returned pages: the page marked last ends at the front, dirty by the transaction. |
| CacheList.MarkAllDirtySpec | mysimpledb/src/java/simpledb/BufferPool.java:428-434 | After marking, every returned page is in the list dirty by the transaction and the last one is at the front; ids stay unique, other pages stay, and the list grows by at most the number of returned pages. |
| CacheList.WithoutIdsFacts | mysimpledb/src/java/simpledb/BufferPool.java:395-396 | Removing a set of ids keeps exactly the other pages and keeps ids unique. |
| CacheList.AbortStep | mysimpledb/src/java/simpledb/BufferPool.java:395-399 | One abort step (remove the page, append its re-read) keeps the split into "pages not yet swept, then re-read pages". |
| CacheList.WithoutDirtyKeepsOthers | mysimpledb/src/java/simpledb/BufferPool.java:376-396 | Dropping the ids a transaction dirtied removes exactly its dirty pages. |
| BufferPools.CollectDirty | mysimpledb/src/java/simpledb/BufferPool.java:504-509 | The collected set is exactly the ids of the pages dirtied by the transaction. |
| BufferPools.BufferPool.constructor | mysimpledb/src/java/simpledb/BufferPool.java:262-265 | An empty cache of the given capacity with an empty lock table. |
| BufferPools.BufferPool.Find | mysimpledb/src/java/simpledb/BufferPool.java:319-328 | A hit exactly when the id is cached: the page moves to the front. A miss leaves the list unchanged. |
| BufferPools.BufferPool.EvictPage | mysimpledb/src/java/simpledb/BufferPool.java:522-536 | Succeeds exactly when a clean page exists, and removes the Victim page. Otherwise the list is unchanged. |
| BufferPools.BufferPool.GetPage | mysimpledb/src/java/simpledb/BufferPool.java:291-317 | The lock table becomes Acquire's. Ends Aborted exactly when the request is not granted, then AllDirty exactly when FetchInto fails; a fetched page is cached per FetchInto. Failure leaves the cache unchanged. |
| BufferPools.BufferPool.Admit | mysimpledb/src/java/simpledb/BufferPool.java:305-315 | The cache becomes FetchInto of the old one, or stays as it was when that fails. |
| BufferPools.BufferPool.InsertTuple | mysimpledb/src/java/simpledb/BufferPool.java:422-436 | The cache becomes MarkAllDirty over the returned pages, and the pool stays valid. |
| BufferPools.BufferPool.MarkDirtyValid | mysimpledb/src/java/simpledb/BufferPool.java:430-432 | Marking a locked page dirty keeps ids unique and every dirty page locked. |
| BufferPools.BufferPool.MarkPageDirty | mysimpledb/src/java/simpledb/BufferPool.java:455-457 | The cache becomes MarkDirty of the old one; the lock table is unchanged. |
| BufferPools.BufferPool.DeleteTuple | mysimpledb/src/java/simpledb/BufferPool.java:450-458 | As GetPage with READ_WRITE. When fetched, the page is first and dirty by the transaction, and the size is that after the fetch. |
| BufferPools.BufferPool.FlushPage | mysimpledb/src/java/simpledb/BufferPool.java:495-498 | Exactly one write of the page is recorded. A cached page moves to the front of the list (find), as MoveToFront at its position; an uncached page leaves the list unchanged. The cache holds the same pages either way. |
| BufferPools.BufferPool.FlushPages | mysimpledb/src/java/simpledb/BufferPool.java:503-516 | Each page dirtied by the transaction is written exactly once, after the earlier writes, and its lock released (ReleasePages). Because each flush goes through find, those pages end at the front of the cache, the last written first (FlushedFront). The other pages follow in their old order, and the cache holds the same pages. |
| BufferPools.BufferPool.FlushAndRelease | mysimpledb/src/java/simpledb/BufferPool.java:513-514 | One loop round: one more page written, moved to the front by find, and its lock released. The flushed prefix grows by that page and the unflushed rest keeps its order. |
| BufferPools.BufferPool.TransactionComplete | mysimpledb/src/java/simpledb/BufferPool.java:366-406 | The lock table becomes AbortAll after releasing the dirtied pages. On commit those pages are written once each after the earlier writes. They end at the front of the cache, the last written first, and the other pages keep their old order behind them. On abort nothing is written, and the clean pages keep their order while clean re-reads of the dirtied pages make up the back of the list. |
| BufferPools.BufferPool.DiscardDirtyPages | mysimpledb/src/java/simpledb/BufferPool.java:375-402 | The abort sweep: other pages keep their order, clean re-reads of exactly the dirtied ids form the back of the list, and their locks are released. |
| BufferPools.BufferPool.RereadAndRelease | mysimpledb/src/java/simpledb/BufferPool.java:395-401 | One sweep round: the page moves, clean, to the back and its lock is released. |
| BufferPools.BufferPool.Reread | mysimpledb/src/java/simpledb/BufferPool.java:396-399 | One sweep round's cache half: the page is removed and its clean re-read appended. |
| BufferPools.BufferPool.DiscardPage | mysimpledb/src/java/simpledb/BufferPool.java:481-488 | Nothing changes. |
| BufferPools.BufferPool.HoldsLock | mysimpledb/src/java/simpledb/BufferPool.java:355-357 | True exactly when the transaction is among the page's holders. |
| BufferPools.BufferPool.ReleasePage | mysimpledb/src/java/simpledb/BufferPool.java:339-341 | As LockManager.ReleaseLock. |
| LogFormat.StartNext | mysimpledb/src/java/simpledb/LogFileRecovery.java:41-76 | Each record starts where the previous ends: type int, tid long, payload, trailing long. |
| LogFormat.StartAtEnd | mysimpledb/src/java/simpledb/LogFileRecovery.java:41-41 | The end of the last record is the file length. |
| LogFormat.StartMonotone | mysimpledb/src/java/simpledb/LogFileRecovery.java:41-76 | Record offsets strictly increase, by at least the smallest record size. |
| LogFormat.StartOfAppend | mysimpledb/src/java/simpledb/LogFileRecovery.java:157-157 | Appending records moves no existing record. |
| LogFormat.StartBelowLength | mysimpledb/src/java/simpledb/LogFileRecovery.java:196-196 | The forward loop's `pointer < length` test holds exactly while records remain. |
| LogFormat.TrailerOwner | mysimpledb/src/java/simpledb/LogFileRecovery.java:106-110 | The record whose trailing long is at the offset, or none when no record's trailer is there. |
| LogFormat.RecordStarting | mysimpledb/src/java/simpledb/LogFileRecovery.java:110-113 | The record starting at the offset, or none. |
| LogFormat.TrailerOwnerAt | mysimpledb/src/java/simpledb/LogFileRecovery.java:166-166 | The long before record k is record k-1's trailer. Before record 0 lies the header, no record's trailer. |
| LogFormat.RecordStartingAt | mysimpledb/src/java/simpledb/LogFileRecovery.java:110-113 | Seeking to a record's start offset finds that record. |
| Recovery.ScanEnd | mysimpledb/src/java/simpledb/LogFileRecovery.java:212-214 | The index of the first checkpoint record at or after i, or the log length. |
| Recovery.Forward | mysimpledb/src/java/simpledb/LogFileRecovery.java:196-247 | The forward pass from a record: the discarded pages of the seed are kept as a prefix, and a stopped pass stays stopped. |
| Recovery.ForwardLosers | mysimpledb/src/java/simpledb/LogFileRecovery.java:196-229 | After the forward pass, a transaction is a loser exactly when its last BEGIN/COMMIT/ABORT before the stop is a BEGIN, or it has none and was in the seed set. |
| Recovery.ForwardStore | mysimpledb/src/java/simpledb/LogFileRecovery.java:216-241 | After the forward pass each page holds the after-image of its last UPDATE or CLR before the stop, or its old image when there is none. |
| Recovery.RedoIdempotent | mysimpledb/src/java/simpledb/LogFileRecovery.java:216-241 | Repeating history twice leaves the same page store as once. |
| Recovery.ForwardStops | mysimpledb/src/java/simpledb/LogFileRecovery.java:212-214 | The pass stops early exactly when a checkpoint record follows its start. |
| Recovery.UndoFrom | mysimpledb/src/java/simpledb/LogFileRecovery.java:104-168 | The backward walk from record k: it only removes transactions from the set, and it completes exactly when the set is empty. |
| Recovery.UndoOutcome | mysimpledb/src/java/simpledb/LogFileRecovery.java:104-167 | Completed exactly when every transaction was undone. CommittedLoser names a set transaction that has a COMMIT record. Each CLR pairs with one discarded page; earlier CLRs and discards are kept. |
| Recovery.UndoReachesBegin | mysimpledb/src/java/simpledb/LogFileRecovery.java:130-134 | When every set transaction has a BEGIN record, the walk never runs out of records. |
| Recovery.UndoClrsFromSet | mysimpledb/src/java/simpledb/LogFileRecovery.java:149-159 | Every new CLR belongs to a set transaction and carries the before-image of one of its UPDATE records. |
| Recovery.UndoCovers | mysimpledb/src/java/simpledb/LogFileRecovery.java:149-159 | On completion, every UPDATE of a set transaction after its last BEGIN has a CLR with its before-image. |
| Recovery.CommitBlocksCompletion | mysimpledb/src/java/simpledb/LogFileRecovery.java:146-147 | A committed transaction is never undone: when a set transaction has a COMMIT with no later BEGIN of it, the walk does not complete, and every CLR it appends compensates an UPDATE newer than that COMMIT. |
| Recovery.UndoStore | mysimpledb/src/java/simpledb/LogFileRecovery.java:149-158 | After the walk each page holds the image of the last CLR appended for it, or its old image when none was. The earlier CLRs are kept as a prefix. |
| Recovery.UndoNewestFirst | mysimpledb/src/java/simpledb/LogFileRecovery.java:104-168 | The appended CLRs compensate UPDATE records at strictly decreasing log positions. With UndoStore: each page ends with the before-image of the oldest UPDATE of it that the walk undoes. |
| Recovery.ClrsKept | mysimpledb/src/java/simpledb/LogFileRecovery.java:157-157 | CLRs logged earlier in the walk stay in the result. |
| Recovery.UndoSkipsAborts | mysimpledb/src/java/simpledb/LogFileRecovery.java:126-128 | ABORT records of set transactions appended to the log do not change the backward pass. |
| Recovery.UndoPrefix | mysimpledb/src/java/simpledb/LogFileRecovery.java:105-106 | Records appended after the walk's starting point do not change a walk that starts before them. |
| Recovery.Seed | mysimpledb/src/java/simpledb/LogFileRecovery.java:182-194 | With no checkpoint: no losers, start at record 0. Otherwise the header is the start of a checkpoint record, the losers are its active ids, and the pass starts right after it. |
| Recovery.LogRecovery.constructor | mysimpledb/src/java/simpledb/LogFileRecovery.java:26-28 | The helper views the given log, header and store. |
| Recovery.LogRecovery.RollbackSets | mysimpledb/src/java/simpledb/LogFileRecovery.java:104-169 | The outcome, store, discards and appended CLRs are those of UndoFrom from the end of the log. So the store holds, for each page, the before-image of the oldest UPDATE of it that is undone (UndoStore, UndoNewestFirst), and no committed transaction is undone (CommitBlocksCompletion). |
| Recovery.LogRecovery.Rollback | mysimpledb/src/java/simpledb/LogFileRecovery.java:97-102 | RollbackSets on the set holding the one transaction. |
| Recovery.LogRecovery.ReadHeader | mysimpledb/src/java/simpledb/LogFileRecovery.java:182-194 | Succeeds exactly when Seed does, giving its losers and the byte offset of its first record. |
| Recovery.LogRecovery.RedoPass | mysimpledb/src/java/simpledb/LogFileRecovery.java:196-247 | The losers, store, discards and stop flag are those of Forward from the seed record. |
| Recovery.LogRecovery.LogAborts | mysimpledb/src/java/simpledb/LogFileRecovery.java:250-252 | The log keeps its prefix and gains exactly one ABORT record per loser. |
| Recovery.LogRecovery.Recover | mysimpledb/src/java/simpledb/LogFileRecovery.java:180-255 | BadHeader changes nothing. A checkpoint met forward ends after redo. Otherwise the log gains one ABORT per loser, then the CLRs of one backward pass over all losers, and the outcome and store are that pass's. |
| Schema.Make | mysimpledb/src/java/simpledb/TupleDesc.java:54-64 | Fails exactly when the names array is shorter than the types array. Otherwise there is one field per type, with that type and the name at the same index. |
| Schema.MakeAnonymous | mysimpledb/src/java/simpledb/TupleDesc.java:73-85 | One field per type, with that type and no name; numFields is the number of types. |
| Schema.GetFieldName | mysimpledb/src/java/simpledb/TupleDesc.java:94-99 | Found exactly for a field index, giving that field's name. |
| Schema.GetFieldType | mysimpledb/src/java/simpledb/TupleDesc.java:109-114 | Found exactly for a field index, giving that field's type. |
| Schema.FieldNameToIndex | mysimpledb/src/java/simpledb/TupleDesc.java:123-132 | The smallest index whose field has the name. NoSuchElement exactly when no field has it; unnamed fields never match. |
| Schema.GetSize | mysimpledb/src/java/simpledb/TupleDesc.java:138-144 | The tuple size is at least the length of every field's type. |
| Schema.SizeOfAppend | mysimpledb/src/java/simpledb/TupleDesc.java:138-144 | The size of concatenated fields is the sum of the sizes. |
| Schema.Merge | mysimpledb/src/java/simpledb/TupleDesc.java:154-169 | td1's fields, then td2's, with types and names. |
| Schema.MergeSize | mysimpledb/src/java/simpledb/TupleDesc.java:138-169 | A merged schema's size is the sum of the two sizes. |
| Schema.Equals | mysimpledb/src/java/simpledb/TupleDesc.java:179-199 | Same field count and the same type at every index. EqualsSpec proves this is equality of the type sequences. |
| Schema.EqualsSpec | mysimpledb/src/java/simpledb/TupleDesc.java:179-199 | Two schemas are equal exactly when their type sequences are equal. |
| Schema.EqualsReflexive | mysimpledb/src/java/simpledb/TupleDesc.java:179-199 | Every schema equals itself. |
| Schema.EqualsSymmetric | mysimpledb/src/java/simpledb/TupleDesc.java:179-199 | Equality does not depend on argument order. |
| Schema.EqualsTransitive | mysimpledb/src/java/simpledb/TupleDesc.java:179-199 | Equality is transitive. |
| Schema.EqualsIgnoresNames | mysimpledb/src/java/simpledb/TupleDesc.java:189-197 | Renaming fields never changes equality. |
| Schema.ToString | mysimpledb/src/java/simpledb/TupleDesc.java:214-225 | Each field's `name(type)` text, separated by ", ". ToStringJoined states the result as a join. |
| Schema.ToStringJoined | mysimpledb/src/java/simpledb/TupleDesc.java:214-225 | The text is each field as `name(type)`, with "null" for no name, joined by ", " with no trailing separator. |
| Tuples.SetFieldCases | mysimpledb/src/java/simpledb/Tuple.java:62-67 | Stored exactly for a field index and a value of that field's type; the value is then in that slot and no other slot changes. NoSuchField exactly outside the index range. A failure changes nothing. |
| Tuples.SetFieldWellTyped | mysimpledb/src/java/simpledb/Tuple.java:62-67 | setField keeps every set slot holding a value of its field's type. |
| Tuples.Tuple.constructor | mysimpledb/src/java/simpledb/Tuple.java:26-29 | One slot per field of the schema, all unset, no record id. |
| Tuples.Tuple.SetRecordId | mysimpledb/src/java/simpledb/Tuple.java:43-54 | getRecordId returns what setRecordId stored. |
| Tuples.Tuple.GetRecordId | mysimpledb/src/java/simpledb/Tuple.java:43-45 | The stored record id, none until one is set. SetRecordId's ensures ties the two together. |
| Tuples.Tuple.SetField | mysimpledb/src/java/simpledb/Tuple.java:62-67 | The outcome and new slots are SetFieldSpec's, and slots stay well typed. |
| Tuples.Tuple.GetField | mysimpledb/src/java/simpledb/Tuple.java:74-76 | A set value in slot i has field i's type. |
| Tuples.Tuple.ToString | mysimpledb/src/java/simpledb/Tuple.java:86-94 | The slots' texts ("null" for unset) joined by tabs, with no trailing tab. |
| Histograms.BucketCount | mysimpledb/src/java/simpledb/IntHistogram.java:38-42 | The bucket count is the requested number or the range size, whichever is smaller. |
| Histograms.BucketSize | mysimpledb/src/java/simpledb/IntHistogram.java:45-51 | The range size divided by the bucket count, plus the remainder for the last bucket. BucketSizePositive, WidthsCoverRange and BucketsTile state its properties. |
| Histograms.GetBucketAsWritten | mysimpledb/src/java/simpledb/IntHistogram.java:69-76 | getBucket as written: never negative for a value at or above min. It can reach the bucket count (GetBucketOverflows). |
| Histograms.BucketSizePositive | mysimpledb/src/java/simpledb/IntHistogram.java:45-51 | Every bucket is at least one value wide. |
| Histograms.WidthsCoverRange | mysimpledb/src/java/simpledb/IntHistogram.java:45-51 | The bucket widths add up to the size of [min, max]. |
| Histograms.BucketsTile | mysimpledb/src/java/simpledb/IntHistogram.java:45-51 | Bucket 0 starts at min, each bucket starts right after the previous one ends, and the last ends at max. |
| Histograms.BucketOf | mysimpledb/src/java/simpledb/IntHistogram.java:69-76 | Corrected getBucket: every value in [min, max] gets a bucket index within the array. |
| Histograms.BucketOfSpec | mysimpledb/src/java/simpledb/IntHistogram.java:69-76 | A value lies in bucket i exactly when BucketOf gives i. |
| Histograms.AsWrittenAgreesWhenEven | mysimpledb/src/java/simpledb/IntHistogram.java:69-76 | When the bucket count divides the range size, getBucket as written gives the intended bucket. |
| Histograms.AsWrittenInBounds | mysimpledb/src/java/simpledb/IntHistogram.java:64-76 | For a value in [min, max], the computed bucket is below the bucket count exactly when it equals the intended bucket: the overflow is the only way the two differ. |
| Histograms.GetBucketOverflows | mysimpledb/src/java/simpledb/IntHistogram.java:69-76 | As written, with 3 buckets over [0, 10], value 9 gets index 3, past the end of the array. The intended bucket is 2. |
| Histograms.TotalIncrement | mysimpledb/src/java/simpledb/IntHistogram.java:64-64 | Incrementing one counter adds one to the total count. |
| Histograms.IntHistogram.constructor | mysimpledb/src/java/simpledb/IntHistogram.java:32-43 | BucketCount counters, all zero. |
| Histograms.IntHistogram.AddValue | mysimpledb/src/java/simpledb/IntHistogram.java:58-66 | addValue as written. IllegalValue exactly outside [min, max]. IndexOutOfBounds exactly when getBucket as written reaches the bucket count. Nothing changes in either case. Otherwise the computed bucket is the value's own bucket, exactly its counter goes up by one, and so does the total. |
| Histograms.IntHistogram.AddValueClamped | mysimpledb/src/java/simpledb/IntHistogram.java:58-66 | addValue with the corrected bucket: refused, with nothing changed, exactly outside [min, max]. Otherwise exactly the counter of the value's bucket goes up by one, and so does the total. |

## Left out

- The spin-wait and timeout in acquireLock are not modelled, nor Java monitors (`synchronized`) or threads. Its loop compares a Lock with the TransactionIds in the holder set, so it never succeeds. A queued request therefore always ends in TransactionAbortedException; the model returns `granted == false` with the request left queued.
- A null permission is not modelled: Permissions has exactly its two values. In the source, acquireLock with a null permission returns for a current holder and otherwise throws NullPointerException at its first `perm.equals` call (BufferPool.java:49, 107 or 123).
- LockManagers.LockManager.AcquireLock follows the code as written. The corrected upgrade (LockTable.AcquireUpgrading) is stated on the lock table values only.
- Disk and catalog calls are parameters or traces:
  - `readPage` yields a clean page;
  - `writePage` calls are recorded in `written`;
  - the pages HeapFile.insertTuple returns are a parameter of InsertTuple.

  HeapFile, Insert, Delete and the page classes are not part of this model.
- Page contents and object identity are not modelled. A cached page is its id and the transaction that dirtied it. The abort path's re-read is a fresh clean page, not the same object.
- BufferPools.BufferPool.InsertTuple: the list may grow beyond maxSize, as in the source, which never evicts there.
- BufferPools.BufferPool.InsertTuple assumes HeapFile.insertTuple returns only pages that the transaction holds a lock on. The method requires this, and the pool's invariant that every dirty page has a lock entry rests on it. The source checks no lock there. If such a page came back unlocked, a later transactionComplete would call releasePage on a page with no entry, which throws NullPointerException (BufferPool.java:157).
- The debugging output is not modelled: print statements, `toString` of Lock/LockEntry/LockManager, and the log printer's text. The record layout that the printer reads is modelled in LogFormat.
- flushAllPages, getPageSize/setPageSize and hashCode (which throws) are not modelled; nor is TupleDesc.iterator.
- TableStats, IntHistogram.estimateSelectivity and IntHistogram.toString are not modelled. They use floating point and are consumers of the histogram.
- Type.java and Field.java are not part of this model. A type is its printed name and byte length; a field is its type and printed text. Equality of types is structural.
- LogFile.java is not part of this model. logAbort appends one ABORT record and logCLR one CLR record. A page image's serialised bytes stand for its readPageData form; only their length matters to the offsets.
- Recovery.LogRecovery.Recover assumes the file pointer is at offset 0 when it starts, as after the printer, which restores it.
- Recovery.LogRecovery.RollbackSets returns MissingBegin when its backward walk reaches the header with transactions left. The source would seek to a negative offset there, or cycle when the header holds a checkpoint offset.
- Recovery.LogRecovery.ReadHeader returns BadHeader when the header is neither -1 nor the start of a checkpoint record. The source would read whatever bytes lie there.
- Unknown record type codes ("Improper read") are not modelled: every record is one of the six kinds.
- Schema.FieldNameToIndex takes a non-null name. A null argument matches no field in the source and ends in NoSuchElementException.
- Histograms.IntHistogram.constructor requires at least one bucket and min <= max. Otherwise the source allocates a negative-size or empty array and later fails on division by zero.
- Histograms.IntHistogram.AddValue does not model 32-bit overflow of the counters, of `max - min + 1` or of `v - min`, because the model's integers are unbounded. getBucket's double division is modelled as integer division truncating toward zero; for 32-bit operands the two agree.

## Findings

| source | as written | input that shows it | evidently intended | confidence | as-written member | corrected member |
|---|---|---|---|---|---|---|
| mysimpledb/src/java/simpledb/BufferPool.java:97-130 | acquireLock returns for any request from a current holder before reaching its upgrade branch, so that branch and the one at line 112 never run | page held read-only by transactions 1 and 2; transaction 1 asks READ_WRITE | a read-only holder asking READ_WRITE is upgraded when it is the only holder, and queued at the front otherwise | high (not executed) | LockTable.Acquire, LockTable.HolderWriteGrantedWhileShared | LockTable.AcquireUpgrading, LockTable.UpgradingWriteGrantIsExclusive |
| mysimpledb/src/java/simpledb/IntHistogram.java:69-76 | getBucket divides `v - min` by the width of bucket 0. The last bucket is wider by the remainder, so values in its upper part get an index past the array | buckets = 3, min = 0, max = 10, addValue(9): width 3, index 3 on a 3-element array | values past the last regular boundary go to the last bucket | high (not executed) | Histograms.GetBucketAsWritten, Histograms.GetBucketOverflows, Histograms.IntHistogram.AddValue | Histograms.BucketOf, Histograms.BucketOfSpec, Histograms.IntHistogram.AddValueClamped |
