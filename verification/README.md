# A verified model of the disaggregated clean-page cache

A kernel client (`driver/`) ships clean pages by RDMA to a daemon (`daemon/`). The daemon keeps them in a
fixed pool of slots, finds them through an approximate-LRU hash table, and summarises them in Bloom filters
that it shares with the client. These modules model both sides and prove what each piece promises the next.

Run `dafny verify dfyconfig.toml`.

## How the pieces fit

- **`AtomicStack`, `LockFreeStack`**: the free list. Any number of threads take single steps (load a top word,
  read or write `next` or `value`, exchange, with spurious failure) on two intrusive lists over one node array.
  Every run shows only the calls and returns that an atomic bounded stack can show in the same order. The ABA
  counter is kept exactly and compared modulo 2^64; a pop must not sleep through 2^64 exchanges, and
  `WrapBreaksAba` shows why. `FreedSlotKept` is the reason a failed push may be ignored. An operation run alone
  always returns (`CompletesAlone`).
- **`ProbeTable`, `LinearProbing`**: the hash table. `ProbeTable` says on a sequence of buckets what each
  operation means and what finite map the buckets stand for; the class `LinearProbingApprox` runs the source's
  nested loops over lock ranges in place and refines it. Hash, clock, random starts and the outcome of
  `try_lock` are inputs.
- **`Arith`, `SlotPool`**: the slot pool, with wrapped 64-bit counters, borrowing between clients, and a ghost
  record of the slots handed out and to whom. A free list is one atomic value here, as `LockFreeStack` justifies.
- **`Bits`, `CountingFilter`**: a client's counting filter and the packed filter made from it.
- **`LongKey`, `KeyValue`**: keys, and the layer that joins table, pool and filters: insertion with its retry,
  removal, eviction, the evictor's round.
- **`CacheRuns`, `Server`**: the request handlers, receive queues and slot memory. No slot is ever in two places.
  `Server.Serve` carries out any list of puts, gets, invalidations and evictor rounds, and returns the replies and
  every state in between; `CacheRuns` says what one request may do to such a state, and proves what follows for
  whole runs: which requests are served, which slots are lost, which page a get returns, what the filters count.
- **`Shortfalls`**: two of the shortfalls below, as runs of the server and of the key-value layer.
- **`BloomFilter`, `FilterRefresh`**: the client's filter, and the protocol that refreshes it from the server's
  while puts are in flight.
- **`PutRing`, `InvalidationWindow`, `Wire`**: the client's batched put ring, the invalidation window, and the
  layout of immediate bits and metadata both sides share.

`Valid()` of `Server` collects the invariants; `Server.Serve` keeps it over every run. `Accurate()` (per-client
usage is exact) and `Covered()` (no stored key is reported absent by its client's filter) are kept apart because
they need more: keys must carry the id of the client that sends them, and the counters must have room for the
puts to come, which `KV.Fits` says of the counters before the run.

## Where the code falls short of what it is for

Each of these is stated with its exact condition.

- Victims are least recently used exactly when the window touches at most two lock ranges
  (`LinearProbing.ExactIffTwoRanges`). The daemon rounds the
  capacity to a multiple of 8, not 16, so a window that wraps around the end can touch three, and the first is
  then forgotten (`ProbeTable.TwoRangesIff`, `ProbeTable.ThreeRangesForget`).
- Even then an insertion can throw out the newest entry of its window, if that is alone in the last lock range and
  the range before is locked (`ProbeTable.NewestIsVictimIff`, `LinearProbing.NewestStays`).
- An eviction try that meets no lock and no busy entry finds no victim if the last lock range of its window has no
  entry, whatever the ranges before it hold: the retry loop keeps only that range's victim
  (`LinearProbing.SearchLaw`).
- The free threshold is computed in a 32-bit int. When 5 per cent of a list's allocation has reached 2^31 bytes, the
  threshold exceeds all memory, and is never met (`SlotPool.PerCPUPool.GetThldFree`).
- `longkey_to_offset` keeps 29 bits, so the index comes back only for even inodes (`LongKey.OffsetRoundTrip`).
- A counter at 255 becomes 1 instead of saturating; insertion is exact if and only if no counter it reaches is
  at 255 (`CountingFilter.InsertIsExact`). Putting one key over and over reaches it, because a put over a cached
  key counts the key again (`CacheRuns.CountsExactlyIff`); one removal then hides another key that is stored
  (`Shortfalls.OverflowHides`).
- A put that finds the lists it tries empty is dropped. If another page was cached under the key, it stays and is
  returned later. A page returned is the last one put if and only if that put did not meet this case
  (`CacheRuns.RepliesAreLatestIff`, `CacheRuns.FreshThroughout`); `Shortfalls.StaleReply` is a run in which it does.
- A get or an invalidation consumes the oldest receive of its queue, and with it the buffer of a receive meant for
  a put; the slot is never used again (`CacheRuns.LostForEver` counts them).
- `bf_unblocking` clears the merging switch before it merges. For that moment the keys added during the refresh
  are missing: reported are exactly those whose bits are in the snapshot or were added since the switch was cleared
  (`FilterRefresh.GapReports`, `FilterRefresh.GapForgets`).
- The callback announces the refresh done before it merges; a worker that blocks again at once clears the
  temporary bitmap. Reported are then exactly those whose bits are in the earlier snapshot or were added since the
  second blocking (`FilterRefresh.HastyBlockIff`, `FilterRefresh.HastyBlockForgets`).
- A put issued before blocking, such as one in a partial batch, that reaches the server only after its snapshot
  is lost to the client if and only if the snapshot and the keys added since do not happen to cover its bits
  (`FilterRefresh.LatePutLostIff`, `FilterRefresh.LatePutForgotten`). There are no other false negatives
  (`FilterRefresh.FalseNegativesAreLate`).

## Model

| member | source | states |
|---|---|---|
| LockFreeStack.Construct | daemon/util/lfstack.cpp:16-21 | the loop links every node to the next and the last to null, and changes no value |
| LockFreeStack.InitHolds | daemon/util/lfstack.cpp:3-25 | after construction every node is on the free list, the head list is empty, and the abstract stack is too |
| LockFreeStack.InvFromLists | daemon/util/lfstack.hpp:16-30 | two null-terminated lists that partition the nodes with the threads' hands are the lists found by following next |
| LockFreeStack.LinkStep | daemon/util/lfstack.cpp:35-36 | writing the next pointer of a node in hand disturbs neither list and no pointer another thread has read |
| LockFreeStack.PopStep | daemon/util/lfstack.cpp:42-54 | ABA safety: when a pop's exchange succeeds, the next it read earlier is still the top node's, and exactly that node comes off |
| LockFreeStack.PushStep | daemon/util/lfstack.cpp:31-40 | a push's exchange puts exactly the node in hand on top and changes nothing else |
| LockFreeStack.StepKeepsInv | daemon/util/lfstack.cpp:31-81 | every step of every thread keeps each node in exactly one of the head list, the free list and one hand |
| LockFreeStack.OutOfNodes | daemon/util/lfstack.cpp:56-60 | when the free list is empty, the stack and the other threads' values use up every node |
| LockFreeStack.LoadRefines | daemon/util/lfstack.cpp:44-48 | an operation takes effect at its load, as a pop from an empty stack or a push onto a full one, if and only if its list is empty there; otherwise the load is unseen |
| LockFreeStack.PopRefines | daemon/util/lfstack.cpp:69-81 | a stack_pop takes effect at its exchange on head, with the value on top of the stack; a stack_push's exchange on the free list is unseen |
| LockFreeStack.PushRefines | daemon/util/lfstack.cpp:56-67 | a stack_push takes effect at its exchange on head, which puts its value on top; a stack_pop's exchange on the free list is unseen |
| LockFreeStack.UnseenStep | daemon/util/lfstack.cpp:31-81 | every other step, spurious failures included, changes nothing a caller can see |
| LockFreeStack.StepRefines | daemon/util/lfstack.cpp:31-81 | each step is unseen or the atomic effect, call or return of that thread's operation |
| LockFreeStack.Linearizable | daemon/util/lfstack.cpp:31-81 | for any number of threads and any interleaving, the calls and returns of a run are those of a run of the atomic stack in the same order |
| LockFreeStack.FreedSlotKept | daemon/freelist.hpp:28-31 | with a node per chunk and callers that push only chunks the stack does not hold, stack_push never fails in any run |
| LockFreeStack.FinishesAlone | daemon/util/lfstack.cpp:31-81 | from any point of an operation at most 8 steps of its thread alone end it, with its atomic effect on the way unless it came before |
| LockFreeStack.CompletesAlone | daemon/util/lfstack.cpp:31-81 | from every state an operation run alone returns after at most 9 steps with the atomic stack's result: a pop the top value, a push success unless the nodes are used up |
| LockFreeStack.WrapBreaksAba | daemon/util/lfstack.hpp:21-24 | from a state with exactly 2^64 exchanges between load and exchange a step breaks the invariant, so the bound on age is needed for the step |
| AtomicStack.DisciplinedStep | daemon/freelist.hpp:28-31 | a disciplined step keeps values distinct and inside the chunks, and refuses no push |
| AtomicStack.NeverRefused | daemon/percpu_pool.cpp:34-41 | over every run of disciplined callers with as many nodes as chunks no push is refused |
| ProbeTable.FindIsLookup | daemon/hash-table/linear_probing_approx.cpp:186-211 | the scan of at most 16 slots that stops at a never-used one decides membership of the map and finds the stored value |
| ProbeTable.PathIsModular | daemon/hash-table/linear_probing_approx.cpp:52-55 | the i-th slot probed for a key is its hash plus i modulo the capacity, and no slot is probed twice |
| ProbeTable.DeleteIsRemoval | daemon/hash-table/linear_probing_approx.cpp:151-184 | deletion removes exactly the key from the map and hands back its value, or changes nothing; the table stays well formed |
| ProbeTable.FillStores | daemon/hash-table/linear_probing_approx.cpp:60-68 | writing a fresh key at a window slot with no never-used slot before it stores the pair, evicts the old one, and keeps the probe-window invariant |
| ProbeTable.KillRemoves | daemon/hash-table/linear_probing_approx.cpp:162-165 | a tombstone removes exactly that key and breaks no other key's probe path |
| ProbeTable.InsertOutcomes | daemon/hash-table/linear_probing_approx.cpp:39-149 | insertion has exactly four outcomes on the map, decided by the duplicate, the room in the window and the victim's busy flag |
| ProbeTable.DuplicateLeavesRoom | daemon/hash-table/linear_probing_approx.cpp:47-50 | removing a duplicate leaves room for the key in its window |
| ProbeTable.StampedKeeps | daemon/hash-table/linear_probing_approx.cpp:186-211 | a lookup changes no content, keeps the table well formed and returns the map's value |
| ProbeTable.FlaggedKeeps | daemon/hash-table/linear_probing_approx.cpp:213-242 | so does a lookup that sets or clears the busy flag |
| ProbeTable.VictimIsOldest | daemon/hash-table/linear_probing_approx.cpp:69-131 | when the window touches at most two lock ranges the victim has the least timestamp of all entries in its 16 slots |
| ProbeTable.TwoRangesIff | daemon/hash-table/linear_probing_approx.cpp:134-144 | which windows touch at most two lock ranges, for every capacity above 16 |
| ProbeTable.ThreeRangesForget | daemon/hash-table/linear_probing_approx.cpp:139-144 | a window over three ranges never chooses its first slot, however old |
| ProbeTable.VictimIsPlain | daemon/hash-table/linear_probing_approx.cpp:69-131 | the victim lies in the window's last lock range or, if that can be locked again, the one before, and no entry there has a smaller timestamp |
| ProbeTable.NewestIsVictimIff | daemon/hash-table/linear_probing_approx.cpp:110-131 | the newest entry of a full window is a victim if and only if it is alone in the last lock range and the range before cannot be locked again |
| ProbeTable.TwoRangesPlain | daemon/hash-table/linear_probing_approx.cpp:134-144 | a window touches at most two lock ranges if and only if at most one of its later slots is divisible by 16 |
| ProbeTable.InsertWrites | daemon/hash-table/linear_probing_approx.cpp:52-147 | a new key's insertion writes exactly one bucket of its window, the first vacant one or a victim's, with the pair and the time, or, if the victim is busy, none |
| LinearProbing.LinearProbingApprox.constructor | daemon/hash-table/linear_probing_approx.cpp:17-30 | a new table is well formed and empty |
| LinearProbing.LinearProbingApprox.Insert | daemon/hash-table/linear_probing_approx.cpp:39-149 | the nested loops compute the specified insertion for every bucket array, with one of the four outcomes; a new key that is stored sits in a slot of its window with exactly the key, the value, the time and the slot's old busy flag, its first vacant slot or else a victim's that none of the ranges it may come from is older than, and every other bucket is unchanged; a removed duplicate is tombstoned and leaves room; a full window of at most two lock ranges loses a least recently used entry or, if that is busy, nothing changes |
| LinearProbing.LinearProbingApprox.Delete | daemon/hash-table/linear_probing_approx.cpp:151-184 | the loops over lock ranges remove exactly the key, by turning its one bucket into a tombstone, and return its value or null |
| LinearProbing.LinearProbingApprox.Get | daemon/hash-table/linear_probing_approx.cpp:186-211 | returns the map's value or null, and stamps the bucket found with the time and changes nothing else |
| LinearProbing.LinearProbingApprox.GetWithFlag | daemon/hash-table/linear_probing_approx.cpp:213-242 | returns the value only when marking busy; the bucket found gets the flag and, when marking, the time, and nothing else changes |
| LinearProbing.LinearProbingApprox.CollEvict | daemon/hash-table/linear_probing_approx.hpp:76-87 | the victim's old pair comes out and its bucket holds the new pair, the time and the old busy flag |
| LinearProbing.LinearProbingApprox.ApproxLRUEvict | daemon/hash-table/linear_probing_approx.cpp:249-357 | a victim is found by the first try that must find one, or before: one of the first three that meets no lock and no busy entry and has an entry in its window's last range, or a later one that meets no lock and whose first entry is not busy. One of the first three evicts an entry, not busy, that none of the ranges it may come from is older than, with at most two ranges a least recently used one of the window; a later one evicts the first entry of its window. With no try disturbed the search ends exactly at the first that must find one. The entry becomes a tombstone and nothing else changes |
| LinearProbing.LinearProbingApprox.EvictSearch | daemon/hash-table/linear_probing_approx.cpp:256-300 | the retry loop ends at the specified slot after the specified number of tries, each starting from the variables the one before it left, and so at the first try that must find a victim, or before, with a slot that try may evict |
| LinearProbing.LinearProbingApprox.EvictTry | daemon/hash-table/linear_probing_approx.cpp:256-347 | one try gives the specified slot or none and leaves the specified variables behind, for every locked range, busy entry and leftover; a busy entry is never evicted |
| LinearProbing.InsertChooses | daemon/hash-table/linear_probing_approx.cpp:110-125 | a key makes room only for a full window and only in place of its victim; without busy entries no insertion is refused |
| LinearProbing.InsertReplacesOldest | daemon/hash-table/linear_probing_approx.cpp:69-131 | an insertion into a full window of at most two lock ranges replaces an entry of minimum timestamp or, if it is busy, changes nothing |
| LinearProbing.NewestStays | daemon/hash-table/linear_probing_approx.hpp:89-93 | a key stored in a full window at a time later than all others there is thrown out by the next insertion there if and only if that succeeds, the key is alone in the window's last lock range, and the range before cannot be locked again |
| LinearProbing.ReadStays | daemon/hash-table/linear_probing_approx.cpp:186-211 | and so is a key just read |
| LinearProbing.ChosenIsVictim | daemon/hash-table/linear_probing_approx.cpp:69-131 | the entry that makes room is not busy, and none of the ranges it may come from holds an older one |
| LinearProbing.ExactIffTwoRanges | daemon/hash-table/linear_probing_approx.cpp:69-144 | a window touches at most two lock ranges if and only if in every table the victim of that window is a least recently used entry when it is full |
| LinearProbing.QuietTry | daemon/hash-table/linear_probing_approx.cpp:256-334 | a try outside random mode that meets no busy entry leaves nothing behind if it fails, and evicts an entry of minimum timestamp of a window of at most two lock ranges |
| LinearProbing.SearchFindsOldest | daemon/hash-table/linear_probing_approx.cpp:256-334 | an eviction that ends within three tries, the last over a window of at most two ranges the first of which can be locked again, evicts an entry of minimum timestamp of that window, whatever the tries before met |
| LinearProbing.SearchLaw | daemon/hash-table/linear_probing_approx.cpp:256-334 | from any point of the retry loop: it ends at the first try that must find a victim or before, what it evicts its last try may evict, and if no try is disturbed it ends exactly there and in that try's window |
| SlotPool.LayoutValid | daemon/percpu_pool.cpp:34-48 | the constructor's layout gives pairwise disjoint slots inside the pool, each on one list, with allocations equal to the bytes |
| SlotPool.PerCPUPool.constructor | daemon/percpu_pool.cpp:23-54 | the new pool satisfies every pool invariant, with every slot on its list in address order, an equal share of the slots per list, and minimum thresholds of 10 and 5 per cent of a list's bytes |
| SlotPool.PerCPUPool.GetFreeAddr | daemon/freelist.hpp:24-26 | the top of the list comes off, or the list was empty |
| SlotPool.PerCPUPool.PutFreeAddr | daemon/freelist.hpp:28-31 | the address goes on top, or is silently lost when the nodes are used up |
| SlotPool.PerCPUPool.Allocate | daemon/percpu_pool.cpp:186-220 | no slot is given if and only if the list of the queue and the lists after it in the client's ring, half of the ring in all but at least that one, are empty; otherwise the first non-empty one in ring order gives its top and counts it used; usage stays exact |
| SlotPool.PerCPUPool.StarvedMeans | daemon/percpu_pool.cpp:186-220 | which lists a request tries, in terms of the client's lists alone |
| SlotPool.PerCPUPool.StarvedAlone | daemon/percpu_pool.cpp:186-220 | with a single list, no slot is given if and only if every slot is handed out |
| SlotPool.PerCPUPool.Free | daemon/percpu_pool.cpp:222-233 | the slot is on top of the named client's list and no longer handed out; the push cannot fail; usage stays exact if it returns to its client |
| SlotPool.PerCPUPool.GetClientUsed | daemon/percpu_pool.hpp:89-96 | the wrapped sum over a client's lists is the slot size times the slots handed out to it and not returned |
| SlotPool.PerCPUPool.GetFree | daemon/percpu_pool.hpp:105-107 | the wrapped difference of a list's counters is exactly the bytes on the list |
| SlotPool.PerCPUPool.GetThldFree | daemon/percpu_pool.hpp:54-66 | the threshold is the larger of the minimum and 5 per cent of the list's allocation while that is below 2^31; from there to 2^32 it exceeds all memory |
| SlotPool.PerCPUPool.SelectByFreeMem | daemon/percpu_pool.cpp:78-109 | every other client is examined once; the first in cyclic order with the most whole megabytes to spare is chosen, the caller if and only if none has one |
| SlotPool.PerCPUPool.SpareMeans | daemon/percpu_pool.cpp:78-109 | without overflow a client's spare megabytes are what its lists hold beyond the threshold of its first list times its lists, if its allocation exceeds the minimum, although single counters wrap |
| SlotPool.PerCPUPool.BestSpareUnique | daemon/percpu_pool.cpp:89-106 | thresholds and order determine the chosen client uniquely |
| SlotPool.PerCPUPool.AllocateFromPeer | daemon/percpu_pool.cpp:131-183 | a borrow happens exactly when another client was chosen and its list of the same queue has more megabytes allocated and free than the minimums; it moves one slot with its allocation, and keeps every pool invariant and the total allocation |
| SlotPool.PerCPUPool.Borrow | daemon/percpu_pool.cpp:160-171 | the peer's top slot and its bytes move, and the peer list's whole-megabyte allocation stays at least the minimum's |
| SlotPool.UsageTake | daemon/percpu_pool.cpp:198-203 | handing a slot to a client through any of its lists keeps every client's wrapped usage exact |
| SlotPool.UsageReturn | daemon/percpu_pool.cpp:222-233 | so does returning it through any list of the same client, although single counters wrap |
| SlotPool.BalancedTake | daemon/percpu_pool.cpp:198-203 | counters modulo 2^64 still give the list's bytes after an allocation |
| SlotPool.BalancedReturn | daemon/percpu_pool.cpp:222-233 | and after a free to whichever list |
| SlotPool.BorrowKeeps | daemon/percpu_pool.cpp:165-171 | and after a borrow, which also keeps slots apart and the sum of allocations |
| LongKey.RoundTrip | daemon/Ihash.hpp:34-53 | client and inode are read back from every key made of fields in range |
| LongKey.OffsetRoundTrip | daemon/Ihash.hpp:55-58 | the index is read back if and only if the inode is even |
| LongKey.Injective | daemon/Ihash.hpp:34-43 | distinct fields give distinct keys |
| LongKey.Reserved | daemon/util/pair.h:10-16 | the only keys the table reserves belong to client 15 and the last inode |
| CountingFilter.InsertIsExact | daemon/counting_bloom_filter.hpp:88-99 | insertion refines adding to the multiset if and only if no counter it reaches is at 255 |
| CountingFilter.MemberRemoves | daemon/counting_bloom_filter.hpp:116-137 | a member is reported present, its removal underflows no counter and refines removal from the multiset, salts that collide included |
| CountingFilter.CountingBloomFilter.Insert | daemon/counting_bloom_filter.hpp:88-99 | the loop raises the counters as specified; exactness is kept if and only if nothing overflows |
| CountingFilter.CountingBloomFilter.MightContain | daemon/counting_bloom_filter.hpp:139-151 | true if and only if every salt's counter is positive, hence for every member |
| CountingFilter.CountingBloomFilter.Remove | daemon/counting_bloom_filter.hpp:116-137 | a key reported absent changes nothing; a member's removal keeps the counters exact |
| CountingFilter.CountingBloomFilter.ToOrdinaryBF | daemon/counting_bloom_filter.hpp:176-194 | from any counters, bit idx is set if and only if counter idx is positive, bits past the last are clear, and both filters answer alike for every key |
| CountingFilter.CountingBloomFilter.BFMightContain | daemon/counting_bloom_filter.hpp:164-174 | true if and only if every salt's packed bit is set |
| KeyValue.KV.constructor | daemon/kv.cpp:41-92 | table, pool and filters start valid, exact and empty; the capacity is a multiple of 8 above 16 and a tenth more than the pages, less than 8 off |
| KeyValue.KV.InsertOnce | daemon/kv.cpp:112-150 | one pass stores the pair (perhaps for a victim whose slot is freed to its own client), frees the caller's slot, or gives a duplicate's slot back and asks to retry |
| KeyValue.KV.Settle | daemon/kv.cpp:118-150 | without a duplicate: the victim's slot, or the refused caller's, is freed and the filters recount exactly the key stored and the victim |
| KeyValue.KV.Insert | daemon/kv.cpp:107-151 | retries at most once, a duplicate put always stores and counts its key once more; the caller's slot and no other leaves its hand; usage stays exact and no stored key is reported absent |
| KeyValue.KV.Remove | daemon/kv.cpp:153-168 | the key's pair leaves the table and its slot is in the caller's hand; the client's filter still covers the rest |
| KeyValue.KV.Evict | daemon/kv.cpp:191-208 | exactly one stored pair goes, its slot back to the client its key names and its key off that client's filter, or no try found one, as then none of them had to |
| KeyValue.KV.EvictorStep | daemon/kv.cpp:230-234 | a slot is borrowed if and only if the chosen peer's list can lend; otherwise a page is evicted if any can be found |
| KeyValue.KV.EvictorRound | daemon/kv.cpp:222-238 | the threshold is the larger of the minimum and 5 per cent of the list's allocation at the start, below 2^31; a round evicts at most one page more than the threshold holds, and ends with the list's free megabytes no fewer than the threshold's, with just that many evictions, or below it with no try left that must find a victim; borrows are bounded by the threshold; exactly the keys gone are taken off their clients' filters |
| KeyValue.KV.OutSize | daemon/kv.cpp:107-208 | the slots handed out are as many as the pairs stored and the slots in hand |
| KeyValue.KV.FitsIs | daemon/counting_bloom_filter.hpp:88-99 | the counters have room for more keys if and only if the filter's contents and those keys together fill no position beyond 255 |
| KeyValue.KV.NoFalseNegatives | daemon/kv.cpp:153-168 | every stored key is reported present by its client's counting filter |
| KeyValue.KV.PackFilter | daemon/rdma.cpp:307-309 | the packed filter sent to a client answers as the counting filter for every key and reports every stored key of that client |
| KeyValue.KV.Allocate | daemon/kv.hpp:44-46 | a fresh slot enters the caller's hand and nothing else moves |
| KeyValue.KV.Free | daemon/kv.hpp:48-50 | the slot leaves the caller's hand for a free list |
| Server.Server.PrePostRecvs | daemon/rdma.cpp:929-933 | n receives are posted: with distinct fresh slots of the queue's client while its lists have any, and then with the address -1; no slot is lost |
| Server.Server.ProcessPut | daemon/rdma.cpp:161-179 | the buffer is posted again and the page dropped if and only if the lists tried are empty; otherwise the filled buffer goes to the table and a fresh slot is posted |
| Server.Server.ReceivePut | daemon/rdma.cpp:161-198 | the page is dropped if and only if the list drawn and the half of the client's ring from there are empty, and then only the receive queue turns; otherwise the cache gains the page, losing at most the victim of a new key's full window; no slot is lost |
| Server.Server.Take | daemon/rdma.cpp:209-232 | the key's pair leaves the table, its page is what the slot held, and the slot goes back to the client's lists, not lost |
| Server.Server.ConsumeRecv | daemon/rdma.cpp:288-296 | a get or invalidation loses exactly the buffer of the receive it consumes and posts one without |
| Server.Server.ReceiveGet | daemon/rdma.cpp:200-238 | returns the cached page, if any, and removes exactly that key |
| Server.Server.ReceiveInvalidate | daemon/rdma.cpp:240-269 | commits if and only if the key was cached, and removes exactly that key |
| Server.Server.Round | daemon/kv.cpp:222-238 | an evictor round removes as many pages as it evicted, changes none, loses no slot and disturbs no posted buffer |
| Server.Server.NoAliasing | daemon/rdma.cpp:161-269 | in every valid state no slot address is in two of: a free-list position, a bucket, a receive-queue position |
| Server.Server.SomewhereUnlessLost | daemon/rdma.cpp:161-269 | every slot of the pool not lost with a consumed receive is in one of those places |
| Server.Server.HandIsApart | daemon/rdma.cpp:161-269 | a slot in a handler's hand is in none of them |
| Server.Server.Serve | daemon/rdma.cpp:276-332 | any list of puts, gets, invalidations and evictor rounds is carried out step by step as `CacheRuns.Stepped` says; a message is served if and only if the receives before the run and the requests so far leave one for it; usage stays exact, and no stored key is reported absent if the counters before the run have room for its puts |
| CacheRuns.ServedIff | daemon/rdma.cpp:276-332 | in every run a message is served if and only if its queue has a receive for it, with a buffer if it is a put, and which receives are there follows from the requests before it alone |
| CacheRuns.DroppedIff | daemon/rdma.cpp:161-179 | in every run a put is dropped if and only if it is served and finds empty the list drawn and the half of its client's ring from there on |
| CacheRuns.PutEvicts | daemon/kv.cpp:112-150 | in every run another page leaves at a put only if the key is new and its window full; it is the only one, not busy, and none of the ranges it may be chosen from holds an older one |
| CacheRuns.RoundReaches | daemon/kv.cpp:222-238 | in every run a round ends with its list's free megabytes at the threshold, in terms of the allocation it started with, unless it evicts one page more than the threshold holds or stalls |
| CacheRuns.LostForEver | daemon/rdma.cpp:288-296 | in every run the slots lost grow by exactly one with each get or invalidation that consumes a receive with a buffer, and never shrink |
| CacheRuns.CacheIsLastStored | daemon/kv.cpp:107-168 | in every run whatever is cached under a key is the page last stored under it and neither read nor invalidated since |
| CacheRuns.RepliesAreLastStored | daemon/rdma.cpp:200-238 | so every page returned is the last put under its key that was not dropped |
| CacheRuns.CacheIsLatestIff | daemon/rdma.cpp:171-178 | a cached page is that of the last put served under its key if and only if that put did not find the lists it tries empty and another page cached |
| CacheRuns.RepliesAreLatestIff | daemon/rdma.cpp:171-178 | the same of every page returned |
| CacheRuns.FreshThroughout | daemon/rdma.cpp:171-178 | the cache holds only pages last put throughout a run if and only if no put of the run meets that case |
| CacheRuns.StaysAccurate | daemon/percpu_pool.hpp:89-96 | per-client usage stays exact in every run whose messages carry their own client's keys |
| CacheRuns.StaysCovered | daemon/kv.cpp:145-149 | if each client's filter can count what it has counted and all its puts, the filters stay exact and report every cached key throughout |
| CacheRuns.Surplus | daemon/kv.cpp:134-149 | what a filter has counted of a key beyond its being cached grows by one with each put stored while the key was cached, and never otherwise changes |
| CacheRuns.CountsExactlyIff | daemon/kv.cpp:134-149 | a client's filter counts exactly its cached keys, each once, if and only if no put was stored while its key was cached |
| Shortfalls.StaleReply | daemon/rdma.cpp:171-178 | a run from the start in which a put is stored, a second of the same key dropped, and a get returns the first page |
| Shortfalls.OverflowHides | daemon/counting_bloom_filter.hpp:88-99 | 256 puts of two keys and the removal of one leave the other stored and reported absent |
| BloomFilter.PackedBits | driver/filter/bloom_filter.c:86-118 | a packed filter reports exactly the keys all of whose positions are set |
| BloomFilter.BloomFilter.constructor | driver/filter/bloom_filter.c:5-41 | a new filter is empty and not merging |
| BloomFilter.BloomFilter.Add | driver/filter/bloom_filter.c:63-84 | exactly the key's positions are added, to the temporary bitmap while merging and to the bitmap otherwise |
| BloomFilter.BloomFilter.MightContain | driver/filter/bloom_filter.c:86-118 | true if and only if all positions are in the bitmap or, while merging, all in the temporary one |
| BloomFilter.BloomFilter.Blocking | driver/filter/bloom_filter.h:56-65 | the temporary bitmap is empty and merging is on; the bitmap is untouched |
| BloomFilter.BloomFilter.Merge | driver/filter/bloom_filter.h:48-54 | the bitmap becomes the union of both |
| BloomFilter.BloomFilter.Unblocking | driver/filter/bloom_filter.h:67-71 | merging is off and the bitmap is the union of both |
| FilterRefresh.StepAccounts | driver/worker.c:27-53 | through every step a key the server holds or is about to is pending, buffered, or both in the bitmap and in the snapshot to come, unless its put was late for one of them |
| FilterRefresh.NeverStuck | driver/worker.c:27-53 | in every run a refresh under way, or its waiting worker, has a step to take until the filter is at rest and the worker asleep |
| FilterRefresh.ReportedAtRest | driver/worker.c:27-53 | in every run, when no refresh is under way, a key is reported if and only if its bits are among those last written and those of the keys added since blocking, less the ones added with the switch off before the overwrite |
| FilterRefresh.ReportedAnyTime | driver/filter/bloom_filter.c:86-118 | in every run and at any time, which keys are reported, in terms of the snapshot written and the keys buffered, added and merged since |
| FilterRefresh.PatientAtRest | driver/worker.c:27-53 | if refreshes do not overlap, the keys reported at rest are those whose bits are among the snapshot's and those of the keys added since blocking |
| FilterRefresh.FalseNegativesAreLate | driver/worker.c:27-53 | if refreshes do not overlap, a key the server holds or is about to is reported once added, outside the gap, unless its put was in flight from before blocking to after the snapshot |
| FilterRefresh.LatePutLostIff | driver/worker.c:27-53 | at rest such a key is reported absent if and only if its put was so late and its bits are neither in the snapshot nor among those of the keys added since |
| FilterRefresh.NoFalseNegatives | driver/worker.c:27-53 | if refreshes do not overlap and puts issued before blocking reach the server before its snapshot, no key the server holds or is about to is reported absent once added, outside the gap |
| FilterRefresh.AddedReported | driver/filter/bloom_filter.c:63-118 | every key added since blocking is reported present during and after the merge, outside the gap |
| FilterRefresh.SnapshotReported | daemon/rdma.cpp:307-309 | every key of the snapshot is reported from the overwrite until the next one |
| FilterRefresh.GapReports | driver/filter/bloom_filter.h:67-71 | between clearing the switch and merging, a key is reported if and only if its bits are among the snapshot's and those of the keys added since clearing; the merge adds the keys added during the refresh |
| FilterRefresh.HastyBlockIff | driver/worker.c:47-53 | after blocking again before the switch is cleared, and until the next overwrite, a key is reported if and only if its bits are among the earlier snapshot's and those of the keys added since the second blocking |
| FilterRefresh.GapForgets | driver/filter/bloom_filter.h:67-71 | a run in which a key held and added is reported absent in the gap |
| FilterRefresh.LatePutForgotten | driver/worker.c:27-53 | a run in which a put arrives after the snapshot and its key stays reported absent |
| FilterRefresh.HastyBlockForgets | driver/worker.c:47-53 | a run in which blocking again before the merge loses a key |
| PutRing.SlotOf | driver/rdma.c:156-173 | the message number modulo the ring is the slot of its batch modulo the batches |
| PutRing.StepKeepsInv | driver/rdma.c:63-189 | every step of the sender, the batch workers and the network card keeps the ring's invariant |
| PutRing.StillInPlace | driver/rdma.c:106-168 | in every run, every accepted put of a batch not yet completely sent is still in its slot |
| PutRing.SentInOrder | driver/rdma.c:82-114 | each batch sent carried exactly the puts accepted for it, in order, under their message numbers, and none is sent twice |
| PutRing.ExactlyOnce | driver/rdma.c:141-189 | every accepted put is in exactly one of the partial batch, one scheduled batch, or one sent batch |
| PutRing.StepAccepts | driver/rdma.c:168-188 | the puts accepted grow by exactly the put that returns 0 |
| PutRing.WaitsIff | driver/rdma.c:156-166 | in every run a sender finds its batch clear if and only if puts of it are in already, its place in the ring was never used, or the batch last accepted there has been sent; otherwise it tries again, and after six times gives up |
| PutRing.NeverStuck | driver/rdma.c:106-188 | while a batch is in work its worker or the card has a step to take, and a sender that waits for none can go on |
| PutRing.RefusalLeavesNoTrace | driver/rdma.c:156-166 | a put refused with -6 was tested seven times, each time with the full batch last accepted in its place of the ring not yet sent, and changed neither the message number, the buffer nor the accepted puts |
| InvalidationWindow.StepKeepsInv | driver/rdma.c:307-331 | every step of client, channel and server keeps the window's invariant |
| InvalidationWindow.ReadsAreRequests | daemon/rdma.cpp:240-262 | in every run the keys the server read are the first keys requested, in order |
| InvalidationWindow.ReplyClosesRound | driver/rdma.c:324-331 | at most N requests are outstanding, a reply means all are read, and no delivery writes a slot still to be read |
| InvalidationWindow.GoesOn | driver/rdma.c:307-331 | in every run a key can be sent exactly when no reply is awaited, and what is on its way, delivered or replied can be delivered, read or received |
| InvalidationWindow.NeverStuck | driver/rdma.c:327-330 | a client waiting for its reply always has a step to wait for |
| Wire.PackedFields | driver/rdma.h:239-262 | the receiver reads back what was packed if and only if every field fits its bits |
| Wire.EveryWord | daemon/rdma.hpp:143-165 | the fields use all 32 bits |
| Wire.OffsetsAgree | driver/rdma.h:319-332 | client and server compute the same places, inside the registered region |
| Wire.SlotsDisjoint | daemon/rdma.hpp:168-184 | different queues, kinds or invalidation numbers never share a byte |

## Left out

- Operations on the table, the pool and the key-value layer are atomic. The source locks one range at a time and Insert drops its lock after Delete, so two inserts of one key can interleave; no claim is made about that.
- Handlers are atomic. A page of a get is returned and its slot freed in one step; the source waits for the send to complete in between.
- `LinearProbing.LinearProbingApprox.ApproxLRUEvict`: the source retries until a try finds a victim. Here the tries come from a finite supply of any length, false is returned if none of them finds one, and EvictorRound reports a stall there.
- `LinearProbing.LinearProbingApprox.EvictSearch`: the same.
- `Server.Server.Serve` models one key-value shard, as `daemon/main.cpp` configures; the shard choice is not modelled.
- The inclusive policy: GetWithFlag is modelled, the busy flag's lifetime is not, since Delete and SetBucket never clear it. `Server` assumes the exclusive policy, under which no entry is ever busy and so no put is refused.
- Keys equal to the table's two reserved words, which only client 15 can form (`LongKey.Reserved`), and null slots are excluded by preconditions.
- A receive posted with the address -1 fits no message: here a put that finds one at the head of its queue is not served; the failure of the connection is not modelled.
- Receives posted without a buffer at connection time and the exchange of memory regions over them.
- Failures of memory allocation, of posting work to the network card and of scheduling work.
- Hash functions are arbitrary functions of key and salt; CRC checking is compiled out.
- The floating-point choice of filter parameters; any parameters with at least one position and fewer than 256 salts are allowed.
- `PutRing.StillInPlace` and `InvalidationWindow.ReadsAreRequests` count messages without bound; overflow of the source's int counter is not modelled.
- 64-bit words of filters are written out bit by bit (`Bits`), and keys of the table are numbers below 2^64; `LongKey.NumericCid` ties them to the shifts.
- Byte order of immediate data: both sides convert.
- `FilterRefresh.NoFalseNegatives`: each filter operation is one step; a thread that reads the merging switch and writes a bitmap later can lose its key.
- Statistics, logging, timers, module plumbing, sleeping, the connection set-up, and the modules `driver/hashtable.c` and `driver/access_filter.h`.
